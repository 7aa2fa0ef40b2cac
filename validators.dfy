/**
  The upload validator (validate_file): a file is accepted when the extension
  taken from its name is one of .pdf, .docx, .txt and its size is at most 10 MiB.
  The extension is checked first; both rejections are HTTP 400.

  The file object's seek/tell calls are replaced by the size they measure and by
  the position the file is left at.
*/
module Validators {
  import opened Wrappers
  import opened Text

  const MaxFileSize: nat := 10 * 1024 * 1024
  const AllowedExtensions: set<string> := {".pdf", ".docx", ".txt"}

  /** The upload as the validator sees it. */
  datatype UploadFile = UploadFile(filename: string, size: nat, position: nat)

  datatype Reason = FileTypeNotAllowed | FileTooLarge

  datatype HttpException = HttpException(statusCode: int, reason: Reason)

  /** The exception validate_file raised, if any, and the file position it left. */
  datatype Validation = Validation(raised: Option<HttpException>, position: nat)

  /**
    filename.split('.')[-1]: the part of the name after its last '.', or the
    whole name when it has no '.'.
  */
  function LastSegment(s: string): (r: string)
    ensures '.' !in r
    ensures '.' !in s ==> r == s
  {
    s[LastIndex(s, '.') + 1..]
  }

  /** '.' + filename.split('.')[-1].lower() */
  function FileExtension(filename: string): (ext: string)
    ensures |ext| >= 1 && ext[0] == '.' && '.' !in ext[1..]
    ensures forall i :: 1 <= i < |ext| ==> !IsUpper(ext[i])
  {
    var last := LastSegment(filename);
    LowerShape(last);
    assert ("." + Lower(last))[1..] == Lower(last);
    "." + Lower(last)
  }

  /** validate_file: the extension check, then the size check. */
  function ValidateFile(file: UploadFile): (v: Validation)
    ensures v.raised.None? <==>
              FileExtension(file.filename) in AllowedExtensions && file.size <= MaxFileSize
    ensures v.raised == Some(HttpException(400, FileTypeNotAllowed)) <==>
              FileExtension(file.filename) !in AllowedExtensions
    ensures v.raised == Some(HttpException(400, FileTooLarge)) <==>
              FileExtension(file.filename) in AllowedExtensions && file.size > MaxFileSize
    ensures v.position == if FileExtension(file.filename) in AllowedExtensions then 0 else file.position
  {
    if FileExtension(file.filename) !in AllowedExtensions then
      Validation(Some(HttpException(400, FileTypeNotAllowed)), file.position)
    else if file.size > MaxFileSize then
      Validation(Some(HttpException(400, FileTooLarge)), 0)
    else
      Validation(None, 0)
  }

  /** Only the text after the last '.' decides the extension. */
  lemma LastSegmentAfterLastDot(stem: string, tail: string)
    requires '.' !in tail
    ensures LastSegment(stem + "." + tail) == tail
  {
    var s := stem + "." + tail;
    assert forall j :: |stem| < j < |s| ==> s[j] == tail[j - |stem| - 1];
    LastIndexUnique(s, '.', |stem|);
    assert s[|stem| + 1..] == tail;
  }

  lemma ExtensionAfterLastDot(stem: string, tail: string)
    requires '.' !in tail
    ensures FileExtension(stem + "." + tail) == "." + Lower(tail)
  {
    LastSegmentAfterLastDot(stem, tail);
  }

  /** Lowering and taking the last segment commute, since lowering keeps every '.'. */
  lemma LowerLastSegment(s: string)
    ensures Lower(LastSegment(s)) == LastSegment(Lower(s))
  {
    var k := LastIndex(s, '.');
    LowerShape(s);
    LastIndexUnique(Lower(s), '.', k);
  }

  /** The extension depends only on the lowered file name: the check ignores case. */
  lemma ExtensionIgnoresCase(f: string, g: string)
    requires Lower(f) == Lower(g)
    ensures FileExtension(f) == FileExtension(g)
  {
    LowerLastSegment(f);
    LowerLastSegment(g);
  }

  /** "REPORT.PDF" has the extension ".pdf" and is accepted. */
  lemma UpperCaseNameAccepted(size: nat, position: nat)
    requires size <= MaxFileSize
    ensures FileExtension("REPORT.PDF") == ".pdf"
    ensures ValidateFile(UploadFile("REPORT.PDF", size, position)) == Validation(None, 0)
  {
    ExtensionAfterLastDot("REPORT", "PDF");
    assert "REPORT.PDF" == "REPORT" + "." + "PDF";
  }

  /** Only the last segment counts: "a.pdf.exe" is refused. */
  lemma InnerPdfSegmentIgnored(size: nat, position: nat)
    ensures FileExtension("a.pdf.exe") == ".exe"
    ensures ValidateFile(UploadFile("a.pdf.exe", size, position)).raised ==
              Some(HttpException(400, FileTypeNotAllowed))
  {
    ExtensionAfterLastDot("a.pdf", "exe");
    assert "a.pdf.exe" == "a.pdf" + "." + "exe";
  }

  /** Only the last segment counts: "a.exe.pdf" is accepted. */
  lemma FinalPdfSegmentAccepted(size: nat, position: nat)
    requires size <= MaxFileSize
    ensures FileExtension("a.exe.pdf") == ".pdf"
    ensures ValidateFile(UploadFile("a.exe.pdf", size, position)).raised == None
  {
    ExtensionAfterLastDot("a.exe", "pdf");
    assert "a.exe.pdf" == "a.exe" + "." + "pdf";
  }

  /** A name ending in '.' has the extension "." and is refused. */
  lemma TrailingDotRefused(size: nat, position: nat)
    ensures FileExtension("a.pdf.") == "."
    ensures ValidateFile(UploadFile("a.pdf.", size, position)).raised ==
              Some(HttpException(400, FileTypeNotAllowed))
  {
    ExtensionAfterLastDot("a.pdf", "");
    assert "a.pdf." == "a.pdf" + "." + "";
  }

  /** A name without '.' is judged by the whole lowered name: a file called "pdf" passes. */
  lemma NameWithoutDotIsItsOwnExtension(size: nat, position: nat)
    requires size <= MaxFileSize
    ensures FileExtension("pdf") == ".pdf"
    ensures ValidateFile(UploadFile("pdf", size, position)).raised == None
  {
  }

  /** The size bound is inclusive: exactly 10485760 bytes passes, one byte more does not. */
  lemma SizeBoundary(filename: string, position: nat)
    requires FileExtension(filename) in AllowedExtensions
    ensures MaxFileSize == 10485760
    ensures ValidateFile(UploadFile(filename, 10485760, position)) == Validation(None, 0)
    ensures ValidateFile(UploadFile(filename, 10485761, position)) ==
              Validation(Some(HttpException(400, FileTooLarge)), 0)
  {
  }

  /** A file that is both of a refused type and too large is reported for its type. */
  lemma ExtensionCheckedFirst(position: nat)
    ensures ValidateFile(UploadFile("setup.exe", 2 * MaxFileSize, position)) ==
              Validation(Some(HttpException(400, FileTypeNotAllowed)), position)
  {
    ExtensionAfterLastDot("setup", "exe");
    assert "setup.exe" == "setup" + "." + "exe";
  }

}
