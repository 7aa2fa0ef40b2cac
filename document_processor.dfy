/**
  The text normaliser (DocumentProcessor.preprocess_text) and the ingestion
  composition (DocumentProcessor.process_pdf).

  preprocess_text lowers the text, deletes every character that is neither a
  word character nor whitespace, tokenises, keeps the tokens that are not
  stopwords (tested on the raw token), lemmatises each survivor and joins the
  lemmas with single spaces. process_pdf extracts the text of a PDF, normalises
  it and splits it into chunks.

  The libraries behind extraction, tokenising, lemmatising, the stopword list
  and splitting are given as values of `Library`: the model fixes only what
  this repository does with them.
*/
module DocumentProcessing {
  import opened Text

  /** The splitter's configuration (RecursiveCharacterTextSplitter). */
  datatype TextSplitter = TextSplitter(chunkSize: nat, chunkOverlap: nat)

  /** The library calls the processor makes. */
  datatype Library = Library(
    extractText: seq<bv8> -> string,                  // pdfminer's extract_text
    wordTokenize: string -> seq<string>,              // nltk's word_tokenize
    englishStopwords: set<string>,                    // nltk's stopwords.words("english")
    wordNetLemmatize: string -> string,               // WordNetLemmatizer().lemmatize
    splitText: (TextSplitter, string) -> seq<string>  // TextSplitter.split_text
  )

  /** The fields DocumentProcessor.__init__ sets; nothing changes them afterwards. */
  datatype DocumentProcessor = DocumentProcessor(
    stopwordsSet: set<string>,
    lemmatizer: string -> string,
    textSplitter: TextSplitter
  )

  const ChunkSize: nat := 4000
  const ChunkOverlap: nat := 5

  /** DocumentProcessor(): the English stopwords, the WordNet lemmatiser, a 4000/5 splitter. */
  function NewDocumentProcessor(lib: Library): (p: DocumentProcessor)
    ensures p.stopwordsSet == lib.englishStopwords
    ensures forall w :: p.lemmatizer(w) == lib.wordNetLemmatize(w)
    ensures p.textSplitter == TextSplitter(4000, 5)
  {
    DocumentProcessor(lib.englishStopwords, lib.wordNetLemmatize, TextSplitter(ChunkSize, ChunkOverlap))
  }

  predicate IsWordOrSpace(c: char) { IsWordChar(c) || IsSpace(c) }

  /**
    re.sub(r'[^\w\s]', "", s): keeps exactly the word and whitespace characters,
    in order. A single character is kept when it is \w or \s and deleted
    otherwise; with RemoveSpecialCharactersAppend this fixes the whole function.
  */
  function RemoveSpecialCharacters(s: string): (r: string)
    ensures |s| == 1 ==> r == (if IsWordOrSpace(s[0]) then s else [])
    ensures |r| <= |s|
    ensures forall i :: 0 <= i < |r| ==> IsWordOrSpace(r[i])
    ensures (forall i :: 0 <= i < |s| ==> IsWordOrSpace(s[i])) ==> r == s
    decreases |s|
  {
    if s == [] then []
    else (if IsWordOrSpace(s[0]) then [s[0]] else []) + RemoveSpecialCharacters(s[1..])
  }

  /** The deletion works character by character: it distributes over concatenation. */
  lemma {:induction false} RemoveSpecialCharactersAppend(s: string, t: string)
    ensures RemoveSpecialCharacters(s + t) ==
            RemoveSpecialCharacters(s) + RemoveSpecialCharacters(t)
    decreases |s|
  {
    if s != [] {
      var head := if IsWordOrSpace(s[0]) then [s[0]] else [];
      assert (s + t)[0] == s[0];
      assert (s + t)[1..] == s[1..] + t;
      assert RemoveSpecialCharacters(s + t) == head + RemoveSpecialCharacters(s[1..] + t);
      RemoveSpecialCharactersAppend(s[1..], t);
    } else {
      assert s + t == t;
    }
  }

  /**
    The text handed to the tokeniser: lowered first, then stripped. No
    upper-case letter is left and every character is \w or \s.
  */
  function CleanText(text: string): (c: string)
    ensures forall i :: 0 <= i < |c| ==> IsWordOrSpace(c[i]) && !IsUpper(c[i])
  {
    NoUpperSurvives(Lower(text));
    RemoveSpecialCharacters(Lower(text))
  }

  /** Cleaning cleaned text changes nothing. */
  lemma CleanTextIdempotent(text: string)
    ensures CleanText(CleanText(text)) == CleanText(text)
  {
    var c := CleanText(text);
    LowerShape(c);
    assert Lower(c) == c;
  }

  lemma {:induction false} NoUpperSurvives(s: string)
    requires forall i :: 0 <= i < |s| ==> !IsUpper(s[i])
    ensures forall i :: 0 <= i < |RemoveSpecialCharacters(s)| ==> !IsUpper(RemoveSpecialCharacters(s)[i])
    decreases |s|
  {
    if s != [] {
      NoUpperSurvives(s[1..]);
    }
  }

  /**
    The list comprehension of preprocess_text: for each token in order, keep it
    when the raw token is not a stopword, and emit its lemma.
  */
  function KeepAndLemmatize(tokens: seq<string>, stopwords: set<string>, lemmatize: string -> string): seq<string>
    decreases |tokens|
  {
    if tokens == [] then []
    else
      var n := |tokens| - 1;
      KeepAndLemmatize(tokens[..n], stopwords, lemmatize) +
      (if tokens[n] in stopwords then [] else [lemmatize(tokens[n])])
  }

  /**
    The positions of the tokens that are not stopwords, in increasing order:
    an independent account of which tokens the comprehension keeps.
  */
  function KeptPositions(tokens: seq<string>, stopwords: set<string>): (r: seq<nat>)
    ensures forall k :: 0 <= k < |r| ==> r[k] < |tokens| && tokens[r[k]] !in stopwords
    ensures forall k, l :: 0 <= k < l < |r| ==> r[k] < r[l]
    ensures forall j :: 0 <= j < |tokens| && tokens[j] !in stopwords ==> j in r
    decreases |tokens|
  {
    if tokens == [] then []
    else
      var n := |tokens| - 1;
      KeptPositions(tokens[..n], stopwords) + (if tokens[n] in stopwords then [] else [n])
  }

  /**
    The k-th word the comprehension emits is the lemma of the k-th token that is
    not a stopword: stopword filtering on raw tokens, then lemmatising, with
    the tokens' order kept.
  */
  lemma {:induction false} KeepAndLemmatizeAt(tokens: seq<string>, stopwords: set<string>, lemmatize: string -> string)
    ensures |KeepAndLemmatize(tokens, stopwords, lemmatize)| == |KeptPositions(tokens, stopwords)|
    ensures forall k :: 0 <= k < |KeptPositions(tokens, stopwords)| ==>
              KeepAndLemmatize(tokens, stopwords, lemmatize)[k] ==
              lemmatize(tokens[KeptPositions(tokens, stopwords)[k]])
    decreases |tokens|
  {
    if tokens != [] {
      var n := |tokens| - 1;
      KeepAndLemmatizeAt(tokens[..n], stopwords, lemmatize);
    }
  }

  /** The comprehension's output depends only on the stopword set and on the lemmatiser's values. */
  lemma {:induction false} KeepAndLemmatizeCongruent(tokens: seq<string>, stopwords: set<string>,
                                                     lemmatize: string -> string, lemmatize': string -> string)
    requires forall w :: lemmatize(w) == lemmatize'(w)
    ensures KeepAndLemmatize(tokens, stopwords, lemmatize) == KeepAndLemmatize(tokens, stopwords, lemmatize')
    decreases |tokens|
  {
    if tokens != [] {
      KeepAndLemmatizeCongruent(tokens[..|tokens| - 1], stopwords, lemmatize, lemmatize');
    }
  }

  /** ' '.join(words) */
  function JoinWithSpaces(words: seq<string>): (r: string)
    ensures words == [] ==> r == ""
    ensures words != [] ==> words[0] <= r
    ensures words != [] ==> |words[|words| - 1]| <= |r| && r[|r| - |words[|words| - 1]|..] == words[|words| - 1]
    decreases |words|
  {
    if words == [] then ""
    else if |words| == 1 then words[0]
    else JoinWithSpaces(words[..|words| - 1]) + " " + words[|words| - 1]
  }

  /** s.split(' '): the pieces between single spaces; always at least one piece. */
  function SplitOnSpace(s: string): (pieces: seq<string>)
    ensures |pieces| >= 1
    decreases |s|
  {
    var k := LastIndex(s, ' ');
    if k < 0 then [s] else SplitOnSpace(s[..k]) + [s[k + 1..]]
  }

  /** Splitting on ' ' recovers the joined words when none of them holds a space. */
  lemma {:induction false} SplitJoinRoundTrip(words: seq<string>)
    requires words != []
    requires forall k :: 0 <= k < |words| ==> ' ' !in words[k]
    ensures SplitOnSpace(JoinWithSpaces(words)) == words
    decreases |words|
  {
    if |words| > 1 {
      var init, last := words[..|words| - 1], words[|words| - 1];
      assert words == init + [last];
      JoinWithSpacesSnoc(init, last);
      var j := JoinWithSpaces(init);
      LastSpaceBeforeLast(j, last);
      SplitJoinRoundTrip(init);
    } else {
      LastIndexUnique(words[0], ' ', -1);
    }
  }

  /** In j + " " + last, with no space in last, the split peels off exactly last. */
  lemma LastSpaceBeforeLast(j: string, last: string)
    requires ' ' !in last
    ensures SplitOnSpace(j + " " + last) == SplitOnSpace(j) + [last]
  {
    var s := j + " " + last;
    assert forall i :: |j| < i < |s| ==> s[i] == last[i - |j| - 1];
    LastIndexUnique(s, ' ', |j|);
    assert s[..|j|] == j;
    assert s[|j| + 1..] == last;
  }

  /** Joining one more word after a non-empty list adds a space and that word. */
  lemma JoinWithSpacesSnoc(words: seq<string>, w: string)
    requires words != []
    ensures JoinWithSpaces(words + [w]) == JoinWithSpaces(words) + " " + w
  {
    var all := words + [w];
    assert all[..|all| - 1] == words;
  }

  lemma SplitAroundIndex(s: string, k: int)
    requires 0 <= k < |s| && s[k] == ' '
    ensures s == s[..k] + " " + s[k + 1..]
  {
  }

  /** Joining the pieces of a split gives the string back. */
  lemma {:induction false} JoinSplitRoundTrip(s: string)
    ensures JoinWithSpaces(SplitOnSpace(s)) == s
    decreases |s|
  {
    var k := LastIndex(s, ' ');
    if k >= 0 {
      var head, tail := s[..k], s[k + 1..];
      var pieces := SplitOnSpace(head);
      assert SplitOnSpace(s) == pieces + [tail];
      JoinSplitRoundTrip(head);
      JoinWithSpacesSnoc(pieces, tail);
      SplitAroundIndex(s, k);
    }
  }

  /**
    preprocess_text: the lemmas of the tokens of the cleaned text that are not
    stopwords, in token order, joined with single spaces.
  */
  function PreprocessText(lib: Library, p: DocumentProcessor, text: string): (r: string)
    ensures r == JoinWithSpaces(KeptLemmas(lib.wordTokenize(CleanText(text)), p.stopwordsSet, p.lemmatizer))
  {
    var tokens := lib.wordTokenize(CleanText(text));
    KeepAndLemmatizeIsKeptLemmas(tokens, p.stopwordsSet, p.lemmatizer);
    JoinWithSpaces(KeepAndLemmatize(tokens, p.stopwordsSet, p.lemmatizer))
  }

  /** The lemmas of the non-stopword tokens, in token order. */
  function KeptLemmas(tokens: seq<string>, stopwords: set<string>, lemmatize: string -> string): seq<string>
  {
    var kept := KeptPositions(tokens, stopwords);
    seq(|kept|, k requires 0 <= k < |kept| => lemmatize(tokens[kept[k]]))
  }

  /**
    The normalised text, split on ' ', is the list of lemmas of the tokens that
    are not stopwords, in token order, provided no lemma holds a space; when no
    token survives the result is "".
  */
  lemma PreprocessTextWords(lib: Library, p: DocumentProcessor, text: string, tokens: seq<string>)
    requires tokens == lib.wordTokenize(CleanText(text))
    requires forall j :: 0 <= j < |tokens| ==> ' ' !in p.lemmatizer(tokens[j])
    ensures KeptLemmas(tokens, p.stopwordsSet, p.lemmatizer) != [] ==>
              SplitOnSpace(PreprocessText(lib, p, text)) == KeptLemmas(tokens, p.stopwordsSet, p.lemmatizer)
    ensures KeptLemmas(tokens, p.stopwordsSet, p.lemmatizer) == [] ==> PreprocessText(lib, p, text) == ""
  {
    var words := KeepAndLemmatize(tokens, p.stopwordsSet, p.lemmatizer);
    KeepAndLemmatizeIsKeptLemmas(tokens, p.stopwordsSet, p.lemmatizer);
    if words != [] {
      SplitJoinRoundTrip(words);
    }
  }

  lemma KeepAndLemmatizeIsKeptLemmas(tokens: seq<string>, stopwords: set<string>, lemmatize: string -> string)
    ensures KeepAndLemmatize(tokens, stopwords, lemmatize) == KeptLemmas(tokens, stopwords, lemmatize)
    ensures forall k :: 0 <= k < |KeptLemmas(tokens, stopwords, lemmatize)| ==>
              exists j :: 0 <= j < |tokens| && KeptLemmas(tokens, stopwords, lemmatize)[k] == lemmatize(tokens[j])
  {
    KeepAndLemmatizeAt(tokens, stopwords, lemmatize);
  }

  /**
    The stopword test looks at the raw token: a token that is not a stopword
    contributes its lemma even when that lemma is itself a stopword, and a
    stopword token contributes nothing.
  */
  lemma StopwordTestPrecedesLemmatizing(tokens: seq<string>, stopwords: set<string>,
                                         lemmatize: string -> string, j: nat)
    requires j < |tokens|
    ensures tokens[j] !in stopwords ==>
              lemmatize(tokens[j]) in KeepAndLemmatize(tokens, stopwords, lemmatize)
    ensures tokens[j] in stopwords ==> j !in KeptPositions(tokens, stopwords)
  {
    var kept := KeptPositions(tokens, stopwords);
    KeepAndLemmatizeAt(tokens, stopwords, lemmatize);
    if tokens[j] !in stopwords {
      var k :| 0 <= k < |kept| && kept[k] == j;
      assert KeepAndLemmatize(tokens, stopwords, lemmatize)[k] == lemmatize(tokens[j]);
    }
  }

  /**
    preprocess_text reads only the stopword set and the lemmatiser's values of
    the processor (and the tokeniser): two processors that agree on those give
    the same normal form of every text.
  */
  lemma PreprocessTextDeterministic(lib: Library, p: DocumentProcessor, q: DocumentProcessor, text: string)
    requires p.stopwordsSet == q.stopwordsSet
    requires forall w :: p.lemmatizer(w) == q.lemmatizer(w)
    ensures PreprocessText(lib, p, text) == PreprocessText(lib, q, text)
  {
    KeepAndLemmatizeCongruent(lib.wordTokenize(CleanText(text)), p.stopwordsSet, p.lemmatizer, q.lemmatizer);
  }

  /**
    process_pdf: extract, normalise, split. The splitter receives the kept
    lemmas of the cleaned extracted text, joined with single spaces.
  */
  function ProcessPdf(lib: Library, p: DocumentProcessor, content: seq<bv8>): (chunks: seq<string>)
    ensures var tokens := lib.wordTokenize(CleanText(lib.extractText(content)));
            chunks == lib.splitText(p.textSplitter, JoinWithSpaces(KeptLemmas(tokens, p.stopwordsSet, p.lemmatizer)))
  {
    lib.splitText(p.textSplitter, PreprocessText(lib, p, lib.extractText(content)))
  }

  /**
    The processor the service builds splits the normalised extracted text with
    chunk size 4000 and overlap 5.
  */
  lemma ProcessPdfPipeline(lib: Library, content: seq<bv8>)
    ensures var p := NewDocumentProcessor(lib);
            ProcessPdf(lib, p, content) ==
            lib.splitText(TextSplitter(4000, 5), PreprocessText(lib, p, lib.extractText(content)))
  {
  }

}
