# Document question-answering backend: upload validation, text normalisation, chunk indexing

This Dafny project models the three pieces of logic the document question-answering
backend owns itself. The rest of the backend is glue around web, database, NLP,
embedding and LLM libraries.

- **Upload validator** (`validate_file`, module `Validators`). The extension is `"."`
  followed by the lowered text after the last `.` of the file name. It must be one of
  `.pdf`, `.docx`, `.txt`. The size must be at most 10 MiB (10485760 bytes). The extension
  is checked first, and both rejections are HTTP 400. The file's `seek`/`tell` calls
  become a size and a position: the model records the position the file is left at.
- **Text normaliser and ingestion composition** (`preprocess_text`, `process_pdf`, module
  `DocumentProcessing`). The text is lowered, stripped of everything that is neither a
  word character nor whitespace, and tokenised. Tokens are kept when the raw token is not
  a stopword, each survivor is lemmatised, and the lemmas are joined with single spaces.
  `process_pdf` is extract → normalise → split with a 4000/5 splitter. PDF extraction,
  tokenising, lemmatising, the stopword list and splitting are library calls. They are
  the fields of a `Library` value, so every result holds for any such library.
- **Chunk indexing** (`VectorStore`, module `VectorStorage`). The class holds the
  collection as a `map` from entry id to (embedding, document text), plus the ids it has
  added in add order. `StoreChunks` first embeds every chunk (`EmbedChunks`). It then
  adds chunk `i` under `"{document_id}_chunk_{i}"`, one add per chunk. A failed embedding
  adds nothing. `GetRelevantChunks` embeds the question and returns the documents of the
  first `n_results` (default 3) ids of the collection's ranking. It applies no document
  filter. The embedding model and the ranking are constants of the store.
- **Scope strings** (`ScopeId`). The upload handler builds `"user_{user_id}_{document.id}"`
  and passes it to `store_chunks` as the document id. The project proves that this
  string, and every chunk id built on it, determines the user, the document and the
  chunk index.
- **Upload route** (`upload_document`, module `Ingestion`). The route runs `process_pdf`
  with the module-level processor. It then calls `analyze_document`, which reads
  `chunks[0]` and so raises `IndexError` on an empty chunk list. Next it saves the
  document, and finally it stores the chunks under the document's scope string. Any
  exception becomes an HTTP 500. The document's database id is an input of the model.
- `DocumentService.process_and_store_document` (app/services/document_service.py:22-35)
  is not modelled. It is never called. It also calls `save_document` without the
  required `title` argument (line 24), so it always raises `TypeError` before it
  processes anything.

Modules: `Wrappers` (Option/Result), `Text` (str.lower, `\w`/`\s`, decimal rendering of
ints), `Validators`, `DocumentProcessing`, `VectorStorage`, `Ingestion`.

### What the vector index does not do

- No entry is ever deleted, and no id is ever replaced: `store_chunks` only adds.
- Entries carry no metadata naming their user or document.
- `get_relevant_chunks` takes no document id. It queries the whole collection
  (`QueryIsUnscoped`).
- `LLMService.answer_question` (app/services/llm_service.py:75-78) calls
  `get_relevant_chunks(question, document_id=...)`, but that method has no such
  parameter (app/services/vector_store.py:34). Scoped retrieval does not exist in the
  code, so the model has none.
- The question endpoint passes the bare `str(document_id)` (app/main.py:159). Ingestion
  uses `"user_{user_id}_{document.id}"` (app/main.py:57, app/services/document_service.py:32).
  `BareIdMissesScopedEntries` proves that a bare id never equals a scope string. It also
  proves that no chunk id under a bare id equals a chunk id under a scope string.

## Model

| member | source | states |
|---|---|---|
| `Validators.LastSegment` | app/utils/validators.py:9 | `split('.')[-1]`: the text after the last '.', holds no '.', and is the whole name when the name has no '.' |
| `Validators.FileExtension` | app/utils/validators.py:9 | the extension starts with '.', has no other '.', and has no upper-case letter |
| `Validators.ValidateFile` | app/utils/validators.py:3-27 | accepted exactly when the extension is in {.pdf,.docx,.txt} and size <= 10485760; "type not allowed" (400) exactly when the extension is refused, so it wins over size; "too large" (400) exactly when the type is allowed and size > 10485760; position reset to 0 once the type check passed, else unchanged |
| `Validators.LastSegmentAfterLastDot` | app/utils/validators.py:9 | for any name `stem + "." + tail` where tail holds no '.', the last segment is exactly tail |
| `Validators.ExtensionAfterLastDot` | app/utils/validators.py:9 | the extension of `stem + "." + tail` is "." + lower(tail) |
| `Validators.LowerLastSegment` | app/utils/validators.py:9 | lowering and taking the last segment commute |
| `Validators.ExtensionIgnoresCase` | app/utils/validators.py:9-10 | two names that lower to the same text have the same extension |
| `Validators.UpperCaseNameAccepted` | app/utils/validators.py:9-10 | "REPORT.PDF" has extension ".pdf" and is accepted at any size within the bound |
| `Validators.InnerPdfSegmentIgnored` | app/utils/validators.py:9-15 | "a.pdf.exe" has extension ".exe" and is refused as a file type |
| `Validators.FinalPdfSegmentAccepted` | app/utils/validators.py:9-10 | "a.exe.pdf" has extension ".pdf" and is accepted |
| `Validators.TrailingDotRefused` | app/utils/validators.py:9-15 | a name ending in '.' has extension "." and is refused |
| `Validators.NameWithoutDotIsItsOwnExtension` | app/utils/validators.py:9-10 | a file named "pdf" has extension ".pdf" and passes |
| `Validators.SizeBoundary` | app/utils/validators.py:22-27 | the bound is 10485760 and inclusive: that size passes, one byte more is refused as too large |
| `Validators.ExtensionCheckedFirst` | app/utils/validators.py:10-27 | an oversized ".exe" is reported for its type, and the position is left as it was |
| `Text.LowerShape` | app/services/document_processor.py:32 | lowering leaves no upper-case letter and keeps each '.' where it was |
| `Text.Decimal` | app/services/vector_store.py:31 | the f-string rendering of an index is a non-empty string of digits, one digit exactly for 0..9 |
| `Text.ParseDecimalOfDecimal` | app/services/vector_store.py:31 | reading the rendered digits back gives the index (round trip) |
| `Text.DecimalInjective` | app/services/vector_store.py:31 | distinct indexes render to distinct strings |
| `DocumentProcessing.NewDocumentProcessor` | app/services/document_processor.py:15-22 | the processor holds the English stopwords, the WordNet lemmatiser and a splitter with chunk size 4000, overlap 5 |
| `DocumentProcessing.RemoveSpecialCharacters` | app/services/document_processor.py:34 | a single character is kept when it is \w or \s and deleted otherwise; every remaining character is \w or \s; text made only of such characters is unchanged |
| `DocumentProcessing.RemoveSpecialCharactersAppend` | app/services/document_processor.py:34 | the deletion works character by character and keeps order: it distributes over concatenation |
| `DocumentProcessing.CleanText` | app/services/document_processor.py:32-34 | after lowering then stripping, no upper-case letter is left and every character is a word character or whitespace |
| `DocumentProcessing.CleanTextIdempotent` | app/services/document_processor.py:32-34 | cleaning cleaned text changes nothing |
| `DocumentProcessing.NoUpperSurvives` | app/services/document_processor.py:32-34 | stripping lowered text cannot bring back an upper-case letter |
| `DocumentProcessing.KeptPositions` | app/services/document_processor.py:38-40 | the kept positions increase strictly, each names a non-stopword token, and every non-stopword token's position is among them |
| `DocumentProcessing.KeepAndLemmatizeAt` | app/services/document_processor.py:38-40 | the comprehension emits one word per kept position, in order, and word k is the lemma of the k-th non-stopword token |
| `DocumentProcessing.KeepAndLemmatizeIsKeptLemmas` | app/services/document_processor.py:38-40 | the comprehension's output is the list of lemmas of the non-stopword tokens in token order, each the lemma of some token |
| `DocumentProcessing.StopwordTestPrecedesLemmatizing` | app/services/document_processor.py:38-40 | a non-stopword token contributes its lemma even when the lemma is a stopword; a stopword token is never kept |
| `DocumentProcessing.KeepAndLemmatizeCongruent` | app/services/document_processor.py:38-40 | the comprehension depends only on the stopword set and on the lemmatiser's values |
| `DocumentProcessing.JoinWithSpaces` | app/services/document_processor.py:41 | "" for no words; otherwise the text starts with the first word and ends with the last, with no separator before or after |
| `DocumentProcessing.SplitJoinRoundTrip` | app/services/document_processor.py:41 | splitting the joined text on ' ' gives back the words, when no word holds a space |
| `DocumentProcessing.JoinSplitRoundTrip` | app/services/document_processor.py:41 | joining the pieces of a split on ' ' gives back the text |
| `DocumentProcessing.PreprocessTextWords` | app/services/document_processor.py:30-41 | the normal form, split on ' ', is the lemmas of the non-stopword tokens of the lowered and stripped text, in token order; "" when no token survives |
| `DocumentProcessing.PreprocessTextDeterministic` | app/services/document_processor.py:15-22 | two processors with the same stopword set and lemmatiser give the same normal form of every text |
| `DocumentProcessing.PreprocessText` | app/services/document_processor.py:30-41 | the normal form is the lemmas of the non-stopword tokens of the cleaned text, taken at their increasing positions, joined with single spaces |
| `DocumentProcessing.ProcessPdf` | app/services/document_processor.py:24-28 | the chunks are the splitter's output on the kept lemmas of the cleaned extracted text, joined with single spaces |
| `DocumentProcessing.ProcessPdfPipeline` | app/services/document_processor.py:19-28 | for the processor the service builds, process_pdf is split(4000, 5) of the normalised extracted text |
| `VectorStorage.ChunkIds` | app/services/vector_store.py:27-31 | the ids one store_chunks call adds, in add order, are pairwise distinct |
| `VectorStorage.ChunkIdRoundTrip` | app/services/vector_store.py:31 | `ChunkId`: a chunk id is the document id, "_chunk_" and the digits of the index, and the index reads back from it |
| `VectorStorage.ChunkIdInjective` | app/services/vector_store.py:31 | the ids of one store_chunks call are pairwise distinct |
| `VectorStorage.ScopeIdRoundTrip` | app/main.py:57 | `ScopeId`: a scope string is "user_", the user's digits, '_' and the document's digits, and both numbers read back from it |
| `VectorStorage.ScopeIdInjective` | app/main.py:57 | distinct (user, document) pairs get distinct scope strings |
| `VectorStorage.ScopedChunkIdInjective` | app/main.py:57-58 | a chunk id under a scope string determines the user, the document and the chunk index |
| `VectorStorage.BareIdMissesScopedEntries` | app/main.py:159 | the bare document id is never a scope string, and no chunk id under it equals a chunk id under a scope string |
| `VectorStorage.IndexEntriesContents` | app/services/vector_store.py:27-32 | the added entries are exactly one per chunk: chunk i with its embedding under id i, no other keys, and |chunks| entries |
| `VectorStorage.IndexEntriesStep` | app/services/vector_store.py:27-32 | each add in the loop uses an id none of the earlier chunks used |
| `VectorStorage.StoreOnlyAdds` | app/services/vector_store.py:24-32 | on a collection holding none of the new ids, every old entry stays as it was and the size grows by exactly |chunks| |
| `VectorStorage.ScopedIndexesDisjoint` | app/main.py:57-58 | the entries stored for two different uploads have disjoint ids |
| `VectorStorage.EmbedAll` | app/services/vector_store.py:25 | the embeddings exist exactly when every chunk embeds, and then embedding i belongs to chunk i |
| `VectorStorage.Documents` | app/services/vector_store.py:40 | at most one text per id, each a stored document; when all ids are stored, text k belongs to id k |
| `VectorStorage.QueryIsUnscoped` | app/services/vector_store.py:34-40 | the query returns at most n_results stored texts, and the top-ranked stored entry comes first, whatever document it belongs to |
| `VectorStorage.VectorStore.constructor` | app/services/vector_store.py:6-20 | the store opens the persisted collection as it is, with nothing added yet |
| `VectorStorage.VectorStore.EmbedChunks` | app/services/vector_store.py:25 | the loop computes the embedding list, or fails exactly when some chunk fails to embed |
| `VectorStorage.VectorStore.StoreChunks` | app/services/vector_store.py:24-32 | succeeds exactly when every chunk embeds. On success the collection is the old one plus chunk i under id i, and the add log grows by the ids in chunk order. On failure nothing changes |
| `VectorStorage.VectorStore.GetRelevantChunks` | app/services/vector_store.py:34-40 | fails exactly when the question cannot be embedded; otherwise returns the unfiltered query over the whole collection |
| `Ingestion.UploadDocument` | app/main.py:47-58 | the chunks are process_pdf of the bytes. An empty chunk list fails before anything is stored. Otherwise the route succeeds exactly when every chunk embeds, and answers with the document id. The collection becomes the old one plus chunk i under ChunkId(ScopeId(user, document), i), growing by exactly the number of chunks. On failure the collection is unchanged |

## Left out

- Text.Lower: models `str.lower()` on ASCII letters only. Python lowers all of Unicode.
  No non-ASCII character lowers to a letter of `pdf`, `docx` or `txt`, so the
  extension verdicts agree.
- DocumentProcessing.RemoveSpecialCharacters: `\w` and `\s` are their ASCII parts.
  Python's classes also hold non-ASCII letters, digits and spaces.
- VectorStorage.VectorStore.StoreChunks: requires that no id it adds is already in the
  collection. chromadb's `add` on an existing id is not modelled.
- VectorStorage.VectorStore.GetRelevantChunks: the cosine ranking is a given function of
  the query embedding and the collection. If n_results exceeds the collection size, the
  model returns the ranked entries it has.
- Ingestion.UploadDocument: the LLM analysis and title (`analyze_document`,
  `generate_title`), the file write and the database row of `save_document` are not
  modelled. Their failures, which also end in a 500 before anything is stored, are not
  modelled either. The database id is a parameter. The route opens a new `VectorStore`
  through `DocumentService(db)` on each request; the model passes that store in.
- Library algorithms: PDF extraction, `word_tokenize`, the WordNet lemmatiser, the English
  stopword list and the recursive character splitter are parameters. No chunk-length or
  overlap guarantee is claimed.
- Failures inside PDF extraction and the libraries: the model treats them as total
  functions. Only embedding failure is modelled, because store_chunks orders it before
  the first add.
- The `detail` message strings of the HTTP exceptions. `validate_file` on a missing
  filename (`None`) is not modelled.
- HTTP routes, CORS, rate limiting, chat history and document queries (app/main.py).
  File saving and database commits (app/services/document_service.py).
  Authentication, JWT and bcrypt (app/auth). ORM models and settings (app/models,
  app/config.py). These are web, persistence and crypto plumbing.
- app/services/llm_service.py: every operation is a call to a remote LLM.
- Persistence of the collection on disk, and concurrent requests against the shared
  collection.
- Embeddings are sequences of reals, and no arithmetic is done on them.
