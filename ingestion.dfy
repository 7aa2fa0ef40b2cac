/**
  The upload route (upload_document, POST /upload): the bytes go through
  process_pdf, the chunks are analysed, the document is saved, and the chunks
  are stored under the scope string "user_{user_id}_{document.id}". Any
  exception on the way becomes an HTTP 500.

  The analysis and title calls to the LLM, the file write and the database row
  are not modelled; of them only two facts matter here: analyze_document reads
  chunks[0], so it raises IndexError when there is no chunk, and the saved row's
  id is the documentId given to the route model.
*/
module Ingestion {
  import opened Wrappers
  import opened DocumentProcessing
  import opened VectorStorage

  /** Why the route answered 500. */
  datatype UploadError =
    | NoChunkToAnalyze             // IndexError on chunks[0] in analyze_document
    | StoreFailed(cause: StoreError)

  /**
    upload_document: on success the route answers with the document's id, and
    the collection is the old one plus chunk i of process_pdf under
    ChunkId(ScopeId(userId, documentId), i). An empty chunk list fails before
    anything is stored, and so does a chunk the embedding model cannot embed.
  */
  method UploadDocument(store: VectorStore, lib: Library, content: seq<bv8>,
                        userId: nat, documentId: nat)
    returns (chunks: seq<string>, outcome: Result<nat, UploadError>)
    requires store.Valid()
    requires forall i: nat :: ChunkId(ScopeId(userId, documentId), i) !in store.collection
    modifies store
    ensures store.Valid()
    ensures chunks == ProcessPdf(lib, NewDocumentProcessor(lib), content)
    ensures chunks == [] <==> outcome == Failure(NoChunkToAnalyze)
    ensures outcome.Success? <==> chunks != [] && EmbedAll(store.embedQuery, chunks).Some?
    ensures outcome.Success? ==>
              outcome.value == documentId &&
              store.collection == old(store.collection) +
                IndexEntries(ScopeId(userId, documentId), chunks, EmbedAll(store.embedQuery, chunks).value) &&
              |store.collection| == |old(store.collection)| + |chunks|
    ensures outcome.Failure? ==> store.collection == old(store.collection)
  {
    var processor := NewDocumentProcessor(lib);
    chunks := ProcessPdf(lib, processor, content);
    if chunks == [] {
      return chunks, Failure(NoChunkToAnalyze);
    }
    var scope := ScopeId(userId, documentId);
    var stored := store.StoreChunks(chunks, scope);
    if stored.Failure? {
      return chunks, Failure(StoreFailed(stored.error));
    }
    StoreOnlyAdds(old(store.collection), scope, chunks, EmbedAll(store.embedQuery, chunks).value);
    outcome := Success(documentId);
  }

}
