/**
  The vector store (VectorStore): a persistent collection of chunk entries, each
  an embedding and its document text under a string id.

  store_chunks embeds every chunk first and then adds chunk i under the id
  "{document_id}_chunk_{i}", one add per chunk, in chunk order.
  get_relevant_chunks embeds the question and asks the collection for the
  n_results nearest entries, over the whole collection.

  The embedding model (embed_query, which may fail) and the collection's
  nearest-neighbour ranking are given as constants of the store.
*/
module VectorStorage {
  import opened Wrappers
  import opened Text

  type Embedding = seq<real>

  /** One stored unit: its embedding and its document text. */
  datatype Entry = Entry(embedding: Embedding, document: string)

  /** The embedding model raised while embedding a text. */
  datatype StoreError = EmbeddingFailed

  const DefaultNResults: nat := 3

  /** f"{document_id}_chunk_{i}" */
  function ChunkId(documentId: string, i: nat): string
  {
    documentId + "_chunk_" + Decimal(i)
  }

  /** f"user_{user_id}_{document.id}": the document id the upload handler passes to store_chunks. */
  function ScopeId(userId: nat, documentId: nat): string
  {
    "user_" + Decimal(userId) + "_" + Decimal(documentId)
  }

  /** The ids of the first n chunks of a document, in chunk order, pairwise distinct. */
  function ChunkIds(documentId: string, n: nat): (ids: seq<string>)
    ensures |ids| == n
    ensures forall i :: 0 <= i < n ==> ids[i] == ChunkId(documentId, i)
    ensures forall k, l :: 0 <= k < l < n ==> ids[k] != ids[l]
  {
    assert forall k, l :: 0 <= k < l < n ==> ChunkId(documentId, k) != ChunkId(documentId, l) by {
      forall k, l | 0 <= k < l < n
        ensures ChunkId(documentId, k) != ChunkId(documentId, l)
      {
        if ChunkId(documentId, k) == ChunkId(documentId, l) {
          ChunkIdInjective(documentId, k, l);
        }
      }
    }
    seq(n, i requires 0 <= i < n => ChunkId(documentId, i))
  }

  lemma UnionThenUpdate(m: map<string, Entry>, e: map<string, Entry>, k: string, v: Entry)
    ensures (m + e)[k := v] == m + e[k := v]
  {
  }

  lemma ChunkIdsStep(documentId: string, n: nat)
    ensures ChunkIds(documentId, n + 1) == ChunkIds(documentId, n) + [ChunkId(documentId, n)]
  {
  }

  /** The chunk index can be read back from the id: the id is the prefix, "_chunk_" and the index. */
  lemma ChunkIdRoundTrip(documentId: string, i: nat)
    ensures var id := ChunkId(documentId, i);
            |id| > |documentId| + 7 &&
            id[..|documentId| + 7] == documentId + "_chunk_" &&
            (forall k :: |documentId| + 7 <= k < |id| ==> IsDigit(id[k])) &&
            ParseDecimal(id[|documentId| + 7..]) == i
  {
    var id := ChunkId(documentId, i);
    assert id[|documentId| + 7..] == Decimal(i);
    ParseDecimalOfDecimal(i);
  }

  /** Within one document the chunk ids are pairwise distinct. */
  lemma ChunkIdInjective(documentId: string, i: nat, j: nat)
    requires ChunkId(documentId, i) == ChunkId(documentId, j)
    ensures i == j
  {
    ChunkIdRoundTrip(documentId, i);
    ChunkIdRoundTrip(documentId, j);
  }

  /**
    The user and the document read back from a scope string: "user_", the
    user's digits, '_' and the document's digits.
  */
  lemma ScopeIdRoundTrip(userId: nat, documentId: nat)
    ensures |ScopeId(userId, documentId)| > 5 + |Decimal(userId)|
    ensures ScopeId(userId, documentId)[..5] == "user_"
    ensures ScopeId(userId, documentId)[5 + |Decimal(userId)|] == '_'
    ensures forall j :: 5 <= j < 5 + |Decimal(userId)| ==> IsDigit(ScopeId(userId, documentId)[j])
    ensures forall j :: 5 + |Decimal(userId)| < j < |ScopeId(userId, documentId)| ==>
              IsDigit(ScopeId(userId, documentId)[j])
    ensures ParseDecimal(ScopeId(userId, documentId)[5..5 + |Decimal(userId)|]) == userId
    ensures ParseDecimal(ScopeId(userId, documentId)[5 + |Decimal(userId)| + 1..]) == documentId
  {
    var a, b := Decimal(userId), Decimal(documentId);
    var id := ScopeId(userId, documentId);
    ScopeIdParts(a, b);
    forall j | 5 <= j < 5 + |a|
      ensures IsDigit(id[j])
    {
      assert id[j] == id[5..5 + |a|][j - 5];
    }
    forall j | 5 + |a| < j < |id|
      ensures IsDigit(id[j])
    {
      assert id[j] == id[5 + |a| + 1..][j - 5 - |a| - 1];
    }
    ParseDecimalOfDecimal(userId);
    ParseDecimalOfDecimal(documentId);
  }

  lemma ScopeIdParts(a: string, b: string)
    ensures var id := "user_" + a + "_" + b;
            |id| == 5 + |a| + 1 + |b| && id[..5] == "user_" && id[5 + |a|] == '_' &&
            id[5..5 + |a|] == a && id[5 + |a| + 1..] == b
  {
    var id := "user_" + a + "_" + b;
    assert id[5..5 + |a|] == a;
    assert id[5 + |a| + 1..] == b;
  }

  lemma DecimalHasNoUnderscore(n: nat)
    ensures '_' !in Decimal(n)
  {
    var r := Decimal(n);
    assert forall i :: 0 <= i < |r| ==> IsDigit(r[i]);
  }

  /** A scope string followed by anything fixes the user id and what follows it. */
  lemma ScopePrefixSplit(u: nat, d: nat, t: string, u': nat, d': nat, t': string)
    requires ScopeId(u, d) + t == ScopeId(u', d') + t'
    ensures u == u' && Decimal(d) + t == Decimal(d') + t'
  {
    var a, b, a', b' := Decimal(u), Decimal(d), Decimal(u'), Decimal(d');
    assert ScopeId(u, d) + t == "user_" + (a + ['_'] + (b + t));
    assert ScopeId(u', d') + t' == "user_" + (a' + ['_'] + (b' + t'));
    DecimalHasNoUnderscore(u);
    DecimalHasNoUnderscore(u');
    SplitAtFirstAfter("user_", a, b + t, a', b' + t', '_');
    DecimalInjective(u, u');
  }

  /** Distinct (user, document) pairs get distinct scope strings. */
  lemma ScopeIdInjective(u: nat, d: nat, u': nat, d': nat)
    requires ScopeId(u, d) == ScopeId(u', d')
    ensures u == u' && d == d'
  {
    assert ScopeId(u, d) + "" == ScopeId(u', d') + "";
    ScopePrefixSplit(u, d, "", u', d', "");
    assert Decimal(d) + "" == Decimal(d) && Decimal(d') + "" == Decimal(d');
    DecimalInjective(d, d');
  }

  /**
    The chunk ids of scoped documents never collide: the id fixes the user, the
    document and the chunk index.
  */
  lemma ScopedChunkIdInjective(u: nat, d: nat, i: nat, u': nat, d': nat, i': nat)
    requires ChunkId(ScopeId(u, d), i) == ChunkId(ScopeId(u', d'), i')
    ensures u == u' && d == d' && i == i'
  {
    var rest, rest' := "chunk_" + Decimal(i), "chunk_" + Decimal(i');
    assert ChunkId(ScopeId(u, d), i) == ScopeId(u, d) + (['_'] + rest);
    assert ChunkId(ScopeId(u', d'), i') == ScopeId(u', d') + (['_'] + rest');
    ScopePrefixSplit(u, d, ['_'] + rest, u', d', ['_'] + rest');
    DecimalHasNoUnderscore(d);
    DecimalHasNoUnderscore(d');
    assert Decimal(d) + (['_'] + rest) == Decimal(d) + ['_'] + rest;
    assert Decimal(d') + (['_'] + rest') == Decimal(d') + ['_'] + rest';
    SplitAtFirst(Decimal(d), rest, Decimal(d'), rest', '_');
    assert rest[6..] == Decimal(i) && rest'[6..] == Decimal(i');
    DecimalInjective(d, d');
    DecimalInjective(i, i');
  }

  /**
    The question endpoint hands on the bare str(document_id), which is never a
    scope string, and no chunk id under a bare id equals a scoped chunk id.
  */
  lemma BareIdMissesScopedEntries(bare: nat, u: nat, d: nat, i: nat, j: nat)
    ensures Decimal(bare) != ScopeId(u, d)
    ensures ChunkId(Decimal(bare), j) != ChunkId(ScopeId(u, d), i)
  {
    assert IsDigit(Decimal(bare)[0]);
    assert ChunkId(Decimal(bare), j)[0] == Decimal(bare)[0];
    assert ChunkId(ScopeId(u, d), i)[0] == 'u';
  }

  /** The entries store_chunks adds: chunk i and its embedding under ChunkId(documentId, i). */
  function IndexEntries(documentId: string, chunks: seq<string>, embeddings: seq<Embedding>): map<string, Entry>
    requires |embeddings| == |chunks|
    decreases |chunks|
  {
    if chunks == [] then map[]
    else
      var n := |chunks| - 1;
      IndexEntries(documentId, chunks[..n], embeddings[..n])[ChunkId(documentId, n) := Entry(embeddings[n], chunks[n])]
  }

  /**
    One entry per chunk: chunk i is stored under ChunkId(documentId, i) with its
    own embedding, there are no other keys, and there are exactly |chunks| entries.
  */
  lemma {:induction false} IndexEntriesContents(documentId: string, chunks: seq<string>, embeddings: seq<Embedding>)
    requires |embeddings| == |chunks|
    ensures var m := IndexEntries(documentId, chunks, embeddings);
            forall i :: 0 <= i < |chunks| ==>
              ChunkId(documentId, i) in m && m[ChunkId(documentId, i)] == Entry(embeddings[i], chunks[i])
    ensures forall id :: id in IndexEntries(documentId, chunks, embeddings) ==>
              exists i :: 0 <= i < |chunks| && id == ChunkId(documentId, i)
    ensures |IndexEntries(documentId, chunks, embeddings)| == |chunks|
    decreases |chunks|
  {
    if chunks != [] {
      var n := |chunks| - 1;
      var m := IndexEntries(documentId, chunks[..n], embeddings[..n]);
      IndexEntriesContents(documentId, chunks[..n], embeddings[..n]);
      var key := ChunkId(documentId, n);
      if key in m {
        var i :| 0 <= i < n && key == ChunkId(documentId, i);
        ChunkIdInjective(documentId, i, n);
      }
      forall i | 0 <= i < n
        ensures ChunkId(documentId, i) != key
      {
        if ChunkId(documentId, i) == key {
          ChunkIdInjective(documentId, i, n);
        }
      }
    }
  }

  /** One more chunk adds one entry, under an id not yet used by the earlier chunks. */
  lemma IndexEntriesStep(documentId: string, chunks: seq<string>, embeddings: seq<Embedding>, i: nat)
    requires |embeddings| == |chunks| && i < |chunks|
    ensures ChunkId(documentId, i) !in IndexEntries(documentId, chunks[..i], embeddings[..i])
    ensures IndexEntries(documentId, chunks[..i + 1], embeddings[..i + 1]) ==
            IndexEntries(documentId, chunks[..i], embeddings[..i])[ChunkId(documentId, i) := Entry(embeddings[i], chunks[i])]
  {
    IndexEntriesFreshKey(documentId, chunks[..i], embeddings[..i]);
    assert chunks[..i + 1][..i] == chunks[..i];
    assert embeddings[..i + 1][..i] == embeddings[..i];
  }

  lemma IndexEntriesFreshKey(documentId: string, chunks: seq<string>, embeddings: seq<Embedding>)
    requires |embeddings| == |chunks|
    ensures ChunkId(documentId, |chunks|) !in IndexEntries(documentId, chunks, embeddings)
  {
    var id := ChunkId(documentId, |chunks|);
    IndexEntriesContents(documentId, chunks, embeddings);
    if id in IndexEntries(documentId, chunks, embeddings) {
      var j :| 0 <= j < |chunks| && id == ChunkId(documentId, j);
      ChunkIdInjective(documentId, |chunks|, j);
    }
  }

  /**
    Adding a document's entries to a collection holding none of its ids keeps
    every old entry as it was and grows the collection by exactly |chunks|.
  */
  lemma StoreOnlyAdds(collection: map<string, Entry>, documentId: string,
                      chunks: seq<string>, embeddings: seq<Embedding>)
    requires |embeddings| == |chunks|
    requires forall i :: 0 <= i < |chunks| ==> ChunkId(documentId, i) !in collection
    ensures var added := collection + IndexEntries(documentId, chunks, embeddings);
            (forall id :: id in collection ==> id in added && added[id] == collection[id]) &&
            |added| == |collection| + |chunks|
  {
    var entries := IndexEntries(documentId, chunks, embeddings);
    IndexEntriesContents(documentId, chunks, embeddings);
    assert collection.Keys !! entries.Keys by {
      forall id | id in entries
        ensures id !in collection
      {
        var i :| 0 <= i < |chunks| && id == ChunkId(documentId, i);
      }
    }
    assert (collection + entries).Keys == collection.Keys + entries.Keys;
  }

  /** Two different uploads never share an entry id, so storing one never touches the other's entries. */
  lemma ScopedIndexesDisjoint(u: nat, d: nat, chunks: seq<string>, embeddings: seq<Embedding>,
                              u': nat, d': nat, chunks': seq<string>, embeddings': seq<Embedding>)
    requires |embeddings| == |chunks| && |embeddings'| == |chunks'|
    requires u != u' || d != d'
    ensures IndexEntries(ScopeId(u, d), chunks, embeddings).Keys !!
            IndexEntries(ScopeId(u', d'), chunks', embeddings').Keys
  {
    var m := IndexEntries(ScopeId(u, d), chunks, embeddings);
    var m' := IndexEntries(ScopeId(u', d'), chunks', embeddings');
    IndexEntriesContents(ScopeId(u, d), chunks, embeddings);
    IndexEntriesContents(ScopeId(u', d'), chunks', embeddings');
    forall id | id in m && id in m'
      ensures false
    {
      var i :| 0 <= i < |chunks| && id == ChunkId(ScopeId(u, d), i);
      var i' :| 0 <= i' < |chunks'| && id == ChunkId(ScopeId(u', d'), i');
      ScopedChunkIdInjective(u, d, i, u', d', i');
    }
  }

  /**
    [embed_query(chunk) for chunk in chunks]: the embeddings in chunk order, or
    None when the model fails on some chunk.
  */
  function EmbedAll(embed: string -> Option<Embedding>, chunks: seq<string>): (r: Option<seq<Embedding>>)
    ensures r.Some? <==> forall i :: 0 <= i < |chunks| ==> embed(chunks[i]).Some?
    ensures r.Some? ==> (|r.value| == |chunks| &&
                         forall i :: 0 <= i < |chunks| ==> embed(chunks[i]) == Some(r.value[i]))
    decreases |chunks|
  {
    if chunks == [] then Some([])
    else
      var n := |chunks| - 1;
      match EmbedAll(embed, chunks[..n])
      case None => None
      case Some(init) =>
        match embed(chunks[n])
        case None => None
        case Some(e) => Some(init + [e])
  }

  /** The texts stored in a collection. */
  function StoredTexts(collection: map<string, Entry>): set<string>
  {
    set id | id in collection :: collection[id].document
  }

  /** The documents of the listed ids, in order, skipping any id the collection lacks. */
  function Documents(collection: map<string, Entry>, ids: seq<string>): (docs: seq<string>)
    ensures |docs| <= |ids|
    ensures forall k :: 0 <= k < |docs| ==> docs[k] in StoredTexts(collection)
    ensures (forall k :: 0 <= k < |ids| ==> ids[k] in collection) ==>
              |docs| == |ids| && forall k :: 0 <= k < |ids| ==> docs[k] == collection[ids[k]].document
    decreases |ids|
  {
    if ids == [] then []
    else
      var n := |ids| - 1;
      Documents(collection, ids[..n]) + (if ids[n] in collection then [collection[ids[n]].document] else [])
  }

  /**
    collection.query(query_embeddings=[e], n_results=n)['documents'][0]: the
    documents of the first n ids of the collection's ranking for e.
  */
  function QueryDocuments(collection: map<string, Entry>, ranking: seq<string>, nResults: nat): seq<string>
  {
    Documents(collection, ranking[..if nResults < |ranking| then nResults else |ranking|])
  }

  /**
    The query returns at most n_results texts, each the document of a stored
    entry, and applies no filter: any stored entry the ranking puts first is
    returned first, whichever document it was stored for.
  */
  lemma QueryIsUnscoped(collection: map<string, Entry>, ranking: seq<string>, nResults: nat)
    ensures |QueryDocuments(collection, ranking, nResults)| <= nResults
    ensures forall k :: 0 <= k < |QueryDocuments(collection, ranking, nResults)| ==>
              QueryDocuments(collection, ranking, nResults)[k] in StoredTexts(collection)
    ensures nResults >= 1 && |ranking| >= 1 && ranking[0] in collection ==>
              |QueryDocuments(collection, ranking, nResults)| >= 1 &&
              QueryDocuments(collection, ranking, nResults)[0] == collection[ranking[0]].document
  {
    var m := if nResults < |ranking| then nResults else |ranking|;
    if nResults >= 1 && |ranking| >= 1 && ranking[0] in collection {
      DocumentsOfPrefix(collection, ranking[..m], 1);
      assert ranking[..m][..1] == [ranking[0]];
    }
  }

  /** Documents of a longer id list extend the documents of its prefix. */
  lemma {:induction false} DocumentsOfPrefix(collection: map<string, Entry>, ids: seq<string>, j: nat)
    requires j <= |ids|
    ensures Documents(collection, ids[..j]) <= Documents(collection, ids)
    decreases |ids|
  {
    if j < |ids| {
      var n := |ids| - 1;
      assert ids[..n][..j] == ids[..j];
      DocumentsOfPrefix(collection, ids[..n], j);
    } else {
      assert ids[..j] == ids;
    }
  }

  class VectorStore {
    /** HuggingFaceEmbeddings(model_name="all-mpnet-base-v2").embed_query; None when it raises. */
    const embedQuery: string -> Option<Embedding>
    /** The collection's cosine nearest-neighbour order of its ids for a query embedding. */
    const nearest: (Embedding, map<string, Entry>) -> seq<string>
    /** The "document_chunks" collection, by entry id. */
    var collection: map<string, Entry>
    /** The ids this store has added, in the order of the add calls (proof bookkeeping only). */
    ghost var addedIds: seq<string>

    ghost predicate Valid()
      reads this
    {
      && (forall k, l :: 0 <= k < l < |addedIds| ==> addedIds[k] != addedIds[l])
      && (forall k :: 0 <= k < |addedIds| ==> addedIds[k] in collection)
    }

    /**
      VectorStore(): opens the persistent "document_chunks" collection, created
      empty on first use or found with what earlier runs stored.
    */
    constructor (embedQuery: string -> Option<Embedding>,
                 nearest: (Embedding, map<string, Entry>) -> seq<string>,
                 persisted: map<string, Entry>)
      ensures Valid()
      ensures this.embedQuery == embedQuery && this.nearest == nearest
      ensures collection == persisted && addedIds == []
    {
      this.embedQuery := embedQuery;
      this.nearest := nearest;
      collection := persisted;
      addedIds := [];
    }

    /**
      store_chunks: all embeddings are computed before the first add, so a
      failing embedding adds nothing; otherwise chunk i is added under
      ChunkId(documentId, i), in chunk order, and nothing else changes.
    */
    method StoreChunks(chunks: seq<string>, documentId: string) returns (outcome: Result<(), StoreError>)
      requires Valid()
      requires forall i :: 0 <= i < |chunks| ==> ChunkId(documentId, i) !in collection
      modifies this
      ensures Valid()
      ensures outcome.Success? <==> EmbedAll(embedQuery, chunks).Some?
      ensures outcome.Success? ==>
                collection == old(collection) + IndexEntries(documentId, chunks, EmbedAll(embedQuery, chunks).value) &&
                addedIds == old(addedIds) + ChunkIds(documentId, |chunks|)
      ensures outcome.Failure? ==> collection == old(collection) && addedIds == old(addedIds)
    {
      var embedded := EmbedChunks(chunks);
      if embedded.None? {
        return Failure(EmbeddingFailed);
      }
      var embeddings := embedded.value;

      var i := 0;
      while i < |chunks|
        invariant 0 <= i <= |chunks|
        invariant collection == old(collection) + IndexEntries(documentId, chunks[..i], embeddings[..i])
        invariant addedIds == old(addedIds) + ChunkIds(documentId, i)
        invariant Valid()
      {
        var id := ChunkId(documentId, i);
        IndexEntriesStep(documentId, chunks, embeddings, i);
        ChunkIdsStep(documentId, i);
        assert id !in collection;
        UnionThenUpdate(old(collection), IndexEntries(documentId, chunks[..i], embeddings[..i]),
                        id, Entry(embeddings[i], chunks[i]));
        collection := collection[id := Entry(embeddings[i], chunks[i])];
        addedIds := addedIds + [id];
        i := i + 1;
      }
      assert chunks[..i] == chunks && embeddings[..i] == embeddings;
      outcome := Success(());
    }

    /**
      The list comprehension [embed_query(chunk) for chunk in chunks]: the
      chunks' embeddings in order, or None as soon as one embedding fails.
    */
    method EmbedChunks(chunks: seq<string>) returns (r: Option<seq<Embedding>>)
      ensures r == EmbedAll(embedQuery, chunks)
    {
      var embeddings: seq<Embedding> := [];
      var k := 0;
      while k < |chunks|
        invariant 0 <= k <= |chunks|
        invariant |embeddings| == k
        invariant forall j :: 0 <= j < k ==> embedQuery(chunks[j]) == Some(embeddings[j])
      {
        var e := embedQuery(chunks[k]);
        if e.None? {
          assert embedQuery(chunks[k]).None?;
          return None;
        }
        embeddings := embeddings + [e.value];
        k := k + 1;
      }
      var all := EmbedAll(embedQuery, chunks);
      assert all.Some?;
      assert forall j :: 0 <= j < |chunks| ==> all.value[j] == embeddings[j];
      assert all.value == embeddings;
      r := Some(embeddings);
    }

    /**
      get_relevant_chunks: embeds the question and returns the documents of the
      first n_results ids of the collection's ranking; no document filter.
    */
    method GetRelevantChunks(question: string, nResults: nat := DefaultNResults)
      returns (r: Result<seq<string>, StoreError>)
      ensures r.Success? <==> embedQuery(question).Some?
      ensures r.Success? ==>
                r.value == QueryDocuments(collection, nearest(embedQuery(question).value, collection), nResults)
    {
      var e := embedQuery(question);
      if e.None? {
        return Failure(EmbeddingFailed);
      }
      r := Success(QueryDocuments(collection, nearest(e.value, collection), nResults));
    }
  }

}
