/**
 * The vector-store manager: named collections of embedded chunks, batch ingestion
 * with id and metadata alignment, and reshaping of a top-k query response.
 *
 * The persistent client is an in-memory map from collection name to collection, and
 * a collection is a map from record id to record. The nearest-neighbour index is a
 * function the caller passes in: its raw response is taken as given, and what this
 * module specifies is how that response is turned into the returned hit list.
 */
module VectorStoreManager {
  import opened Wrappers
  import Strings

  type Id = string
  /** Embeddings are opaque: nothing here computes with them. */
  type Embedding = seq<real>

  /** A scalar metadata value. */
  datatype MetaValue = Str(s: string) | Int(i: int) | Float(f: real) | Bool(b: bool)
  type Metadata = map<string, MetaValue>

  datatype Record = Record(embedding: Embedding, document: string, metadata: Metadata)

  /** A collection maps each id to its record, so ids are unique within it. */
  type Collection = map<Id, Record>
  type Store = map<string, Collection>

  /** The empty metadata mapping `{}`. */
  const NoMetadata: Metadata := map[]

  // ---------------------------------------------------------------------------
  // Collection lifecycle
  // ---------------------------------------------------------------------------

  /** The store after get-or-create: an existing collection is left as it is, an
      absent one becomes present and empty, and no other collection changes. */
  function WithCollection(store: Store, name: string): (r: Store)
    ensures name in r
    ensures name in store ==> r == store
    ensures name !in store ==> r[name] == map[]
    ensures r.Keys == store.Keys + {name}
    ensures forall other :: other in store && other != name ==> r[other] == store[other]
  {
    if name in store then store else store[name := map[]]
  }

  /** Get-or-create is idempotent: a second call changes nothing. */
  lemma WithCollectionIdempotent(store: Store, name: string)
    ensures WithCollection(WithCollection(store, name), name) == WithCollection(store, name)
  {
  }

  // ---------------------------------------------------------------------------
  // Ingestion: validation, metadata alignment, fresh ids, upsert
  // ---------------------------------------------------------------------------

  /** A batch is accepted only when it has chunks and embeddings in equal numbers. */
  predicate ValidBatch(chunks: seq<string>, embeddings: seq<Embedding>) {
    chunks != [] && embeddings != [] && |chunks| == |embeddings|
  }

  /** `n` empty metadata mappings. */
  function NoMetadatas(n: nat): (r: seq<Metadata>)
    ensures |r| == n
    ensures forall i :: 0 <= i < n ==> r[i] == NoMetadata
  {
    seq(n, _ => NoMetadata)
  }

  /** The metadata list the batch is stored with: `{}` for every chunk when none is
      given, the given list when it has one entry per chunk, otherwise the given
      list padded with `{}` or cut down to the number of chunks. */
  function AlignMetadatas(metadatas: Option<seq<Metadata>>, n: nat): (r: seq<Metadata>)
    ensures |r| == n
    ensures forall i :: 0 <= i < n ==>
      r[i] == (if metadatas.Some? && i < |metadatas.value| then metadatas.value[i] else NoMetadata)
  {
    if metadatas.None? then NoMetadatas(n)
    else if |metadatas.value| == n then metadatas.value
    else if |metadatas.value| < n then metadatas.value + NoMetadatas(n - |metadatas.value|)
    else metadatas.value[..n]
  }

  /** Pads a metadata list with `{}` up to `n` entries, then keeps its first `n`. */
  method PadMetadatas(metadatas: seq<Metadata>, n: nat) returns (padded: seq<Metadata>)
    ensures |padded| == n
    ensures forall i :: 0 <= i < n ==> padded[i] == (if i < |metadatas| then metadatas[i] else NoMetadata)
  {
    padded := metadatas;
    while |padded| < n
      invariant |metadatas| <= |padded|
      invariant |padded| <= n || padded == metadatas
      invariant forall i :: 0 <= i < |padded| ==> padded[i] == (if i < |metadatas| then metadatas[i] else NoMetadata)
      decreases n - |padded|
    {
      padded := padded + [NoMetadata];
    }
    padded := padded[..n];
  }

  /** No id occurs twice. */
  predicate Distinct(ids: seq<Id>) {
    forall i, j :: 0 <= i < j < |ids| ==> ids[i] != ids[j]
  }

  /** The ids a caller supplied, if any. */
  function Supplied(docIds: Option<seq<Id>>): (r: set<Id>)
    ensures docIds.Some? ==> forall i :: 0 <= i < |docIds.value| ==> docIds.value[i] in r
  {
    if docIds.Some? then set x | x in docIds.value else {}
  }

  /** The length of the longest name in a finite set. */
  method LongestLength(names: set<Id>) returns (m: nat)
    ensures forall x :: x in names ==> |x| <= m
  {
    m := 0;
    var rest := names;
    while rest != {}
      invariant rest <= names
      invariant forall x :: x in names && x !in rest ==> |x| <= m
      decreases |rest|
    {
      var x :| x in rest;
      if |x| > m {
        m := |x|;
      }
      rest := rest - {x};
    }
  }

  /** A name of `len` characters. */
  function Filler(len: nat): (r: Id)
    ensures |r| == len
  {
    seq(len, _ => 'u')
  }

  /** The fresh-id supply that stands in for `uuid4`: `n` distinct ids, none of which
      is in `avoid`. Each id is longer than every name to avoid. */
  method FreshIds(n: nat, avoid: set<Id>) returns (ids: seq<Id>)
    ensures |ids| == n
    ensures Distinct(ids)
    ensures forall i :: 0 <= i < n ==> ids[i] !in avoid
  {
    var m := LongestLength(avoid);
    ids := [];
    for k := 0 to n
      invariant |ids| == k
      invariant forall i :: 0 <= i < k ==> |ids[i]| == m + 1 + i
    {
      ids := ids + [Filler(m + 1 + k)];
    }
  }

  /** One record per chunk, from the chunk's embedding, text and metadata. */
  function Records(embeddings: seq<Embedding>, chunks: seq<string>, metadatas: seq<Metadata>): (r: seq<Record>)
    requires |embeddings| == |chunks| == |metadatas|
    ensures |r| == |chunks|
    ensures forall i :: 0 <= i < |r| ==> r[i] == Record(embeddings[i], chunks[i], metadatas[i])
  {
    seq(|chunks|, i requires 0 <= i < |chunks| => Record(embeddings[i], chunks[i], metadatas[i]))
  }

  /** Writes the records into the collection under their ids, in batch order, so a
      later write to an id replaces an earlier one (upsert). */
  function Upsert(c: Collection, ids: seq<Id>, records: seq<Record>): Collection
    requires |ids| == |records|
    decreases |ids|
  {
    if ids == [] then c
    else Upsert(c, ids[..|ids| - 1], records[..|ids| - 1])[ids[|ids| - 1] := records[|ids| - 1]]
  }

  /** The ids present after an upsert are the old ones and the batch's. */
  lemma {:induction false} UpsertKeys(c: Collection, ids: seq<Id>, records: seq<Record>)
    requires |ids| == |records|
    ensures Upsert(c, ids, records).Keys == c.Keys + set x | x in ids
    decreases |ids|
  {
    if ids != [] {
      var n := |ids| - 1;
      UpsertKeys(c, ids[..n], records[..n]);
      assert ids == ids[..n] + [ids[n]];
    }
  }

  /** A record the batch does not overwrite later is stored under its id. */
  lemma {:induction false} UpsertLastWins(c: Collection, ids: seq<Id>, records: seq<Record>, i: nat)
    requires |ids| == |records|
    requires i < |ids|
    requires forall j :: i < j < |ids| ==> ids[j] != ids[i]
    ensures ids[i] in Upsert(c, ids, records)
    ensures Upsert(c, ids, records)[ids[i]] == records[i]
    decreases |ids|
  {
    var n := |ids| - 1;
    if i < n {
      UpsertLastWins(c, ids[..n], records[..n], i);
    }
  }

  /** An id outside the batch keeps its old record, or stays absent. */
  lemma {:induction false} UpsertElsewhere(c: Collection, ids: seq<Id>, records: seq<Record>, id: Id)
    requires |ids| == |records|
    requires forall i :: 0 <= i < |ids| ==> ids[i] != id
    ensures id in Upsert(c, ids, records) <==> id in c
    ensures id in c ==> Upsert(c, ids, records)[id] == c[id]
    decreases |ids|
  {
    if ids != [] {
      var n := |ids| - 1;
      UpsertElsewhere(c, ids[..n], records[..n], id);
    }
  }

  /** A batch of distinct ids that are all new grows the collection by its size. */
  lemma {:induction false} UpsertFreshCount(c: Collection, ids: seq<Id>, records: seq<Record>)
    requires |ids| == |records|
    requires Distinct(ids)
    requires forall i :: 0 <= i < |ids| ==> ids[i] !in c
    ensures |Upsert(c, ids, records)| == |c| + |ids|
    decreases |ids|
  {
    if ids != [] {
      var n := |ids| - 1;
      UpsertFreshCount(c, ids[..n], records[..n]);
      UpsertElsewhere(c, ids[..n], records[..n], ids[n]);
    }
  }

  // ---------------------------------------------------------------------------
  // Query: reshaping the index's raw response
  // ---------------------------------------------------------------------------

  /** The raw response of the index to one query embedding. Each column holds one
      row per query embedding; a column may be missing altogether. */
  datatype RawResult = RawResult(
    ids: Option<seq<seq<Id>>>,
    documents: Option<seq<seq<Option<string>>>>,
    metadatas: Option<seq<seq<Metadata>>>,
    distances: Option<seq<seq<real>>>)

  /** One returned hit: the document, its metadata and its distance, if known. */
  datatype Hit = Hit(document: string, metadata: Metadata, distance: Option<real>)

  /** The first row of a column, or `[]` when the column is missing or empty: the
      value of `results[col][0]` where the source tests it for truth. */
  function FirstRow<T>(column: Option<seq<seq<T>>>): seq<T> {
    if column.Some? && column.value != [] then column.value[0] else []
  }

  /** A column row that is used can be read at every index below `n`. */
  predicate Covers<T>(row: seq<T>, n: nat) {
    row == [] || n <= |row|
  }

  /** Every column row that is used is at least as long as the id row; otherwise
      reading it raises an index error. */
  predicate Readable(raw: RawResult) {
    var n := |FirstRow(raw.ids)|;
    Covers(FirstRow(raw.documents), n) && Covers(FirstRow(raw.metadatas), n) && Covers(FirstRow(raw.distances), n)
  }

  /** The hit for index `i`, or `None` when its document is missing. A missing
      metadata column gives `{}` and a missing distance column gives no distance. */
  function Entry(documents: seq<Option<string>>, metadatas: seq<Metadata>, distances: seq<real>, i: nat): Option<Hit>
    requires Covers(documents, i + 1) && Covers(metadatas, i + 1) && Covers(distances, i + 1)
  {
    var doc := if documents != [] then documents[i] else None;
    var meta := if metadatas != [] then metadatas[i] else NoMetadata;
    var dist := if distances != [] then Some(distances[i]) else None;
    if doc.Some? then Some(Hit(doc.value, meta, dist)) else None
  }

  /** The hits of the first `n` indices, in index order, skipping missing documents. */
  function Collect(documents: seq<Option<string>>, metadatas: seq<Metadata>, distances: seq<real>, n: nat): (r: seq<Hit>)
    requires Covers(documents, n) && Covers(metadatas, n) && Covers(distances, n)
    ensures |r| <= n
  {
    if n == 0 then []
    else
      var e := Entry(documents, metadatas, distances, n - 1);
      Collect(documents, metadatas, distances, n - 1) + (if e.Some? then [e.value] else [])
  }

  /** The reshaped hits of a readable response. */
  function Hits(raw: RawResult): seq<Hit>
    requires Readable(raw)
  {
    Collect(FirstRow(raw.documents), FirstRow(raw.metadatas), FirstRow(raw.distances), |FirstRow(raw.ids)|)
  }

  /** The hit list is the entries whose document is present, in index order: there
      is an increasing choice of indices, each with a document, that covers every
      index with a document, and the k-th hit is the entry at the k-th index. */
  lemma {:induction false} CollectSelects(documents: seq<Option<string>>, metadatas: seq<Metadata>, distances: seq<real>, n: nat)
    returns (idx: seq<nat>)
    requires Covers(documents, n) && Covers(metadatas, n) && Covers(distances, n)
    ensures |idx| == |Collect(documents, metadatas, distances, n)|
    ensures forall k :: 0 <= k < |idx| ==> idx[k] < n
    ensures forall k, l :: 0 <= k < l < |idx| ==> idx[k] < idx[l]
    ensures forall k :: 0 <= k < |idx| ==>
      Entry(documents, metadatas, distances, idx[k]) == Some(Collect(documents, metadatas, distances, n)[k])
    ensures forall i :: 0 <= i < n && Entry(documents, metadatas, distances, i).Some? ==> i in idx
    decreases n
  {
    if n == 0 {
      idx := [];
    } else {
      var prev := CollectSelects(documents, metadatas, distances, n - 1);
      var e := Entry(documents, metadatas, distances, n - 1);
      var before := Collect(documents, metadatas, distances, n - 1);
      if e.Some? {
        idx := prev + [n - 1];
        assert Collect(documents, metadatas, distances, n) == before + [e.value];
      } else {
        idx := prev;
        assert Collect(documents, metadatas, distances, n) == before;
      }
    }
  }

  /** Without a documents column every entry is skipped. */
  lemma {:induction false} CollectWithoutDocuments(metadatas: seq<Metadata>, distances: seq<real>, n: nat)
    requires Covers(metadatas, n) && Covers(distances, n)
    ensures Collect([], metadatas, distances, n) == []
    decreases n
  {
    if n > 0 {
      CollectWithoutDocuments(metadatas, distances, n - 1);
    }
  }

  /** A missing column yields its default in every hit, and a missing documents
      column yields no hits at all. */
  lemma HitDefaults(raw: RawResult)
    requires Readable(raw)
    ensures FirstRow(raw.documents) == [] ==> Hits(raw) == []
    ensures FirstRow(raw.metadatas) == [] ==> forall k :: 0 <= k < |Hits(raw)| ==> Hits(raw)[k].metadata == NoMetadata
    ensures FirstRow(raw.distances) == [] ==> forall k :: 0 <= k < |Hits(raw)| ==> Hits(raw)[k].distance.None?
  {
    var docs, metas, dists := FirstRow(raw.documents), FirstRow(raw.metadatas), FirstRow(raw.distances);
    var idx := CollectSelects(docs, metas, dists, |FirstRow(raw.ids)|);
    if docs == [] {
      CollectWithoutDocuments(metas, dists, |FirstRow(raw.ids)|);
    }
  }

  /** Reshapes the raw response into hits: `Some([])` when no ids came back, `None`
      when reading a column raises an index error, otherwise the hits of `Hits`. */
  method ProcessResults(raw: RawResult) returns (r: Option<seq<Hit>>)
    ensures r.None? <==> !Readable(raw)
    ensures r.Some? ==> Readable(raw) && r.value == Hits(raw)
    ensures FirstRow(raw.ids) == [] ==> r == Some([])
  {
    var ids := FirstRow(raw.ids);
    if ids == [] {
      r := Some([]);
    } else {
      var docs, metas, dists := FirstRow(raw.documents), FirstRow(raw.metadatas), FirstRow(raw.distances);
      var processed: seq<Hit> := [];
      var failed := false;
      var i := 0;
      while i < |ids| && !failed
        invariant 0 <= i <= |ids|
        invariant !failed ==> Covers(docs, i) && Covers(metas, i) && Covers(dists, i)
        invariant !failed ==> processed == Collect(docs, metas, dists, i)
        invariant failed ==> !Readable(raw)
        decreases |ids| - i, !failed
      {
        if (docs != [] && i >= |docs|) || (metas != [] && i >= |metas|) || (dists != [] && i >= |dists|) {
          failed := true;
        } else {
          var doc := if docs != [] then docs[i] else None;
          var meta := if metas != [] then metas[i] else NoMetadata;
          var dist := if dists != [] then Some(dists[i]) else None;
          if doc.Some? {
            processed := processed + [Hit(doc.value, meta, dist)];
          }
          i := i + 1;
        }
      }
      r := if failed then None else Some(processed);
    }
  }

  /** What a query returns for a collection: `[]` when it is empty, otherwise the
      reshaped response to a request for `min(topK, count)` neighbours, or `None`
      when the index fails or its response cannot be read. */
  function Retrieve(c: Collection, queryEmbedding: Embedding, topK: int,
                    index: (Collection, Embedding, int) -> Option<RawResult>): Option<seq<Hit>>
  {
    if |c| == 0 then Some([])
    else
      var raw := index(c, queryEmbedding, Strings.Min(topK, |c|));
      if raw.None? || !Readable(raw.value) then None else Some(Hits(raw.value))
  }

  /** An empty collection answers `[]`, never `None`; a non-empty one answers `None`
      exactly when the index fails or its response cannot be read; and when the
      index returns at most the `min(topK, count)` ids asked for, so does the query. */
  lemma RetrieveOutcome(c: Collection, queryEmbedding: Embedding, topK: int,
                        index: (Collection, Embedding, int) -> Option<RawResult>)
    ensures |c| == 0 ==> Retrieve(c, queryEmbedding, topK, index) == Some([])
    ensures |c| > 0 ==>
      (Retrieve(c, queryEmbedding, topK, index).None? <==>
        index(c, queryEmbedding, Strings.Min(topK, |c|)).None? || !Readable(index(c, queryEmbedding, Strings.Min(topK, |c|)).value))
    ensures |c| > 0 && index(c, queryEmbedding, Strings.Min(topK, |c|)).Some? &&
            |FirstRow(index(c, queryEmbedding, Strings.Min(topK, |c|)).value.ids)| <= Strings.Min(topK, |c|) &&
            Retrieve(c, queryEmbedding, topK, index).Some? ==>
      |Retrieve(c, queryEmbedding, topK, index).value| <= Strings.Min(topK, |c|)
  {
  }

  // ---------------------------------------------------------------------------
  // The store
  // ---------------------------------------------------------------------------

  /** The client's collections, updated in place by the operations below. */
  class VectorStore {
    var collections: Store

    /** Opens the client on the collections persisted by earlier runs. */
    constructor(persisted: Store)
      ensures collections == persisted
    {
      collections := persisted;
    }

    /** Returns the named collection, creating it empty when absent. */
    method GetOrCreateCollection(name: string) returns (c: Collection)
      modifies this
      ensures collections == WithCollection(old(collections), name)
      ensures name in old(collections) ==> c == old(collections)[name]
      ensures name !in old(collections) ==> c == map[]
      ensures c == collections[name]
    {
      if name !in collections {
        collections := collections[name := map[]];
      }
      c := collections[name];
    }

    /** Adds a batch of chunks. An invalid batch changes nothing, not even creating
        the collection. Otherwise the collection is created if needed, the ids are
        the supplied ones when there is one per chunk and otherwise fresh ids that
        clash with no supplied id and no stored id, the metadata is aligned to the
        chunks, and the records are upserted; no other collection changes. The ids
        used are returned. */
    method AddDocuments(name: string, chunks: seq<string>, embeddings: seq<Embedding>,
                        metadatas: Option<seq<Metadata>>, docIds: Option<seq<Id>>)
      returns (ids: seq<Id>)
      modifies this
      ensures !ValidBatch(chunks, embeddings) ==> collections == old(collections) && ids == []
      ensures ValidBatch(chunks, embeddings) ==> |ids| == |chunks|
      ensures ValidBatch(chunks, embeddings) && docIds.Some? && |docIds.value| == |chunks| ==> ids == docIds.value
      ensures ValidBatch(chunks, embeddings) && (docIds.None? || |docIds.value| != |chunks|) ==>
        Distinct(ids) &&
        forall i :: 0 <= i < |ids| ==> ids[i] !in Supplied(docIds) && ids[i] !in WithCollection(old(collections), name)[name]
      ensures ValidBatch(chunks, embeddings) ==>
        collections == WithCollection(old(collections), name)[name :=
          Upsert(WithCollection(old(collections), name)[name], ids,
                 Records(embeddings, chunks, AlignMetadatas(metadatas, |chunks|)))]
    {
      if chunks == [] || embeddings == [] || |chunks| != |embeddings| {
        ids := [];
      } else {
        var collection := GetOrCreateCollection(name);
        var metas: seq<Metadata>;
        if metadatas.None? {
          metas := NoMetadatas(|chunks|);
        } else {
          metas := metadatas.value;
        }
        if docIds.None? || |docIds.value| != |chunks| {
          ids := FreshIds(|chunks|, Supplied(docIds) + collection.Keys);
        } else {
          ids := docIds.value;
        }
        if |metas| != |chunks| {
          metas := PadMetadatas(metas, |chunks|);
        }
        assert metas == AlignMetadatas(metadatas, |chunks|);
        collections := collections[name := Upsert(collection, ids, Records(embeddings, chunks, metas))];
      }
    }

    /** Queries the named collection, creating it empty when absent. */
    method QueryStore(name: string, queryEmbedding: Embedding, topK: int,
                      index: (Collection, Embedding, int) -> Option<RawResult>)
      returns (result: Option<seq<Hit>>)
      modifies this
      ensures collections == WithCollection(old(collections), name)
      ensures result == Retrieve(collections[name], queryEmbedding, topK, index)
      ensures name !in old(collections) || old(collections)[name] == map[] ==> result == Some([])
    {
      var collection := GetOrCreateCollection(name);
      if |collection| == 0 {
        result := Some([]);
      } else {
        var raw := index(collection, queryEmbedding, Strings.Min(topK, |collection|));
        if raw.None? {
          result := None;
        } else {
          result := ProcessResults(raw.value);
        }
      }
    }

    /** Deletes the named collection; a name that is not there is not an error. */
    method ResetCollection(name: string)
      modifies this
      ensures collections == old(collections) - {name}
      ensures CollectionCount(name) == 0
    {
      collections := collections - {name};
    }

    /** The number of records in the named collection, 0 when it does not exist. */
    function CollectionCount(name: string): (n: nat)
      reads this
      ensures n == 0 <==> name !in collections || collections[name] == map[]
      ensures name in collections ==> n == |collections[name]|
    {
      if name in collections then |collections[name]| else 0
    }
  }
}
