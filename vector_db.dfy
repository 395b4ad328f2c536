/**
 * The vector store (`VectorStore` in src/core/vector_db.py).
 *
 * The store keeps a FAISS flat index and a list `metadata` that runs parallel
 * to it: record `i` describes the `i`-th vector added, and `add_item` stamps the
 * record with that position as its `id`. The FAISS index is modelled as what it
 * holds, its dimension and its vectors in insertion order, so `ntotal` is the
 * number of vectors. The nearest-neighbour search itself is not modelled: its
 * raw output, a row of distances and a row of labels, is an input to `Search`.
 *
 * The files behind `save_index` and `load_index` are values: loading takes
 * what the two files hold (None when a file does not exist), and saving
 * returns what it hands to the writers.
 */
module VectorDb {
  import opened Wrappers

  /** The default of `top_k` (line 42). */
  const DefaultTopK := 5

  /** An embedding. Its components are opaque: nothing here computes with them. */
  type Vector = seq<real>

  /** A metadata record, the dict `{"id", "filename", "text"}`. */
  datatype Record = Record(id: int, filename: string, text: string)

  /** A FAISS `IndexFlatL2`: its dimension `d` and its vectors, oldest first. */
  datatype FlatIndex = FlatIndex(d: int, vectors: seq<Vector>) {
    function NTotal(): nat {
      |vectors|
    }
  }

  /** The checks FAISS's Python wrapper makes before adding or searching: the
      vector's dimension must be the index's, and the number of neighbours
      asked for must be positive. */
  datatype FaissError = DimensionMismatch | NonPositiveK

  /** The raw result of `index.search(query, top_k)` for one query: `D[0]` and `I[0]`. */
  datatype RawResult = RawResult(distances: seq<real>, labels: seq<int>)

  /** One search result, the dict `{"filename", "preview", "score"}`. */
  datatype Hit = Hit(filename: string, preview: string, score: real)

  /** The store's two fields, `index` and `metadata`. */
  datatype Store = Store(index: Option<FlatIndex>, metadata: seq<Record>)

  /** The position/id invariant: there is an index, there is one record per
      vector, and record `i` carries the id `i`. */
  predicate IdsInSync(s: Store) {
    && s.index.Some?
    && |s.metadata| == s.index.value.NTotal()
    && forall i :: 0 <= i < |s.metadata| ==> s.metadata[i].id == i
  }

  // ---------------------------------------------------------------------
  // create_index and load_index (src/core/vector_db.py:22-26, 73-81)
  // ---------------------------------------------------------------------

  /** The store right after `create_index` with dimension `dim`. */
  function Created(dim: nat): (s: Store)
    ensures s.index.Some? && s.index.value.d == dim && s.index.value.NTotal() == 0
    ensures s.metadata == []
    ensures IdsInSync(s)
  {
    Store(Some(FlatIndex(dim, [])), [])
  }

  /** The store after `load_index`, given what the index file and the metadata
      file hold (None for a file that does not exist). */
  function Load(dim: nat, indexFile: Option<FlatIndex>, metadataFile: Option<seq<Record>>): Store {
    if indexFile.Some? && metadataFile.Some? then Store(Some(indexFile.value), metadataFile.value)
    else Created(dim)
  }

  /** Loading takes both files as they are when both exist and otherwise falls
      back to a fresh index; either way the store has an index afterwards. */
  lemma LoadSpec(dim: nat, indexFile: Option<FlatIndex>, metadataFile: Option<seq<Record>>)
    ensures Load(dim, indexFile, metadataFile).index.Some?
    ensures indexFile.Some? && metadataFile.Some? ==>
      Load(dim, indexFile, metadataFile).index == indexFile
      && Load(dim, indexFile, metadataFile).metadata == metadataFile.value
    ensures indexFile.None? || metadataFile.None? ==>
      Load(dim, indexFile, metadataFile).index.value == FlatIndex(dim, [])
      && Load(dim, indexFile, metadataFile).metadata == []
  {
  }

  // ---------------------------------------------------------------------
  // save_index (src/core/vector_db.py:65-71)
  // ---------------------------------------------------------------------

  /** What `save_index` writes: the index to the index file, the records to the
      metadata file. */
  datatype Saved = Saved(index: FlatIndex, metadata: seq<Record>)

  /** What `save_index` writes, or None when it writes nothing. */
  function Save(s: Store): Option<Saved> {
    if s.index.Some? then Some(Saved(s.index.value, s.metadata)) else None
  }

  /** Saving writes nothing without an index; with one, loading what was written
      gives back the same index and the same records. */
  lemma SaveLoadRoundTrip(s: Store, dim: nat)
    ensures s.index.None? <==> Save(s).None?
    ensures Save(s).Some? ==>
      Load(dim, Some(Save(s).value.index), Some(Save(s).value.metadata)) == s
  {
  }

  // ---------------------------------------------------------------------
  // add_item (src/core/vector_db.py:29-40)
  // ---------------------------------------------------------------------

  /** The new state after `add_item`, and the FAISS error it raised, if any. */
  datatype AddOutcome = AddOutcome(store: Store, error: Option<FaissError>)

  function AddItemSpec(s: Store, dim: nat, v: Vector, meta: Record): AddOutcome {
    var base := if s.index.None? then Created(dim) else s;
    var ix := base.index.value;
    if |v| != ix.d then AddOutcome(base, Some(DimensionMismatch))
    else
      var grown := ix.(vectors := ix.vectors + [v]);
      AddOutcome(Store(Some(grown), base.metadata + [meta.(id := grown.NTotal() - 1)]), None)
  }

  /** `add_item` first creates an index when there is none. It then either fails
      on a dimension mismatch and changes nothing more, or appends exactly one
      vector and exactly one record: the caller's filename and text stamped with
      the id `ntotal - 1` of the new vector. Earlier records are unchanged. */
  lemma AddItemAppendsOne(s: Store, dim: nat, v: Vector, meta: Record)
    ensures var base := if s.index.None? then Created(dim) else s;
      var r := AddItemSpec(s, dim, v, meta);
      && r.store.index.Some?
      && r.store.index.value.d == base.index.value.d
      && (r.error.None? <==> |v| == base.index.value.d)
      && (r.error.Some? ==> r.store == base)
      && (r.error.None? ==>
            var n := r.store.index.value.NTotal();
            && n == base.index.value.NTotal() + 1
            && r.store.index.value.vectors[..n - 1] == base.index.value.vectors
            && r.store.index.value.vectors[n - 1] == v
            && |r.store.metadata| == |base.metadata| + 1
            && r.store.metadata[..|base.metadata|] == base.metadata
            && r.store.metadata[|base.metadata|].id == n - 1
            && r.store.metadata[|base.metadata|].filename == meta.filename
            && r.store.metadata[|base.metadata|].text == meta.text)
  {
    var base := if s.index.None? then Created(dim) else s;
    var r := AddItemSpec(s, dim, v, meta);
    if r.error.None? {
      assert r.store.metadata[..|base.metadata|] == base.metadata;
      assert r.store.index.value.vectors[..base.index.value.NTotal()] == base.index.value.vectors;
    }
  }

  /** `add_item` keeps each record's id equal to its position and to the position
      of its vector, whether it succeeds or fails. */
  lemma AddItemKeepsIdsInSync(s: Store, dim: nat, v: Vector, meta: Record)
    requires s.index.None? || IdsInSync(s)
    ensures IdsInSync(AddItemSpec(s, dim, v, meta).store)
  {
    AddItemAppendsOne(s, dim, v, meta);
    var base := if s.index.None? then Created(dim) else s;
    var r := AddItemSpec(s, dim, v, meta).store;
    if r != base {
      forall i | 0 <= i < |r.metadata| ensures r.metadata[i].id == i {
        if i < |base.metadata| {
          assert r.metadata[i] == r.metadata[..|base.metadata|][i];
        }
      }
    }
  }

  /** A run of `add_item` calls, one per item, in order. A call that fails leaves
      the store as it was and the run goes on. */
  function AddAll(s: Store, dim: nat, items: seq<(Vector, Record)>): Store
    decreases |items|
  {
    if items == [] then s
    else AddAll(AddItemSpec(s, dim, items[0].0, items[0].1).store, dim, items[1..])
  }

  /** The items whose vectors have dimension `d`: the ones FAISS accepts. */
  function Accepted(d: int, items: seq<(Vector, Record)>): (acc: seq<(Vector, Record)>)
    ensures |acc| <= |items|
    decreases |items|
  {
    if items == [] then []
    else (if |items[0].0| == d then [items[0]] else []) + Accepted(d, items[1..])
  }

  /** The records of `items` stamped with the consecutive ids `n, n + 1, ...`. */
  function Stamped(items: seq<(Vector, Record)>, n: int): seq<Record>
    decreases |items|
  {
    if items == [] then [] else [items[0].1.(id := n)] + Stamped(items[1..], n + 1)
  }

  function VectorsOf(items: seq<(Vector, Record)>): seq<Vector>
    decreases |items|
  {
    if items == [] then [] else [items[0].0] + VectorsOf(items[1..])
  }

  /** Stamping keeps each record's filename and text and gives the `k`-th record
      the id `n + k`. */
  lemma {:induction false} StampedAt(items: seq<(Vector, Record)>, n: int, k: nat)
    requires k < |items|
    ensures |Stamped(items, n)| == |items|
    ensures Stamped(items, n)[k] == items[k].1.(id := n + k)
    decreases k
  {
    StampedLength(items, n);
    if k > 0 {
      StampedAt(items[1..], n + 1, k - 1);
    }
  }

  lemma {:induction false} StampedLength(items: seq<(Vector, Record)>, n: int)
    ensures |Stamped(items, n)| == |items|
    decreases |items|
  {
    if items != [] {
      StampedLength(items[1..], n + 1);
    }
  }

  lemma {:induction false} VectorsOfLength(items: seq<(Vector, Record)>)
    ensures |VectorsOf(items)| == |items|
    decreases |items|
  {
    if items != [] {
      VectorsOfLength(items[1..]);
    }
  }

  /** From a store whose ids are in sync, a run of `add_item` calls keeps them in
      sync and appends exactly the accepted items, in order: their vectors to the
      index, and their records stamped with consecutive ids. */
  lemma {:induction false} AddAllAppendsAccepted(s: Store, dim: nat, items: seq<(Vector, Record)>)
    requires IdsInSync(s)
    ensures var r := AddAll(s, dim, items);
      var acc := Accepted(s.index.value.d, items);
      && IdsInSync(r)
      && r.index.value.d == s.index.value.d
      && r.metadata == s.metadata + Stamped(acc, |s.metadata|)
      && r.index.value.vectors == s.index.value.vectors + VectorsOf(acc)
    decreases |items|
  {
    if items == [] {
      assert s.metadata + [] == s.metadata;
      assert s.index.value.vectors + [] == s.index.value.vectors;
    } else {
      var v, meta := items[0].0, items[0].1;
      var s1 := AddItemSpec(s, dim, v, meta).store;
      AddItemKeepsIdsInSync(s, dim, v, meta);
      AddAllAppendsAccepted(s1, dim, items[1..]);
      var d := s.index.value.d;
      var rest := Accepted(d, items[1..]);
      var n := |s.metadata|;
      if |v| == d {
        var acc := Accepted(d, items);
        assert acc == [items[0]] + rest;
        assert acc[1..] == rest;
        assert s1.metadata == s.metadata + [meta.(id := n)];
        assert s1.index.value.vectors == s.index.value.vectors + [v];
        assert Stamped(acc, n) == [meta.(id := n)] + Stamped(rest, n + 1);
        assert VectorsOf(acc) == [v] + VectorsOf(rest);
        assert s.metadata + [meta.(id := n)] + Stamped(rest, n + 1) == s.metadata + Stamped(acc, n);
        assert s.index.value.vectors + [v] + VectorsOf(rest) == s.index.value.vectors + VectorsOf(acc);
      } else {
        assert Accepted(d, items) == rest;
        assert s1 == s;
      }
    }
  }

  /** From a freshly created index with dimension `dim`, after any run of
      `add_item` calls, there is one record per vector and record `i` has id
      `i`; when every vector has dimension `dim`, `ntotal` is the number of calls. */
  lemma AddAllFromCreated(dim: nat, items: seq<(Vector, Record)>)
    ensures IdsInSync(AddAll(Created(dim), dim, items))
    ensures AddAll(Created(dim), dim, items).metadata == Stamped(Accepted(dim, items), 0)
    ensures (forall k :: 0 <= k < |items| ==> |items[k].0| == dim) ==>
      AddAll(Created(dim), dim, items).index.value.NTotal() == |items|
  {
    AddAllAppendsAccepted(Created(dim), dim, items);
    assert [] + Stamped(Accepted(dim, items), 0) == Stamped(Accepted(dim, items), 0);
    if forall k :: 0 <= k < |items| ==> |items[k].0| == dim {
      AcceptedAll(dim, items);
      StampedLength(items, 0);
    }
  }

  lemma {:induction false} AcceptedAll(d: int, items: seq<(Vector, Record)>)
    requires forall k :: 0 <= k < |items| ==> |items[k].0| == d
    ensures Accepted(d, items) == items
    decreases |items|
  {
    if items != [] {
      AcceptedAll(d, items[1..]);
      assert [items[0]] + items[1..] == items;
    }
  }

  /** Indexing many vectors of the store's dimension from a fresh store, saving,
      and loading what was saved gives an index with one vector per call. */
  lemma ReloadAfterMassIndexing(dim: nat, items: seq<(Vector, Record)>)
    requires forall k :: 0 <= k < |items| ==> |items[k].0| == dim
    ensures var s := AddAll(Created(dim), dim, items);
      && Save(s).Some?
      && Load(dim, Some(Save(s).value.index), Some(Save(s).value.metadata)).index.value.NTotal() == |items|
  {
    AddAllFromCreated(dim, items);
    SaveLoadRoundTrip(AddAll(Created(dim), dim, items), dim);
  }

  // ---------------------------------------------------------------------
  // search (src/core/vector_db.py:42-63)
  // ---------------------------------------------------------------------

  /** What FAISS guarantees of a search for `topK > 0` neighbours: one distance per
      label, `topK` of each, and every label a position or -1 for "no neighbour". */
  predicate RawShape(raw: RawResult, topK: int) {
    && |raw.distances| == |raw.labels|
    && (topK > 0 ==> |raw.labels| == topK)
    && forall i :: 0 <= i < |raw.labels| ==> raw.labels[i] >= -1
  }

  /** The filter at line 55: the raw index is not -1 and names an existing record. */
  predicate Kept(idx: int, count: nat) {
    idx != -1 && idx < count
  }

  /** The first 200 characters of the text followed by "..." (line 59). */
  function Preview(text: string): (p: string)
    ensures |p| == (if |text| < 200 then |text| else 200) + 3
    ensures p[..|p| - 3] == text[..|p| - 3]
    ensures p[|p| - 3..] == "..."
  {
    (if |text| <= 200 then text else text[..200]) + "..."
  }

  function ShapeHit(item: Record, score: real): Hit {
    Hit(item.filename, Preview(item.text), score)
  }

  /** The results the loop at lines 53-61 builds from the first `|labels|`
      entries of the raw result. */
  function Hits(metadata: seq<Record>, distances: seq<real>, labels: seq<int>): seq<Hit>
    requires |distances| == |labels|
    requires forall i :: 0 <= i < |labels| ==> labels[i] >= -1
    decreases |labels|
  {
    if labels == [] then []
    else
      var n := |labels| - 1;
      Hits(metadata, distances[..n], labels[..n])
        + (if Kept(labels[n], |metadata|) then [ShapeHit(metadata[labels[n]], distances[n])] else [])
  }

  /** The positions of the raw result whose labels pass the filter, in order. */
  function Survivors(labels: seq<int>, count: nat): (ps: seq<nat>)
    ensures forall j :: 0 <= j < |ps| ==> ps[j] < |labels| && Kept(labels[ps[j]], count)
    ensures forall j, k :: 0 <= j < k < |ps| ==> ps[j] < ps[k]
    ensures forall p :: 0 <= p < |labels| && Kept(labels[p], count) ==> p in ps
    decreases |labels|
  {
    if labels == [] then []
    else
      var n := |labels| - 1;
      var front := Survivors(labels[..n], count);
      assert forall j :: 0 <= j < |front| ==> labels[..n][front[j]] == labels[front[j]];
      front + (if Kept(labels[n], count) then [n] else [])
  }

  /** The search results are the raw entries that pass the filter, in the raw
      result's order, each shaped from the record its label names and paired
      with the distance at the same position. */
  lemma {:induction false} HitsAreSurvivors(metadata: seq<Record>, distances: seq<real>, labels: seq<int>)
    requires |distances| == |labels|
    requires forall i :: 0 <= i < |labels| ==> labels[i] >= -1
    ensures var ps := Survivors(labels, |metadata|);
      && |Hits(metadata, distances, labels)| == |ps|
      && forall j :: 0 <= j < |ps| ==>
           0 <= labels[ps[j]] < |metadata|
           && Hits(metadata, distances, labels)[j] == ShapeHit(metadata[labels[ps[j]]], distances[ps[j]])
    decreases |labels|
  {
    if labels != [] {
      var n := |labels| - 1;
      var ds, ls := distances[..n], labels[..n];
      HitsAreSurvivors(metadata, ds, ls);
      var front := Survivors(ls, |metadata|);
      forall j | 0 <= j < |front|
        ensures ls[front[j]] == labels[front[j]] && ds[front[j]] == distances[front[j]]
      {
      }
    }
  }

  /** There are never more results than raw entries. */
  lemma HitsBounded(metadata: seq<Record>, distances: seq<real>, labels: seq<int>)
    requires |distances| == |labels|
    requires forall i :: 0 <= i < |labels| ==> labels[i] >= -1
    ensures |Hits(metadata, distances, labels)| <= |labels|
  {
    var ps := Survivors(labels, |metadata|);
    HitsAreSurvivors(metadata, distances, labels);
    SortedPositionsBounded(ps, |labels|);
  }

  /** A strictly increasing sequence of positions below `n` has at most `n` elements. */
  lemma {:induction false} SortedPositionsBounded(ps: seq<nat>, n: nat)
    requires forall j :: 0 <= j < |ps| ==> ps[j] < n
    requires forall j, k :: 0 <= j < k < |ps| ==> ps[j] < ps[k]
    ensures |ps| <= n
    decreases n
  {
    if ps != [] {
      var last := ps[|ps| - 1];
      var front := ps[..|ps| - 1];
      assert forall j :: 0 <= j < |front| ==> front[j] < last;
      SortedPositionsBounded(front, last);
    }
  }

  /** What `search` returns for the store `s`, given FAISS's raw result. */
  function SearchSpec(s: Store, query: Vector, topK: int, raw: RawResult): Result<seq<Hit>, FaissError>
    requires RawShape(raw, topK)
  {
    if s.index.None? || s.index.value.NTotal() == 0 then Ok([])
    else if |query| != s.index.value.d then Err(DimensionMismatch)
    else if topK <= 0 then Err(NonPositiveK)
    else Ok(Hits(s.metadata, raw.distances, raw.labels))
  }

  /** A search with the default `top_k` returns at most five results. */
  lemma DefaultSearchBounded(s: Store, query: Vector, raw: RawResult)
    requires RawShape(raw, DefaultTopK)
    ensures SearchSpec(s, query, DefaultTopK, raw).Ok? ==>
      |SearchSpec(s, query, DefaultTopK, raw).value| <= DefaultTopK
  {
    HitsBounded(s.metadata, raw.distances, raw.labels);
  }

  // ---------------------------------------------------------------------
  // The store object
  // ---------------------------------------------------------------------

  class VectorStore {
    const indexPath: string
    const metadataPath: string
    const dimension: nat
    var index: Option<FlatIndex>
    var metadata: seq<Record>

    function State(): Store
      reads this
    {
      Store(index, metadata)
    }

    /** `VectorStore(index_path, metadata_path, dimension)`, given what the two
        files hold: it starts empty and loads. */
    constructor (indexPath: string, metadataPath: string, dimension: nat,
                 indexFile: Option<FlatIndex>, metadataFile: Option<seq<Record>>)
      ensures this.indexPath == indexPath && this.metadataPath == metadataPath
      ensures this.dimension == dimension
      ensures State() == Load(dimension, indexFile, metadataFile)
    {
      this.indexPath := indexPath;
      this.metadataPath := metadataPath;
      this.dimension := dimension;
      index := None;
      metadata := [];
      new;
      LoadIndex(indexFile, metadataFile);
    }

    method CreateIndex()
      modifies this
      ensures State() == Created(dimension)
    {
      index := Some(FlatIndex(dimension, []));
      metadata := [];
    }

    /** `add_item(vector, meta)`; a FAISS error is returned instead of raised. */
    method AddItem(vector: Vector, meta: Record) returns (error: Option<FaissError>)
      modifies this
      ensures AddOutcome(State(), error) == AddItemSpec(old(State()), dimension, vector, meta)
      ensures old(index.None?) || old(IdsInSync(State())) ==> IdsInSync(State())
    {
      ghost var before := State();
      if before.index.None? || IdsInSync(before) {
        AddItemKeepsIdsInSync(before, dimension, vector, meta);
      }
      if index == None {
        CreateIndex();
      }
      var ix := index.value;
      if |vector| != ix.d {
        return Some(DimensionMismatch);
      }
      index := Some(ix.(vectors := ix.vectors + [vector]));
      metadata := metadata + [meta.(id := index.value.NTotal() - 1)];
      error := None;
    }

    /** `search(query_vector, top_k)`, given FAISS's raw result for the query. */
    method Search(query: Vector, topK: int, raw: RawResult) returns (r: Result<seq<Hit>, FaissError>)
      requires RawShape(raw, topK)
      ensures r == SearchSpec(State(), query, topK, raw)
      ensures index.None? || index.value.NTotal() == 0 ==> r == Ok([])
      ensures r.Ok? && r.value != [] ==> |r.value| <= topK
    {
      if index == None || index.value.NTotal() == 0 {
        return Ok([]);
      }
      if |query| != index.value.d {
        return Err(DimensionMismatch);
      }
      if topK <= 0 {
        return Err(NonPositiveK);
      }
      var results: seq<Hit> := [];
      for i := 0 to |raw.labels|
        invariant results == Hits(metadata, raw.distances[..i], raw.labels[..i])
      {
        assert raw.labels[..i + 1][..i] == raw.labels[..i];
        assert raw.distances[..i + 1][..i] == raw.distances[..i];
        var idx := raw.labels[i];
        if idx != -1 && idx < |metadata| {
          var item := metadata[idx];
          var preview := (if |item.text| <= 200 then item.text else item.text[..200]) + "...";
          results := results + [Hit(item.filename, preview, raw.distances[i])];
        }
      }
      assert raw.labels[..|raw.labels|] == raw.labels;
      assert raw.distances[..|raw.labels|] == raw.distances;
      HitsBounded(metadata, raw.distances, raw.labels);
      r := Ok(results);
    }

    /** `save_index()`: what it writes, or None when there is no index. */
    method SaveIndex() returns (written: Option<Saved>)
      ensures written == Save(State())
      ensures written.Some? ==> Load(dimension, Some(written.value.index), Some(written.value.metadata)) == State()
    {
      if index.Some? {
        written := Some(Saved(index.value, metadata));
      } else {
        written := None;
      }
      SaveLoadRoundTrip(State(), dimension);
    }

    /** `load_index()`, given what the index file and the metadata file hold. */
    method LoadIndex(indexFile: Option<FlatIndex>, metadataFile: Option<seq<Record>>)
      modifies this
      ensures State() == Load(dimension, indexFile, metadataFile)
    {
      if indexFile.Some? && metadataFile.Some? {
        index := indexFile;
        metadata := metadataFile.value;
      } else {
        CreateIndex();
      }
    }
  }

  /** The test at tests/stress_test.py:50-68. The store it builds loads whatever
      an earlier test saved to the same files, so it starts from any in-sync
      store of dimension 384 holding `n` records. The two added records get the
      ids `n` and `n + 1`, and when FAISS ranks them first and second the
      results are, in that order, "match.png" then "garbage.png". */
  lemma TwoItemSearch(s: Store, a: Vector, c: Vector, d0: real, d1: real)
    requires IdsInSync(s) && s.index.value.d == 384
    requires |a| == 384 && |c| == 384
    ensures var n := |s.metadata|;
      var s1 := AddItemSpec(s, 384, a, Record(0, "match.png", "Match")).store;
      var s2 := AddItemSpec(s1, 384, c, Record(0, "garbage.png", "Garbage")).store;
      && IdsInSync(s2)
      && s2.metadata == s.metadata + [Record(n, "match.png", "Match"), Record(n + 1, "garbage.png", "Garbage")]
      && SearchSpec(s2, a, 2, RawResult([d0, d1], [n, n + 1]))
         == Ok([Hit("match.png", "Match...", d0), Hit("garbage.png", "Garbage...", d1)])
  {
    var n := |s.metadata|;
    var md := s.metadata + [Record(n, "match.png", "Match"), Record(n + 1, "garbage.png", "Garbage")];
    TwoItemsAdded(s, a, c);
    AddItemKeepsIdsInSync(s, 384, a, Record(0, "match.png", "Match"));
    AddItemKeepsIdsInSync(AddItemSpec(s, 384, a, Record(0, "match.png", "Match")).store,
                          384, c, Record(0, "garbage.png", "Garbage"));
    TwoItemHits(md, n, d0, d1);
  }

  lemma TwoItemsAdded(s: Store, a: Vector, c: Vector)
    requires IdsInSync(s) && s.index.value.d == 384
    requires |a| == 384 && |c| == 384
    ensures var n := |s.metadata|;
      var s1 := AddItemSpec(s, 384, a, Record(0, "match.png", "Match")).store;
      var s2 := AddItemSpec(s1, 384, c, Record(0, "garbage.png", "Garbage")).store;
      s2 == Store(Some(FlatIndex(384, s.index.value.vectors + [a, c])),
                  s.metadata + [Record(n, "match.png", "Match"), Record(n + 1, "garbage.png", "Garbage")])
  {
    var n := |s.metadata|;
    var vs := s.index.value.vectors;
    var s1 := AddItemSpec(s, 384, a, Record(0, "match.png", "Match")).store;
    assert s1 == Store(Some(FlatIndex(384, vs + [a])), s.metadata + [Record(n, "match.png", "Match")]);
    assert vs + [a] + [c] == vs + [a, c];
    assert s.metadata + [Record(n, "match.png", "Match")] + [Record(n + 1, "garbage.png", "Garbage")]
        == s.metadata + [Record(n, "match.png", "Match"), Record(n + 1, "garbage.png", "Garbage")];
  }

  lemma TwoItemHits(md: seq<Record>, n: nat, d0: real, d1: real)
    requires |md| == n + 2
    requires md[n] == Record(n, "match.png", "Match") && md[n + 1] == Record(n + 1, "garbage.png", "Garbage")
    ensures Hits(md, [d0, d1], [n, n + 1])
      == [Hit("match.png", "Match...", d0), Hit("garbage.png", "Garbage...", d1)]
  {
    assert Preview("Match") == "Match...";
    assert Preview("Garbage") == "Garbage...";
    assert [d0, d1][..1] == [d0] && [n, n + 1][..1] == [n];
    assert [d0][..0] == [] && [n][..0] == [];
    assert Hits(md, [d0], [n]) == [Hit("match.png", "Match...", d0)];
  }
}
