/** The FAISS-backed store (ingest/indexer.py): three parallel pieces of state,
    an inner-product index of vectors, the chunk texts and their metadata,
    appended to by `add`, read by `search`, written by `save` and replaced
    wholesale by `load`. The faiss index itself is a value holding its
    dimensionality and rows; its nearest-neighbour search is an oracle. */
module Indexer {
  import opened Common

  type Vector = seq<real>

  /** A faiss `IndexFlatIP`: its fixed dimensionality and its rows in insertion order. */
  datatype FlatIndex = FlatIndex(dim: nat, rows: seq<Vector>)

  /** A numpy embeddings array: number of axes, its rows and, for a matrix, the column count. */
  datatype Embeddings = Embeddings(ndim: nat, rows: seq<Vector>, cols: nat)

  /** Every row of a matrix has the matrix's column count. */
  predicate Rectangular(e: Embeddings)
  {
    forall k :: 0 <= k < |e.rows| ==> |e.rows[k]| == e.cols
  }

  /** One raw hit of `index.search`: a row position (-1 for padding) and its score. */
  datatype Hit = Hit(idx: int, score: real)

  /** The faiss search: given the index, the query row and `k`, the raw hits. */
  type Oracle = (FlatIndex, Vector, nat) -> seq<Hit>

  /** What faiss guarantees of a search over `n` rows: exactly `k` hits, each a
      row position or the padding value -1. */
  predicate HitsWellFormed(hits: seq<Hit>, n: nat, k: nat)
  {
    |hits| == k && forall j :: 0 <= j < |hits| ==> -1 <= hits[j].idx < n
  }

  ghost predicate SoundOracle(oracle: Oracle)
  {
    forall ix, q, k :: HitsWellFormed(oracle(ix, q, k), |ix.rows|, k)
  }

  /** A search result record: `{"text", "metadata", "score"}`. */
  datatype SearchResult = SearchResult(text: string, metadata: Metadata, score: real)

  const IndexOutOfRange := Error(IndexError, "list index out of range")

  /** Python's `s[i]`: negative positions count from the end; out of range is None. */
  function PyAt<T>(s: seq<T>, i: int): (r: Option<T>)
    ensures r.Some? <==> -|s| <= i < |s|
    ensures 0 <= i < |s| ==> r == Some(s[i])
  {
    if 0 <= i < |s| then Some(s[i])
    else if -|s| <= i < 0 then Some(s[|s| + i])
    else None
  }

  /** The hits that are not padding, in the oracle's order. */
  function Kept(hits: seq<Hit>): (r: seq<Hit>)
    decreases |hits|
  {
    if |hits| == 0 then []
    else Kept(hits[..|hits| - 1]) + (if hits[|hits| - 1].idx == -1 then [] else [hits[|hits| - 1]])
  }

  /** The record the store builds for one kept hit, when its position exists. */
  function Resolve(h: Hit, texts: seq<string>, metas: seq<Metadata>): Option<SearchResult>
  {
    var t := PyAt(texts, h.idx);
    var m := PyAt(metas, h.idx);
    if t.Some? && m.Some? then Some(SearchResult(t.value, m.value, h.score)) else None
  }

  /** What the result loop of `search` yields for the raw hits: padding is
      skipped, every other hit is paired with the text and metadata at its
      position, and the first position past the end raises IndexError. */
  function Collect(hits: seq<Hit>, texts: seq<string>, metas: seq<Metadata>): (r: Result<seq<SearchResult>, Error>)
    decreases |hits|
  {
    if |hits| == 0 then Ok([])
    else
      match Collect(hits[..|hits| - 1], texts, metas)
      case Err(e) => Err(e)
      case Ok(prev) =>
        var h := hits[|hits| - 1];
        if h.idx == -1 then Ok(prev)
        else match Resolve(h, texts, metas)
          case Some(res) => Ok(prev + [res])
          case None => Err(IndexOutOfRange)
  }

  /** Skipping padding is a filter: it distributes over concatenation, so the
      kept hits stay in the oracle's order. */
  lemma {:induction false} KeptAppend(a: seq<Hit>, b: seq<Hit>)
    ensures Kept(a + b) == Kept(a) + Kept(b)
    decreases |b|
  {
    if |b| == 0 {
      assert a + b == a;
    } else {
      var b' := b[..|b| - 1];
      assert (a + b)[..|a + b| - 1] == a + b';
      KeptAppend(a, b');
    }
  }

  /** The kept hits are exactly the hits that are not padding, and there are no
      more of them than hits. */
  lemma {:induction false} KeptMembers(hits: seq<Hit>)
    ensures |Kept(hits)| <= |hits|
    ensures forall h :: h in Kept(hits) <==> h in hits && h.idx != -1
    decreases |hits|
  {
    if |hits| > 0 {
      var init := hits[..|hits| - 1];
      KeptMembers(init);
      assert hits == init + [hits[|hits| - 1]];
    }
  }

  /** The result loop succeeds exactly when every kept hit resolves, and then it
      returns, position by position, the record of each kept hit: same count,
      same order, text and metadata from the same row. */
  lemma {:induction false} CollectMeaning(hits: seq<Hit>, texts: seq<string>, metas: seq<Metadata>)
    ensures Collect(hits, texts, metas).Ok?
        <==> forall j :: 0 <= j < |Kept(hits)| ==> Resolve(Kept(hits)[j], texts, metas).Some?
    ensures Collect(hits, texts, metas).Ok? ==>
        var r := Collect(hits, texts, metas).value;
        |r| == |Kept(hits)| &&
        forall j :: 0 <= j < |r| ==> Some(r[j]) == Resolve(Kept(hits)[j], texts, metas)
    decreases |hits|
  {
    if |hits| > 0 {
      var init := hits[..|hits| - 1];
      var h := hits[|hits| - 1];
      CollectMeaning(init, texts, metas);
      var ki := Kept(init);
      var kh := Kept(hits);
      assert kh[..|ki|] == ki;
      if Collect(init, texts, metas).Err? {
        var j :| 0 <= j < |ki| && Resolve(ki[j], texts, metas).None?;
        assert kh[j] == ki[j];
      } else if h.idx != -1 {
        assert kh == ki + [h];
        if Resolve(h, texts, metas).None? {
          assert kh[|ki|] == h;
        }
      }
    }
  }

  /** With positions drawn from the stored rows and texts and metadata as long
      as the rows, every hit resolves: the loop never raises. */
  lemma CollectTotal(hits: seq<Hit>, texts: seq<string>, metas: seq<Metadata>)
    requires HitsWellFormed(hits, |texts|, |hits|)
    requires |metas| == |texts|
    ensures Collect(hits, texts, metas).Ok?
    ensures |Collect(hits, texts, metas).value| <= |hits|
  {
    CollectMeaning(hits, texts, metas);
    KeptMembers(hits);
    forall j | 0 <= j < |Kept(hits)| ensures Resolve(Kept(hits)[j], texts, metas).Some? {
      assert Kept(hits)[j] in hits;
    }
  }

  /** Once the loop has raised on a prefix, it has raised on the whole. */
  lemma {:induction false} CollectErrSticky(hits: seq<Hit>, i: nat, texts: seq<string>, metas: seq<Metadata>)
    requires i <= |hits|
    requires Collect(hits[..i], texts, metas).Err?
    ensures Collect(hits, texts, metas) == Collect(hits[..i], texts, metas)
    decreases |hits| - i
  {
    if i < |hits| {
      assert hits[..i + 1][..i] == hits[..i];
      CollectErrSticky(hits, i + 1, texts, metas);
    } else {
      assert hits[..i] == hits;
    }
  }

  /** The files on disk: each path holds a faiss index, a pickled store or anything else. */
  datatype Blob =
    | IndexBlob(index: FlatIndex)
    | StoreBlob(texts: seq<string>, metadatas: seq<Metadata>)
    | OtherBlob

  type Disk = map<string, Blob>

  /** The whole state of a loaded store. */
  datatype Snapshot = Snapshot(index: FlatIndex, texts: seq<string>, metadatas: seq<Metadata>)

  /** The parallel-sequence invariant: as many rows, texts and metadatas, every
      row of the index's dimensionality. */
  predicate Consistent(s: Snapshot)
  {
    |s.index.rows| == |s.texts| == |s.metadatas|
    && forall k :: 0 <= k < |s.index.rows| ==> |s.index.rows[k]| == s.index.dim
  }

  /** The disk after `save`: the index written to its path, then the pickled
      texts and metadatas to theirs. */
  function Persisted(disk: Disk, indexPath: string, storePath: string, s: Snapshot): (d: Disk)
    ensures storePath in d && d[storePath] == StoreBlob(s.texts, s.metadatas)
    ensures indexPath != storePath ==> indexPath in d && d[indexPath] == IndexBlob(s.index)
    ensures forall p :: p in disk && p != indexPath && p != storePath ==> p in d && d[p] == disk[p]
  {
    disk[indexPath := IndexBlob(s.index)][storePath := StoreBlob(s.texts, s.metadatas)]
  }

  const StoreMissing := Error(FileNotFoundError, "Index or store file not found.")

  /** What `load` reads back: both files must exist, the first must be a faiss
      index and the second a pickled store. */
  function ReadBack(disk: Disk, indexPath: string, storePath: string): (r: Result<Snapshot, Error>)
    ensures r.Ok? ==> indexPath in disk && storePath in disk
    ensures !(indexPath in disk && storePath in disk) ==> r == Err(StoreMissing)
  {
    if !(indexPath in disk && storePath in disk) then Err(StoreMissing)
    else if !disk[indexPath].IndexBlob? then Err(Error(ReaderError, indexPath))
    else if !disk[storePath].StoreBlob? then Err(Error(ReaderError, storePath))
    else Ok(Snapshot(disk[indexPath].index, disk[storePath].texts, disk[storePath].metadatas))
  }

  /** Saving and loading back through two distinct paths restores the index,
      the texts and the metadatas in the same order. */
  lemma SaveLoadRoundTrip(disk: Disk, indexPath: string, storePath: string, s: Snapshot)
    requires indexPath != storePath
    ensures ReadBack(Persisted(disk, indexPath, storePath, s), indexPath, storePath) == Ok(s)
  {
  }

  /** With one path for both files the pickle overwrites the index, so what was
      saved cannot be loaded back. */
  lemma SaveLoadSamePath(disk: Disk, path: string, s: Snapshot)
    ensures ReadBack(Persisted(disk, path, path, s), path, path) == Err(Error(ReaderError, path))
  {
  }

  /** The store's three fields as one value. */
  datatype StoreState = StoreState(index: Option<FlatIndex>, texts: seq<string>, metadatas: seq<Metadata>)

  /** The parallel-sequence invariant of a store: no entries before there is an
      index, and a consistent snapshot once there is one. */
  predicate Coherent(s: StoreState)
  {
    match s.index
    case None => s.texts == [] && s.metadatas == []
    case Some(ix) => Consistent(Snapshot(ix, s.texts, s.metadatas))
  }

  /** The state after `load`. The index is replaced as soon as its file has
      been read, before the pickle is opened; texts and metadatas are replaced
      only when the pickle could be read too. */
  function Loaded(before: StoreState, disk: Disk, indexPath: string, storePath: string): (after: StoreState)
    ensures ReadBack(disk, indexPath, storePath).Ok? ==>
      var s := ReadBack(disk, indexPath, storePath).value;
      after == StoreState(Some(s.index), s.texts, s.metadatas)
    ensures ReadBack(disk, indexPath, storePath).Err? ==>
      after.texts == before.texts && after.metadatas == before.metadatas
    ensures after.index != before.index ==>
      indexPath in disk && storePath in disk && disk[indexPath].IndexBlob?
      && after.index == Some(disk[indexPath].index)
  {
    if !(indexPath in disk && storePath in disk) || !disk[indexPath].IndexBlob? then before
    else if !disk[storePath].StoreBlob? then before.(index := Some(disk[indexPath].index))
    else StoreState(Some(disk[indexPath].index), disk[storePath].texts, disk[storePath].metadatas)
  }

  /** A successful load replaces the whole state: what was there before does
      not matter, and the result is coherent exactly when the files are. */
  lemma LoadReplacesWholesale(b1: StoreState, b2: StoreState, disk: Disk, indexPath: string, storePath: string)
    requires ReadBack(disk, indexPath, storePath).Ok?
    ensures Loaded(b1, disk, indexPath, storePath) == Loaded(b2, disk, indexPath, storePath)
    ensures Coherent(Loaded(b1, disk, indexPath, storePath)) <==> Consistent(ReadBack(disk, indexPath, storePath).value)
  {
  }

  /** The state after an accepted `add`: the first call creates the index with
      the embeddings' width, and rows, texts and metadatas are appended. */
  function Appended(before: StoreState, e: Embeddings, newTexts: seq<string>, newMetas: seq<Metadata>): StoreState
  {
    var ix := if before.index.Some? then before.index.value else FlatIndex(e.cols, []);
    StoreState(Some(FlatIndex(ix.dim, ix.rows + e.rows)), before.texts + newTexts, before.metadatas + newMetas)
  }

  /** Appending a matrix of the index's width with one text and one metadata
      per row keeps the parallel-sequence invariant, and leaves every earlier
      entry where it was. */
  lemma AppendedCoherent(before: StoreState, e: Embeddings, newTexts: seq<string>, newMetas: seq<Metadata>)
    requires Coherent(before) && Rectangular(e)
    requires |newTexts| == |e.rows| == |newMetas|
    requires before.index.Some? ==> e.cols == before.index.value.dim
    ensures var after := Appended(before, e, newTexts, newMetas);
      Coherent(after)
      && after.texts[..|before.texts|] == before.texts
      && after.metadatas[..|before.metadatas|] == before.metadatas
      && |after.texts| == |before.texts| + |newTexts|
  {
    var after := Appended(before, e, newTexts, newMetas);
    var ix := after.index.value;
    var old_rows := if before.index.Some? then before.index.value.rows else [];
    forall k | 0 <= k < |ix.rows| ensures |ix.rows[k]| == ix.dim {
      if k < |old_rows| {
        assert ix.rows[k] == old_rows[k];
      } else {
        assert ix.rows[k] == e.rows[k - |old_rows|];
      }
    }
  }

  const NotLoaded := Error(AssertionError, "Index not loaded")
  const NotMatrix := Error(AssertionError, "embeddings must be [n, d]")
  const LengthMismatch := Error(AssertionError, "")

  /** What `search` answers for a store in state `s`. */
  function Searched(s: StoreState, q: Vector, k: nat, oracle: Oracle): Result<seq<SearchResult>, Error>
  {
    if s.index.None? then Err(NotLoaded) else Collect(oracle(s.index.value, q, k), s.texts, s.metadatas)
  }

  /** `FaissStore`: the file paths it persists to, the index (None until the
      first `add` or `load`), and the texts and metadatas parallel to its rows. */
  class FaissStore {
    const indexPath: string
    const storePath: string
    var index: Option<FlatIndex>
    var texts: seq<string>
    var metadatas: seq<Metadata>

    /** The parallel-sequence invariant, kept by `add`. `load` does not check
        it, so a store loaded from inconsistent files does not satisfy it. */
    ghost predicate Valid()
      reads this
    {
      Coherent(State())
    }

    function State(): StoreState
      reads this
    {
      StoreState(index, texts, metadatas)
    }

    /** A new store has no index and no entries. */
    constructor (indexPath: string, storePath: string)
      ensures this.indexPath == indexPath && this.storePath == storePath
      ensures index == None && texts == [] && metadatas == []
      ensures Valid()
    {
      this.indexPath := indexPath;
      this.storePath := storePath;
      index := None;
      texts := [];
      metadatas := [];
    }

    /** Creates an empty index of dimensionality `dim` unless there is one already. */
    method EnsureIndex(dim: nat)
      modifies this
      ensures index == if old(index).None? then Some(FlatIndex(dim, [])) else old(index)
      ensures texts == old(texts) && metadatas == old(metadatas)
    {
      if index.None? {
        index := Some(FlatIndex(dim, []));
      }
    }

    /** Appends one row, text and metadata per embedding. The shape checks come
        before any change, so a rejected call leaves the store as it was; the
        first accepted call fixes the dimensionality. */
    method Add(e: Embeddings, newTexts: seq<string>, newMetas: seq<Metadata>) returns (r: Outcome)
      requires e.ndim == 2 ==> Rectangular(e)
      requires index.Some? && e.ndim == 2 && |newTexts| == |e.rows| == |newMetas|
               ==> e.cols == index.value.dim
      modifies this
      ensures e.ndim != 2 ==> r == Fail(NotMatrix)
      ensures e.ndim == 2 && !(|newTexts| == |e.rows| == |newMetas|) ==> r == Fail(LengthMismatch)
      ensures r.Pass? <==> e.ndim == 2 && |newTexts| == |e.rows| == |newMetas|
      ensures r.Fail? ==> index == old(index) && texts == old(texts) && metadatas == old(metadatas)
      ensures r.Pass? ==>
        index.Some? &&
        index.value.dim == (if old(index).Some? then old(index).value.dim else e.cols) &&
        index.value.rows == (if old(index).Some? then old(index).value.rows else []) + e.rows &&
        texts == old(texts) + newTexts &&
        metadatas == old(metadatas) + newMetas
      ensures r.Pass? ==> State() == Appended(old(State()), e, newTexts, newMetas)
      ensures old(Valid()) ==> Valid()
    {
      if e.ndim != 2 {
        return Fail(NotMatrix);
      }
      if !(|newTexts| == |e.rows| == |newMetas|) {
        return Fail(LengthMismatch);
      }
      EnsureIndex(e.cols);
      var ix := index.value;
      index := Some(FlatIndex(ix.dim, ix.rows + e.rows));
      texts := texts + newTexts;
      metadatas := metadatas + newMetas;
      r := Pass;
    }

    /** Writes the index, then the texts and metadatas, to the store's two paths. */
    method Save(disk: Disk) returns (saved: Disk)
      requires index.Some?
      ensures saved == Persisted(disk, indexPath, storePath, Snapshot(index.value, texts, metadatas))
    {
      saved := disk[indexPath := IndexBlob(index.value)];
      saved := saved[storePath := StoreBlob(texts, metadatas)];
    }

    /** Replaces the whole state with what is on disk. Both files must exist;
        the index is replaced before the pickle is read, so a bad pickle leaves
        the new index beside the old texts and metadatas. */
    method Load(disk: Disk) returns (r: Outcome)
      modifies this
      ensures r.Pass? <==> ReadBack(disk, indexPath, storePath).Ok?
      ensures r.Fail? ==> r.error == ReadBack(disk, indexPath, storePath).error
      ensures State() == Loaded(old(State()), disk, indexPath, storePath)
      ensures r.Pass? ==> (Valid() <==> Consistent(ReadBack(disk, indexPath, storePath).value))
    {
      if !(indexPath in disk && storePath in disk) {
        return Fail(StoreMissing);
      }
      if !disk[indexPath].IndexBlob? {
        return Fail(Error(ReaderError, indexPath));
      }
      index := Some(disk[indexPath].index);
      if !disk[storePath].StoreBlob? {
        return Fail(Error(ReaderError, storePath));
      }
      texts := disk[storePath].texts;
      metadatas := disk[storePath].metadatas;
      r := Pass;
    }

    /** Turns the oracle's raw hits into result records, skipping padding; the
        store is only read. */
    method Search(q: Vector, k: nat := 5, oracle: Oracle) returns (r: Result<seq<SearchResult>, Error>)
      requires SoundOracle(oracle)
      ensures index.None? ==> r == Err(NotLoaded)
      ensures index.Some? ==> r == Collect(oracle(index.value, q, k), texts, metadatas)
      ensures r.Ok? ==> |r.value| <= k
      ensures Valid() && index.Some? ==> r.Ok?
      ensures r == Searched(State(), q, k, oracle)
    {
      if index.None? {
        return Err(NotLoaded);
      }
      var hits := oracle(index.value, q, k);
      var results: seq<SearchResult> := [];
      var i := 0;
      while i < |hits|
        invariant 0 <= i <= |hits|
        invariant Collect(hits[..i], texts, metadatas) == Ok(results)
      {
        var h := hits[i];
        assert hits[..i + 1][..i] == hits[..i];
        if h.idx != -1 {
          var t := PyAt(texts, h.idx);
          var m := PyAt(metadatas, h.idx);
          if t.None? || m.None? {
            CollectErrSticky(hits, i + 1, texts, metadatas);
            return Err(IndexOutOfRange);
          }
          results := results + [SearchResult(t.value, m.value, h.score)];
        }
        i := i + 1;
      }
      assert hits[..i] == hits;
      r := Ok(results);
      CollectMeaning(hits, texts, metadatas);
      KeptMembers(hits);
      if Valid() {
        CollectTotal(hits, texts, metadatas);
      }
    }
  }
}
