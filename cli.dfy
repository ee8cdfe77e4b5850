/** The ingestion command (ingest/cli.py): find the supported files under a
    path, load and chunk each one, then embed every chunk in one batch, append
    them to the store and save it, and optionally try a query. The filesystem,
    the document readers, the chunker and the embedding model are inputs. */
module Cli {
  import opened Common
  import opened Text
  import opened Indexer
  import opened Loaders

  /** A filesystem entry: a plain file, or a directory with everything below it
      (files and directories, as full paths) in the recursive walk's order. */
  datatype FsEntry = RegularFile | Directory(tree: seq<string>)

  type FileSystem = map<string, FsEntry>

  /** The glob patterns of the directory scan, `*.pdf` … `*.md`, by their extension. */
  const Globs: seq<string> := [".pdf", ".docx", ".pptx", ".ppt", ".txt", ".md"]

  /** What `rglob("*" + ext)` yields: the entries whose name ends with `ext`,
      in walk order. The match is case-sensitive. */
  function Matching(tree: seq<string>, ext: string): seq<string>
    decreases |tree|
  {
    if |tree| == 0 then []
    else
      var f := tree[|tree| - 1];
      Matching(tree[..|tree| - 1], ext) + (if EndsWith(Name(f), ext) then [f] else [])
  }

  /** The scan from the `e`-th pattern on: each pattern's matches, pattern by pattern. */
  function ScanFrom(tree: seq<string>, e: nat): seq<string>
    decreases |Globs| - e
  {
    if e >= |Globs| then [] else Matching(tree, Globs[e]) + ScanFrom(tree, e + 1)
  }

  const PathMissing := "Path not found: "

  /** `iter_supported_files`: a directory is scanned pattern by pattern, any
      other existing path is yielded as it is, a missing one is an error. */
  function IterSupportedFiles(path: string, fs: FileSystem): (r: Result<seq<string>, Error>)
    ensures r.Err? <==> path !in fs
    ensures r.Err? ==> r.error.kind == FileNotFoundError
  {
    if path in fs && fs[path].Directory? then Ok(ScanFrom(fs[path].tree, 0))
    else if path in fs then Ok([path])
    else Err(Error(FileNotFoundError, PathMissing + path))
  }

  /** The position of the pattern a name matches, or |Globs| when it matches none. */
  function GlobRank(name: string, e: nat): (g: nat)
    requires e <= |Globs|
    ensures e <= g <= |Globs|
    ensures g < |Globs| ==> EndsWith(name, Globs[g])
    decreases |Globs| - e
  {
    if e == |Globs| then e else if EndsWith(name, Globs[e]) then e else GlobRank(name, e + 1)
  }

  /** The pattern a name's last two characters select, if any. */
  function TailRank(c1: char, c2: char): (g: nat)
    ensures g <= |Globs|
  {
    match (c1, c2)
    case ('d', 'f') => 0
    case ('c', 'x') => 1
    case ('t', 'x') => 2
    case ('p', 't') => 3
    case ('x', 't') => 4
    case ('m', 'd') => 5
    case _ => |Globs|
  }

  /** Each pattern is told apart from the others by its last two characters. */
  lemma TailRankOfGlob(e: nat)
    requires e < |Globs|
    ensures |Globs[e]| >= 2 && TailRank(Globs[e][|Globs[e]| - 2], Globs[e][|Globs[e]| - 1]) == e
  {
    if e == 0 { assert Globs[e] == ".pdf"; }
    else if e == 1 { assert Globs[e] == ".docx"; }
    else if e == 2 { assert Globs[e] == ".pptx"; }
    else if e == 3 { assert Globs[e] == ".ppt"; }
    else if e == 4 { assert Globs[e] == ".txt"; }
    else { assert Globs[e] == ".md"; }
  }

  /** Every pattern is a dot and at least one more character, none a dot. */
  lemma GlobsAreExtensions(g: nat)
    requires g < |Globs|
    ensures |Globs[g]| >= 2 && Globs[g][0] == '.' && '.' !in Globs[g][1..]
    ensures Lower(Globs[g]) == Globs[g]
  {
  }

  /** Every pattern's extension is one `load_documents` dispatches on. */
  lemma GlobsSupported(g: nat)
    requires g < |Globs|
    ensures FormatOf(Globs[g]).Ok?
  {
  }

  /** What the scan finds, `load_documents` accepts: a name ending with a
      pattern and longer than it has that pattern as its suffix, so a loader is
      found. */
  lemma SuffixOfGlob(p: string, g: nat)
    requires g < |Globs| && EndsWith(Name(p), Globs[g]) && |Name(p)| > |Globs[g]|
    ensures Suffix(p) == Globs[g]
    ensures LoaderFor(p).Ok?
  {
    GlobsAreExtensions(g);
    NameSuffixOf(Name(p), Globs[g]);
    GlobsSupported(g);
    assert LoaderFor(p) == FormatOf(Globs[g]);
  }

  /** A file named just `.pdf` (or any other pattern) is found by the scan,
      but pathlib gives it no suffix, so `load_documents` rejects it. */
  lemma BareGlobUnsupported(p: string, g: nat)
    requires g < |Globs| && Name(p) == Globs[g]
    ensures LoaderFor(p) == Err(Error(ValueError, "Unsupported file type: "))
  {
    GlobsAreExtensions(g);
    BareExtensionNoSuffix(Globs[g]);
    NoSuffixUnsupported(p);
  }

  /** No name matches two of the patterns: their last two characters differ. */
  lemma GlobsExclusive(name: string, a: nat, b: nat)
    requires a < |Globs| && b < |Globs|
    requires EndsWith(name, Globs[a]) && EndsWith(name, Globs[b])
    ensures a == b
  {
    TailRankOfGlob(a);
    TailRankOfGlob(b);
    var n := |name|;
    var x, y := Globs[a], Globs[b];
    assert name[n - 1] == x[|x| - 1] == y[|y| - 1];
    assert name[n - 2] == x[|x| - 2] == y[|y| - 2];
  }

  lemma GlobRankOf(name: string, e: nat, g: nat)
    requires e <= g < |Globs| && EndsWith(name, Globs[g])
    ensures GlobRank(name, e) == g
    decreases |Globs| - e
  {
    if e < g {
      if EndsWith(name, Globs[e]) { GlobsExclusive(name, e, g); }
      GlobRankOf(name, e + 1, g);
    }
  }

  /** The matches of one pattern are exactly the entries whose name ends with it. */
  lemma {:induction false} MatchingMembers(tree: seq<string>, ext: string)
    ensures forall f :: f in Matching(tree, ext) <==> f in tree && EndsWith(Name(f), ext)
    decreases |tree|
  {
    if |tree| > 0 {
      MatchingMembers(tree[..|tree| - 1], ext);
      assert tree == tree[..|tree| - 1] + [tree[|tree| - 1]];
    }
  }

  /** The scan from pattern e on yields exactly the entries whose name matches
      one of those patterns. */
  lemma {:induction false} ScanFromMembers(tree: seq<string>, e: nat)
    requires e <= |Globs|
    ensures forall f :: f in ScanFrom(tree, e) <==> f in tree && GlobRank(Name(f), e) < |Globs|
    decreases |Globs| - e
  {
    if e < |Globs| {
      ScanFromMembers(tree, e + 1);
      MatchingMembers(tree, Globs[e]);
      forall f ensures f in ScanFrom(tree, e) <==> f in tree && GlobRank(Name(f), e) < |Globs| {
        if !EndsWith(Name(f), Globs[e]) {
          assert GlobRank(Name(f), e) == GlobRank(Name(f), e + 1);
        }
      }
    }
  }

  /** The scan is grouped by pattern, in the fixed order of the patterns. */
  lemma ScanOrder(tree: seq<string>)
    ensures ScanFrom(tree, 0)
         == Matching(tree, ".pdf") + (Matching(tree, ".docx") + (Matching(tree, ".pptx")
          + (Matching(tree, ".ppt") + (Matching(tree, ".txt") + Matching(tree, ".md")))))
  {
    assert Globs[0] == ".pdf" && Globs[1] == ".docx" && Globs[2] == ".pptx";
    assert Globs[3] == ".ppt" && Globs[4] == ".txt" && Globs[5] == ".md";
    var s5 := ScanFrom(tree, 5);
    assert s5 == Matching(tree, ".md") + ScanFrom(tree, 6);
    var s4 := ScanFrom(tree, 4);
    assert s4 == Matching(tree, ".txt") + s5;
    var s3 := ScanFrom(tree, 3);
    assert s3 == Matching(tree, ".ppt") + s4;
    var s2 := ScanFrom(tree, 2);
    assert s2 == Matching(tree, ".pptx") + s3;
    var s1 := ScanFrom(tree, 1);
    assert s1 == Matching(tree, ".docx") + s2;
    assert ScanFrom(tree, 0) == Matching(tree, ".pdf") + s1;
  }

  lemma IterSupportedFilesMeaning(path: string, fs: FileSystem)
    ensures path !in fs ==> IterSupportedFiles(path, fs) == Err(Error(FileNotFoundError, PathMissing + path))
    ensures path in fs && fs[path].RegularFile? ==> IterSupportedFiles(path, fs) == Ok([path])
    ensures path in fs && fs[path].Directory? ==>
      var files := IterSupportedFiles(path, fs).value;
      var tree := fs[path].tree;
      (forall f :: f in files <==> f in tree && exists g :: 0 <= g < |Globs| && EndsWith(Name(f), Globs[g]))
      && files == Matching(tree, ".pdf") + (Matching(tree, ".docx") + (Matching(tree, ".pptx")
                + (Matching(tree, ".ppt") + (Matching(tree, ".txt") + Matching(tree, ".md")))))
  {
    if path in fs && fs[path].Directory? {
      var tree := fs[path].tree;
      ScanFromMembers(tree, 0);
      ScanOrder(tree);
      forall f | f in tree
        ensures GlobRank(Name(f), 0) < |Globs| <==> exists g :: 0 <= g < |Globs| && EndsWith(Name(f), Globs[g])
      {
        if exists g :: 0 <= g < |Globs| && EndsWith(Name(f), Globs[g]) {
          var g :| 0 <= g < |Globs| && EndsWith(Name(f), Globs[g]);
          GlobRankOf(Name(f), 0, g);
        }
      }
    }
  }

  /** `[c.page_content for c in chunks]`. */
  function Texts(chunks: seq<Document>): (r: seq<string>)
    ensures |r| == |chunks|
    ensures forall k :: 0 <= k < |chunks| ==> r[k] == chunks[k].content
  {
    seq(|chunks|, k requires 0 <= k < |chunks| => chunks[k].content)
  }

  /** `[c.metadata for c in chunks]`. */
  function Metas(chunks: seq<Document>): (r: seq<Metadata>)
    ensures |r| == |chunks|
    ensures forall k :: 0 <= k < |chunks| ==> r[k] == chunks[k].metadata
  {
    seq(|chunks|, k requires 0 <= k < |chunks| => chunks[k].metadata)
  }

  /** Loading one file: `load_documents` with the foreign readers bound. */
  type Load = string -> Result<seq<Document>, Error>
  type Chunker = seq<Document> -> seq<Document>

  /** The chunks of the files, in file order and within a file in the chunker's
      order; the first file whose loading raises ends it with that error. */
  function Gather(files: seq<string>, load: Load, chunk: Chunker): Result<seq<Document>, Error>
    decreases |files|
  {
    if |files| == 0 then Ok([])
    else Step(Gather(files[..|files| - 1], load, chunk), load(files[|files| - 1]), chunk)
  }

  /** One turn of the file loop: the chunks of one more loaded file after the chunks so far. */
  function Step(acc: Result<seq<Document>, Error>, loaded: Result<seq<Document>, Error>, chunk: Chunker)
    : Result<seq<Document>, Error>
  {
    match acc
    case Err(e) => Err(e)
    case Ok(prev) =>
      match loaded
      case Err(e) => Err(e)
      case Ok(docs) => Ok(prev + chunk(docs))
  }

  /** Gathering two runs of files one after the other is gathering them
      together: chunk order is file order, and the first failure wins. */
  lemma {:induction false} GatherAppend(a: seq<string>, b: seq<string>, load: Load, chunk: Chunker)
    ensures Gather(a, load, chunk).Err? ==> Gather(a + b, load, chunk) == Gather(a, load, chunk)
    ensures Gather(a, load, chunk).Ok? && Gather(b, load, chunk).Err? ==>
      Gather(a + b, load, chunk) == Gather(b, load, chunk)
    ensures Gather(a, load, chunk).Ok? && Gather(b, load, chunk).Ok? ==>
      Gather(a + b, load, chunk) == Ok(Gather(a, load, chunk).value + Gather(b, load, chunk).value)
    decreases |b|
  {
    if |b| == 0 {
      assert a + b == a;
      assert Gather(b, load, chunk) == Ok([]);
      if Gather(a, load, chunk).Ok? {
        assert Gather(a, load, chunk).value + [] == Gather(a, load, chunk).value;
      }
    } else {
      var b', f := b[..|b| - 1], b[|b| - 1];
      var ab := a + b;
      assert ab[..|ab| - 1] == a + b';
      assert ab[|ab| - 1] == f;
      GatherAppend(a, b', load, chunk);
      var ga, gb' := Gather(a, load, chunk), Gather(b', load, chunk);
      if ga.Ok? && gb'.Ok? && load(f).Ok? {
        assert ga.value + gb'.value + chunk(load(f).value) == ga.value + (gb'.value + chunk(load(f).value));
      }
    }
  }

  /** One file contributes the chunker's output for its documents. */
  lemma GatherOne(f: string, load: Load, chunk: Chunker)
    ensures Gather([f], load, chunk) ==
      match load(f)
      case Ok(docs) => Ok(chunk(docs))
      case Err(e) => Err(e)
  {
    assert [f][..0] == [];
    if load(f).Ok? {
      assert [] + chunk(load(f).value) == chunk(load(f).value);
    }
  }

  lemma GatherErrSticky(files: seq<string>, i: nat, load: Load, chunk: Chunker)
    requires i <= |files|
    requires Gather(files[..i], load, chunk).Err?
    ensures Gather(files, load, chunk) == Gather(files[..i], load, chunk)
  {
    GatherAppend(files[..i], files[i..], load, chunk);
    assert files[..i] + files[i..] == files;
  }

  /** `load_documents` with the foreign readers bound. */
  function Loader(readers: Readers): Load
  {
    f => LoadDocuments(f, readers)
  }

  /** What the file loop accumulates: texts, metadatas and the chunk counter. */
  datatype Batch = Batch(texts: seq<string>, metas: seq<Metadata>, total: nat)

  /** The file loop of `main`: for each file, load it, chunk it, and extend the
      texts and metadatas in lockstep while counting the chunks. */
  method ChunkFiles(files: seq<string>, load: Load, chunk: Chunker) returns (r: Result<Batch, Error>)
    ensures Gather(files, load, chunk).Err? ==> r == Err(Gather(files, load, chunk).error)
    ensures Gather(files, load, chunk).Ok? ==>
      var g := Gather(files, load, chunk).value;
      r == Ok(Batch(Texts(g), Metas(g), |g|))
  {
    var totalChunks := 0;
    var texts: seq<string> := [];
    var metas: seq<Metadata> := [];
    ghost var gathered: seq<Document> := [];
    var i := 0;
    while i < |files|
      invariant 0 <= i <= |files|
      invariant Gather(files[..i], load, chunk) == Ok(gathered)
      invariant texts == Texts(gathered) && metas == Metas(gathered) && totalChunks == |gathered|
    {
      assert files[..i + 1][..i] == files[..i];
      var docs := load(files[i]);
      if docs.Err? {
        GatherErrSticky(files, i + 1, load, chunk);
        return Err(docs.error);
      }
      var chunks := chunk(docs.value);
      texts := texts + Texts(chunks);
      metas := metas + Metas(chunks);
      totalChunks := totalChunks + |chunks|;
      gathered := gathered + chunks;
      assert texts == Texts(gathered);
      assert metas == Metas(gathered);
      i := i + 1;
    }
    assert files[..i] == files;
    r := Ok(Batch(texts, metas, totalChunks));
  }

  /** The command's options that the flow depends on. */
  datatype IngestArgs = IngestArgs(path: string, startFresh: bool, query: Option<string>, k: nat)

  /** How a run ends when nothing raises: nothing found, or the number of chunks
      indexed and, when a query was given, its results. */
  datatype IngestReport = NothingFound | Indexed(total: nat, queryResults: Option<seq<SearchResult>>)

  /** A whole run: its outcome, the store's state afterwards and the disk. */
  datatype IngestRun = IngestRun(result: Result<IngestReport, Error>, after: StoreState, saved: Disk)

  /** The embedding model: a matrix with one row per text, of one fixed width. */
  ghost predicate EmbedderSound(embed: seq<string> -> Embeddings, dim: nat)
  {
    forall ts :: embed(ts).ndim == 2 && |embed(ts).rows| == |ts| && embed(ts).cols == dim && Rectangular(embed(ts))
  }

  /** Whether the run starts by loading the existing store. */
  predicate LoadsExisting(args: IngestArgs, disk: Disk, indexPath: string, storePath: string)
  {
    !args.startFresh && indexPath in disk && storePath in disk
  }

  /** Whether the run ends with a query (an empty query string is falsy). */
  predicate Queries(args: IngestArgs)
  {
    args.query.Some? && args.query.value != ""
  }

  /** The store's state once the optional load is done. */
  function Opened(args: IngestArgs, disk: Disk, indexPath: string, storePath: string, before: StoreState): StoreState
  {
    if LoadsExisting(args, disk, indexPath, storePath) then Loaded(before, disk, indexPath, storePath) else before
  }

  /** What a run of `main` does, step by step: optional load, file loop, then,
      only when chunks were found, one embedding call, `add`, `save` and the
      optional query against the saved store. */
  function IngestSpec(args: IngestArgs, fs: FileSystem, disk: Disk, indexPath: string, storePath: string,
                      before: StoreState, load: Load, chunk: Chunker,
                      embed: seq<string> -> Embeddings, embedQuery: string -> Vector, oracle: Oracle): IngestRun
  {
    var opening := Opened(args, disk, indexPath, storePath, before);
    var read := ReadBack(disk, indexPath, storePath);
    if LoadsExisting(args, disk, indexPath, storePath) && read.Err? then IngestRun(Err(read.error), opening, disk)
    else match IterSupportedFiles(args.path, fs)
      case Err(e) => IngestRun(Err(e), opening, disk)
      case Ok(files) =>
        match Gather(files, load, chunk)
        case Err(e) => IngestRun(Err(e), opening, disk)
        case Ok(chunks) =>
          if chunks == [] then IngestRun(Ok(NothingFound), opening, disk)
          else Indexing(args, disk, indexPath, storePath, opening, chunks, embed, embedQuery, oracle)
  }

  /** The part of a run after chunks were found: embed, add, save, then query. */
  function Indexing(args: IngestArgs, disk: Disk, indexPath: string, storePath: string, opening: StoreState,
                    chunks: seq<Document>, embed: seq<string> -> Embeddings, embedQuery: string -> Vector,
                    oracle: Oracle): (run: IngestRun)
    ensures run.after == Appended(opening, embed(Texts(chunks)), Texts(chunks), Metas(chunks))
    ensures run.saved == Persisted(disk, indexPath, storePath,
                                   Snapshot(run.after.index.value, run.after.texts, run.after.metadatas))
    ensures run.result.Ok? ==> run.result.value.Indexed? && run.result.value.total == |chunks|
    ensures run.result.Ok? ==> (run.result.value.queryResults.Some? <==> Queries(args))
    ensures run.result.Err? ==> Queries(args)
  {
    var added := Appended(opening, embed(Texts(chunks)), Texts(chunks), Metas(chunks));
    var saved := Persisted(disk, indexPath, storePath, Snapshot(added.index.value, added.texts, added.metadatas));
    if !Queries(args) then IngestRun(Ok(Indexed(|chunks|, None)), added, saved)
    else
      match Collect(oracle(added.index.value, embedQuery(args.query.value), args.k), added.texts, added.metadatas)
      case Err(e) => IngestRun(Err(e), added, saved)
      case Ok(results) => IngestRun(Ok(Indexed(|chunks|, Some(results))), added, saved)
  }

  /** The flow of `main` after argument parsing. */
  method Ingest(store: FaissStore, args: IngestArgs, fs: FileSystem, disk: Disk, readers: Readers,
                chunk: Chunker, embed: seq<string> -> Embeddings, embedQuery: string -> Vector, ghost dim: nat,
                oracle: Oracle)
    returns (r: Result<IngestReport, Error>, saved: Disk)
    requires EmbedderSound(embed, dim) && SoundOracle(oracle)
    requires store.index.Some? ==> store.index.value.dim == dim
    requires LoadsExisting(args, disk, store.indexPath, store.storePath) && disk[store.indexPath].IndexBlob?
             && disk[store.storePath].StoreBlob?
             && IterSupportedFiles(args.path, fs).Ok?
             && Gather(IterSupportedFiles(args.path, fs).value, Loader(readers), chunk).Ok?
             && Gather(IterSupportedFiles(args.path, fs).value, Loader(readers), chunk).value != []
             ==> disk[store.indexPath].index.dim == dim
    modifies store
    ensures IngestRun(r, store.State(), saved)
         == IngestSpec(args, fs, disk, store.indexPath, store.storePath, old(store.State()),
                       Loader(readers), chunk, embed, embedQuery, oracle)
  {
    if LoadsExisting(args, disk, store.indexPath, store.storePath) {
      var loaded := store.Load(disk);
      if loaded.Fail? {
        return Err(loaded.error), disk;
      }
    }
    var found := IterSupportedFiles(args.path, fs);
    if found.Err? {
      return Err(found.error), disk;
    }
    var batch := ChunkFiles(found.value, Loader(readers), chunk);
    if batch.Err? {
      return Err(batch.error), disk;
    }
    if batch.value.total == 0 {
      return Ok(NothingFound), disk;
    }
    ghost var chunks := Gather(found.value, Loader(readers), chunk).value;
    r, saved := IndexChunks(store, args, disk, batch.value, chunks, embed, embedQuery, dim, oracle);
  }

  /** The end of `main` once chunks were found: embed every text in one call,
      add, save, then run the optional query against the saved store. */
  method IndexChunks(store: FaissStore, args: IngestArgs, disk: Disk, batch: Batch, ghost chunks: seq<Document>,
                     embed: seq<string> -> Embeddings, embedQuery: string -> Vector, ghost dim: nat, oracle: Oracle)
    returns (r: Result<IngestReport, Error>, saved: Disk)
    requires EmbedderSound(embed, dim) && SoundOracle(oracle)
    requires store.index.Some? ==> store.index.value.dim == dim
    requires batch == Batch(Texts(chunks), Metas(chunks), |chunks|) && chunks != []
    modifies store
    ensures IngestRun(r, store.State(), saved)
         == Indexing(args, disk, store.indexPath, store.storePath, old(store.State()), chunks, embed, embedQuery, oracle)
  {
    var vectors := embed(batch.texts);
    var added := store.Add(vectors, batch.texts, batch.metas);
    saved := store.Save(disk);
    if Queries(args) {
      var queryVector := embedQuery(args.query.value);
      var results := store.Search(queryVector, args.k, oracle);
      if results.Err? {
        return Err(results.error), saved;
      }
      return Ok(Indexed(batch.total, Some(results.value))), saved;
    }
    r := Ok(Indexed(batch.total, None));
  }

  /** With no chunks found, nothing is embedded, added or saved: the disk is as
      it was and the store is as the optional load left it. */
  lemma NothingFoundChangesNothing(args: IngestArgs, fs: FileSystem, disk: Disk, indexPath: string, storePath: string,
                                   before: StoreState, load: Load, chunk: Chunker,
                                   embed: seq<string> -> Embeddings, embedQuery: string -> Vector, oracle: Oracle)
    requires IterSupportedFiles(args.path, fs).Ok?
    requires Gather(IterSupportedFiles(args.path, fs).value, load, chunk) == Ok([])
    requires !LoadsExisting(args, disk, indexPath, storePath) || ReadBack(disk, indexPath, storePath).Ok?
    ensures var run := IngestSpec(args, fs, disk, indexPath, storePath, before, load, chunk, embed, embedQuery, oracle);
      run.result == Ok(NothingFound) && run.saved == disk
      && run.after == Opened(args, disk, indexPath, storePath, before)
  {
  }

  /** A run that indexes chunks appends their texts and metadatas, in gathered
      order, in lockstep, after what the store held once opening; reports their
      number; and saves exactly the resulting state. A fresh run ignores the
      files on disk. */
  lemma IndexedRunAppends(args: IngestArgs, fs: FileSystem, disk: Disk, indexPath: string, storePath: string,
                          before: StoreState, load: Load, chunk: Chunker,
                          embed: seq<string> -> Embeddings, embedQuery: string -> Vector, oracle: Oracle)
    requires indexPath != storePath
    ensures var run := IngestSpec(args, fs, disk, indexPath, storePath, before, load, chunk, embed, embedQuery, oracle);
      var opening := Opened(args, disk, indexPath, storePath, before);
      run.result.Ok? && run.result.value.Indexed? ==>
        var chunks := Gather(IterSupportedFiles(args.path, fs).value, load, chunk).value;
        run.result.value.total == |chunks| > 0
        && run.after.texts == opening.texts + Texts(chunks)
        && run.after.metadatas == opening.metadatas + Metas(chunks)
        && |run.after.texts| - |opening.texts| == |run.after.metadatas| - |opening.metadatas| == |chunks|
        && run.after.index.Some?
        && ReadBack(run.saved, indexPath, storePath)
           == Ok(Snapshot(run.after.index.value, run.after.texts, run.after.metadatas))
    ensures args.startFresh ==> Opened(args, disk, indexPath, storePath, before) == before
  {
    var run := IngestSpec(args, fs, disk, indexPath, storePath, before, load, chunk, embed, embedQuery, oracle);
    if run.result.Ok? && run.result.value.Indexed? {
      var opening := Opened(args, disk, indexPath, storePath, before);
      var chunks := Gather(IterSupportedFiles(args.path, fs).value, load, chunk).value;
      var added := Appended(opening, embed(Texts(chunks)), Texts(chunks), Metas(chunks));
      assert run.after == added;
      SaveLoadRoundTrip(disk, indexPath, storePath, Snapshot(added.index.value, added.texts, added.metadatas));
    }
  }

  /** How a metadata value is printed. */
  function Show(v: Scalar): string
  {
    match v
    case Str(s) => s
    case Int(i) => IntToString(i)
  }

  /** `meta.get("page") or meta.get("slide")`. */
  function Location(meta: Metadata): Option<Scalar>
  {
    if Truthy(Get(meta, "page")) then Get(meta, "page") else Get(meta, "slide")
  }

  /** The location suffix printed after a result's source. */
  function LocationLabel(meta: Metadata): string
  {
    var loc := Location(meta);
    if Truthy(loc) then " (page " + Show(loc.value) + ")" else ""
  }

  /** The label shows the page when it is truthy, otherwise the slide when that
      is truthy, and is empty when neither is. */
  lemma LocationLabelMeaning(meta: Metadata)
    ensures LocationLabel(meta) == "" <==> !Truthy(Get(meta, "page")) && !Truthy(Get(meta, "slide"))
    ensures Truthy(Get(meta, "page")) ==> LocationLabel(meta) == " (page " + Show(meta["page"]) + ")"
    ensures !Truthy(Get(meta, "page")) && Truthy(Get(meta, "slide")) ==>
      LocationLabel(meta) == " (page " + Show(meta["slide"]) + ")"
  {
  }

  /** A falsy page such as 0 falls through to the slide, and with no slide the
      result gets no location label at all. */
  lemma PageZeroUnlabelled(source: string)
    ensures LocationLabel(map["source" := Str(source), "page" := Int(0)]) == ""
  {
    var meta := map["source" := Str(source), "page" := Int(0)];
    assert Get(meta, "slide") == None;
  }

  /** Every document of a slide deck is labelled with its slide number. */
  lemma SlideDocsLabelled(path: string, deck: seq<Slide>, j: int)
    requires 0 <= j < |SlideDocs(path, deck)|
    ensures var d := SlideDocs(path, deck)[j];
      LocationLabel(d.metadata) == " (page " + IntToString(SlideOf(d)) + ")"
  {
    SlideDocsFromSlides(path, deck);
    var d := SlideDocs(path, deck)[j];
    assert Get(d.metadata, "page") == None;
  }

  /** `meta.get("source", "?")`, as printed. */
  function SourceLabel(meta: Metadata): string
  {
    if "source" in meta then Show(meta["source"]) else "?"
  }

  /** One printed query result: its 1-based rank, score, source, location and
      the first 300 characters of its text. */
  datatype ResultLine = ResultLine(rank: nat, score: real, source: string, location: string, snippet: string)

  function Describe(results: seq<SearchResult>): (lines: seq<ResultLine>)
    ensures |lines| == |results|
    ensures forall i :: 0 <= i < |lines| ==>
      lines[i].rank == i + 1 && lines[i].score == results[i].score
      && lines[i].source == SourceLabel(results[i].metadata)
      && lines[i].location == LocationLabel(results[i].metadata)
      && |lines[i].snippet| <= 300 && lines[i].snippet <= results[i].text
      && (|results[i].text| <= 300 ==> lines[i].snippet == results[i].text)
      && (|results[i].text| > 300 ==> lines[i].snippet == results[i].text[..300])
  {
    seq(|results|, i requires 0 <= i < |results| =>
      var t := results[i].text;
      ResultLine(i + 1, results[i].score, SourceLabel(results[i].metadata), LocationLabel(results[i].metadata),
                 if |t| <= 300 then t else t[..300]))
  }
}
