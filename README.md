# Personal knowledge assistant — a verified model of its retrieval core

The assistant ingests documents (PDF, Word, PowerPoint, text and Markdown),
splits them into chunks, embeds the chunks and keeps them in a FAISS
inner-product index with the chunk texts and metadata beside it. An HTTP
backend then answers questions: it embeds the question, searches the index
and hands the matching texts to a language model.

This project models the bookkeeping that the repository wraps around those
libraries:

- `common.dfy` (`Common`): the documents and metadata passed between the
  stages. It also names the Python exceptions the code raises, as an error
  kind plus the `str(e)` message.
- `text.dfy` (`Text`): the Python string and path primitives the code relies
  on. These are `str.strip` with Python's whitespace set, `str.join`,
  `str.lower`, `str.rfind`, `PurePath.name`/`suffix` and `str(int)`.
- `indexer.dfy` (`Indexer`): `FaissStore` as a class with the fields `index`,
  `texts` and `metadatas`. The faiss index is a value holding its
  dimensionality and rows. Its nearest-neighbour search is an oracle that
  returns `k` hits, each a row position or the padding value -1. The disk is a
  map from path to file contents.
- `loaders.dfy` (`Loaders`): choosing a loader by the lower-cased suffix, and
  the slide-text assembly of `_load_pptx` as a method with nested loops. The
  method is proved equal to a specification function. The PDF, Word, text and
  presentation readers are parameters.
- `cli.dfy` (`Cli`): `iter_supported_files` over an abstract filesystem, and
  the flow of `main` after argument parsing as a method. That method is proved
  equal to a step-by-step specification `IngestSpec`. The method covers the
  optional load, the file loop, then embed, `add`, `save` and the optional
  query. The printed labels of query results are modelled too.
- `api.dfy` (`Api`): the response logic of `query_rag` as a pure function over
  the store's state, plus `/health`.

The embedder, the chunker and the language model are parameters (function
values). The filesystem and the disk are values passed in and returned.

## Model

| member | source | states |
|---|---|---|
| Common.Get | ingest/cli.py:104-105 | `meta.get(key)` is present exactly when the key is, with the stored value |
| Text.TrimStart | ingest/loaders.py:20 | `lstrip` never lengthens its input |
| Text.TrimStartMeaning | ingest/loaders.py:20 | `lstrip` keeps a suffix of its input, drops only whitespace, and the result does not start with whitespace |
| Text.TrimEnd | ingest/loaders.py:20 | `rstrip` never lengthens its input |
| Text.TrimEndMeaning | ingest/loaders.py:20 | `rstrip` keeps a prefix of its input, drops only whitespace, and the result does not end with whitespace |
| Text.StripSlice | ingest/loaders.py:20 | `strip` returns a slice of its input with only whitespace before and after it |
| Text.Strip | ingest/loaders.py:20 | `str.strip` as `rstrip` after `lstrip`; defined here, its meaning is stated by `StripSlice`, `StripEdges` and `StripEmptyIff` |
| Text.StripEdges | ingest/loaders.py:20 | what `strip` returns neither starts nor ends with whitespace |
| Text.StripEmptyIff | ingest/loaders.py:20 | a string strips to empty exactly when it is all whitespace |
| Text.Join | ingest/loaders.py:20 | `sep.join(parts)`: the parts with the separator between consecutive ones; defined here, its layout is stated by `JoinLayoutAt`, `JoinLength` and `JoinEnds` |
| Text.JoinEnds | ingest/loaders.py:20 | a join of non-empty parts starts with the first part's first character and ends with the last part's last character |
| Text.JoinLength | backend_api/main.py:72 | a join is exactly as long as its parts plus one separator between each two |
| Text.JoinLayoutAt | backend_api/main.py:72 | part j sits in the join at the total length of the earlier parts and separators, and every part but the first is preceded by the separator |
| Text.Lower | ingest/loaders.py:35 | lower-casing keeps the length and maps each character by the ASCII case mapping |
| Text.LastIndexOf | ingest/loaders.py:35 | `rfind` gives -1 or the position of the character, with no later occurrence |
| Text.TrimSlashes | ingest/loaders.py:35 | trailing separators are removed, leaving a prefix of the path |
| Text.TrimSlashesMeaning | ingest/loaders.py:35 | only `/` characters are removed from the end of the path |
| Text.Name | ingest/loaders.py:35 | a path's name holds no separator |
| Text.NameMeaning | ingest/loaders.py:35 | the name ends the trimmed path and is either all of it or follows a `/`, so it is the final component |
| Text.Suffix | ingest/loaders.py:35 | `Path(p).suffix`: the suffix of the path's name; defined here, its shape is stated by `SuffixShape` and its interaction with lower-casing by `SuffixOfLower` |
| Text.SuffixShape | ingest/loaders.py:35 | a suffix is empty, or a dot plus at least one non-dot character that ends the name and is shorter than it |
| Text.NameSuffixOf | ingest/loaders.py:35 | the converse: a name longer than an extension (a dot plus non-dot characters) that ends with it has exactly that suffix |
| Text.BareExtensionNoSuffix | ingest/loaders.py:35 | a name that is only such an extension, like `.pdf`, has no suffix |
| Text.LowerSlice | ingest/loaders.py:35 | lower-casing commutes with slicing |
| Text.NameOfLower | ingest/loaders.py:35 | lower-casing commutes with taking the name |
| Text.NameSuffixOfLower | ingest/loaders.py:35 | lower-casing commutes with taking a name's suffix |
| Text.TrimSlashesOfLower | ingest/loaders.py:35 | lower-casing commutes with removing trailing separators |
| Text.LastIndexOfLower | ingest/loaders.py:35 | lower-casing does not move a non-letter's last occurrence |
| Text.SuffixOfLower | ingest/loaders.py:35 | the suffix of the lower-cased path is the lower-cased suffix |
| Text.NatToString | ingest/cli.py:106 | a number prints as at least one decimal digit |
| Text.NatToStringValue | ingest/cli.py:106 | the printed digits denote the number itself, with no leading zero |
| Text.IntToString | ingest/cli.py:106 | an integer prints non-empty, with a leading minus exactly when negative |
| Text.IntToStringValue | ingest/cli.py:106 | the digits after the optional minus sign denote the integer's absolute value, with no leading zero |
| Indexer.PyAt | ingest/indexer.py:70 | Python list subscript: defined exactly for -len ≤ i < len, and the element itself for non-negative i |
| Indexer.Kept | ingest/indexer.py:66-68 | the hits the loop does not skip; defined here, stated by `KeptAppend` and `KeptMembers` |
| Indexer.KeptAppend | ingest/indexer.py:66-68 | skipping padding hits distributes over concatenation, so the order of hits is kept |
| Indexer.KeptMembers | ingest/indexer.py:66-68 | the kept hits are exactly the hits that are not -1, and there are no more of them than hits |
| Indexer.Resolve | ingest/indexer.py:70 | the record built for one kept hit: its text, metadata and score when the position exists; stated through `CollectMeaning` and `CollectTotal` |
| Indexer.Collect | ingest/indexer.py:64-72 | the result loop over the hits, skipping -1 and raising IndexError on a missing position; defined here, its meaning is stated by `CollectMeaning`, `CollectTotal` and `CollectErrSticky` |
| Indexer.CollectMeaning | ingest/indexer.py:65-72 | the result loop succeeds exactly when every kept hit's position exists; then result j is the text, metadata and score of the j-th kept hit |
| Indexer.CollectTotal | ingest/indexer.py:64-72 | with well-formed hits and as many metadatas as texts, the loop never raises and returns at most one result per hit |
| Indexer.CollectErrSticky | ingest/indexer.py:66-71 | once the loop has raised on a prefix of the hits, that error is the outcome |
| Indexer.Persisted | ingest/indexer.py:41-49 | after `save` the store path holds the texts and metadatas, the index path holds the index (when the paths differ), and every other file is unchanged |
| Indexer.ReadBack | ingest/indexer.py:51-58 | `load` reads only when both files exist, and otherwise raises FileNotFoundError "Index or store file not found." |
| Indexer.SaveLoadRoundTrip | ingest/indexer.py:43-58 | saving and then loading through two distinct paths restores index, texts and metadatas in the same order |
| Indexer.SaveLoadSamePath | ingest/indexer.py:43-58 | with one path for both files the pickle overwrites the index, and loading fails |
| Indexer.Loaded | ingest/indexer.py:51-58 | a good load installs exactly what is on disk; a failed one keeps texts and metadatas; the index changes only to the index file's contents |
| Indexer.LoadReplacesWholesale | ingest/indexer.py:54-58 | a good load does not depend on the prior state, and its result is coherent exactly when the files are |
| Indexer.Appended | ingest/indexer.py:29-39 | the state after an accepted `add`: rows appended to the index (created at the embeddings' width when absent), texts and metadatas appended; its invariants are stated by `AppendedCoherent` |
| Indexer.AppendedCoherent | ingest/indexer.py:29-39 | appending a matrix of the index's width with one text and metadata per row keeps rows, texts and metadatas of equal length, and leaves earlier entries in place |
| Indexer.FaissStore.constructor | ingest/indexer.py:17-22 | a new store has no index and empty texts and metadatas, and is coherent |
| Indexer.FaissStore.EnsureIndex | ingest/indexer.py:24-27 | an index of the given width is created only when there is none; texts and metadatas are untouched |
| Indexer.FaissStore.Add | ingest/indexer.py:29-39 | a non-matrix or a length mismatch raises AssertionError and leaves the store unchanged; otherwise the first call fixes the dimensionality, rows, texts and metadatas are appended in order, and coherence is kept |
| Indexer.FaissStore.Save | ingest/indexer.py:41-49 | the disk afterwards is the disk with the index and the pickled texts and metadatas written |
| Indexer.FaissStore.Load | ingest/indexer.py:51-58 | succeeds exactly when both files exist and read; the new state is `Loaded`, replaced wholesale on success |
| Indexer.FaissStore.Search | ingest/indexer.py:60-72 | without an index it raises AssertionError "Index not loaded"; otherwise it returns the result loop's outcome over the oracle's hits: at most k results, never raising on a coherent store, with the store unchanged |
| Indexer.Searched | ingest/indexer.py:60-72 | what `search` answers for a store state: AssertionError without an index, else the result loop over the oracle's hits; `FaissStore.Search` is proved to return it |
| Loaders.LoaderForSupported | ingest/loaders.py:35-53 | exactly the six lower-cased suffixes select a loader; any other suffix raises ValueError naming it |
| Loaders.LoaderFor | ingest/loaders.py:35-53 | the lower-cased suffix of the path selects the format; defined here, stated by `LoaderForSupported`, `NoSuffixUnsupported` and `LoaderForIgnoresCase` |
| Loaders.FormatOf | ingest/loaders.py:37-53 | the dispatch chain over the six lower-cased suffixes, with ValueError naming any other; stated by `LoaderForSupported` |
| Loaders.NoSuffixUnsupported | ingest/loaders.py:53 | a path with no suffix raises ValueError "Unsupported file type: " |
| Loaders.LowerIdempotent | ingest/loaders.py:35 | lower-casing twice is lower-casing once |
| Loaders.LoaderForIgnoresCase | ingest/loaders.py:35 | lower-casing the path selects the same loader and raises the same error, so matching is case-insensitive |
| Loaders.LoadDocuments | ingest/loaders.py:30-53 | each supported suffix delegates to its reader, presentations through the slide assembly; unsupported suffixes raise before any reader runs |
| Loaders.LoadSlides | ingest/loaders.py:12-28 | the nested loops return exactly `SlideDocs` of the deck |
| Loaders.SlideDocs | ingest/loaders.py:12-28 | the documents `_load_pptx` returns, as a function of the deck; defined here, stated by `SlideDocsFromSlides`, `SlideDocsOrdered` and `SlideDocsComplete` |
| Loaders.Contents | ingest/loaders.py:15-20 | one content per slide, in slide order, each that slide's joined cleaned texts |
| Loaders.NumberedFromContents | ingest/loaders.py:15-27 | at most one document per content; each carries the 1-based position of its content, metadata exactly {source, slide} and that non-empty content |
| Loaders.NumberedOrdered | ingest/loaders.py:15-27 | numbers strictly increase along the documents |
| Loaders.NumberedHas | ingest/loaders.py:15-27 | a non-empty content at position i yields a document numbered i |
| Loaders.NumberedComplete | ingest/loaders.py:15-27 | position i has a document exactly when its content is non-empty |
| Loaders.CleanedTrimmed | ingest/loaders.py:20 | every kept text is stripped, non-empty, and neither starts nor ends with whitespace |
| Loaders.CleanedEmptyIff | ingest/loaders.py:20 | nothing is kept exactly when every shape text is whitespace only |
| Loaders.ShapeTextsBlankIff | ingest/loaders.py:16-21 | a slide's texts are all blank exactly when each of its shapes has no text or only whitespace |
| Loaders.SlideContent | ingest/loaders.py:16-21 | a slide's stripped non-empty shape texts joined by newlines; defined here, stated by `SlideContentMeaning` |
| Loaders.SlideMeta | ingest/loaders.py:25 | a slide document's metadata, exactly {source, slide}; stated through `NumberedFromContents` and `SlideDocsFromSlides` |
| Loaders.SlideContentMeaning | ingest/loaders.py:18-21 | the content is empty exactly when no shape has visible text; otherwise it has no leading or trailing whitespace |
| Loaders.SlideDocsFromSlides | ingest/loaders.py:15-27 | at most one document per slide; each has a slide number in 1..n, metadata exactly {source, slide} and that slide's content |
| Loaders.SlideDocsOrdered | ingest/loaders.py:15-27 | documents come in strictly increasing slide order |
| Loaders.SlideDocsComplete | ingest/loaders.py:15-27 | slide i has a document exactly when its content is non-empty, so numbering counts skipped slides |
| Cli.GlobRank | ingest/cli.py:15 | a name's first matching pattern lies between the starting pattern and the end, and the name does end with it |
| Cli.TailRankOfGlob | ingest/cli.py:15 | each pattern is told apart by its last two characters |
| Cli.GlobsExclusive | ingest/cli.py:15 | no file name matches two of the six patterns |
| Cli.GlobRankOf | ingest/cli.py:15-18 | a name ending with pattern g has g as its first matching pattern |
| Cli.Matching | ingest/cli.py:17 | `rglob("*" + ext)` over the walk; defined here, stated by `MatchingMembers` |
| Cli.ScanFrom | ingest/cli.py:15-18 | the patterns' matches, pattern after pattern; defined here, stated by `ScanFromMembers` and `ScanOrder` |
| Cli.MatchingMembers | ingest/cli.py:17 | one recursive glob yields exactly the entries whose name ends with its extension |
| Cli.ScanFromMembers | ingest/cli.py:15-18 | the scan from a pattern on yields exactly the entries whose name matches one of the remaining patterns |
| Cli.ScanOrder | ingest/cli.py:15-18 | the scan is the pdf matches, then docx, pptx, ppt, txt and md matches, each in walk order |
| Cli.IterSupportedFiles | ingest/cli.py:12-22 | fails exactly when the path does not exist, and then with FileNotFoundError; the rest of its meaning is stated by `IterSupportedFilesMeaning` |
| Cli.IterSupportedFilesMeaning | ingest/cli.py:12-22 | a missing path raises FileNotFoundError "Path not found: …"; a non-directory is yielded as it is, whatever its extension; a directory yields exactly the entries matching a pattern, grouped by pattern in the fixed order |
| Cli.SuffixOfGlob | ingest/cli.py:15-18 | a scanned name longer than its pattern has that pattern as its suffix, so `load_documents` finds a loader for it |
| Cli.BareGlobUnsupported | ingest/cli.py:15-18 | a file named just like a pattern (`.pdf`) is scanned but has no suffix, so `load_documents` raises ValueError "Unsupported file type: " |
| Cli.Texts | ingest/cli.py:82 | one text per chunk, in chunk order |
| Cli.Metas | ingest/cli.py:83 | one metadata per chunk, in chunk order |
| Cli.Gather | ingest/cli.py:79-84 | the file loop as a function of the files: chunks of each file in order, the first load failure ending it; stated by `GatherAppend`, `GatherOne` and `GatherErrSticky` |
| Cli.GatherAppend | ingest/cli.py:79-83 | chunks come in file order, then the chunker's order, and the first file that fails to load ends the loop with its error |
| Cli.GatherOne | ingest/cli.py:80-83 | one file contributes the chunker's output for its documents |
| Cli.GatherErrSticky | ingest/cli.py:79-80 | a failure on a prefix of the files is the loop's outcome |
| Cli.ChunkFiles | ingest/cli.py:76-84 | the loop's texts and metadatas are the gathered chunks' texts and metadatas, in lockstep, and its counter is their number |
| Cli.IndexChunks | ingest/cli.py:90-100 | embed, add, save and query leave the outcome, store state and disk that `Indexing` describes |
| Cli.Indexing | ingest/cli.py:90-100 | with chunks found, the store gets every chunk appended after one embedding call, exactly that state is saved, and the query runs only when given |
| Cli.LoadsExisting | ingest/cli.py:73 | the store is loaded exactly when the run is not fresh and both files exist; stated through `IndexedRunAppends` and `NothingFoundChangesNothing` |
| Cli.Queries | ingest/cli.py:98 | the query runs only when one is given and non-empty (Python truthiness); stated through `Indexing` |
| Cli.IngestSpec | ingest/cli.py:73-100 | the whole run of `main` as a function: optional load, file loop, then indexing only when chunks were found; `Ingest` is proved to follow it, and `NothingFoundChangesNothing` and `IndexedRunAppends` state what it does |
| Cli.Ingest | ingest/cli.py:73-100 | the outcome, the store's new state and the disk are those of `IngestSpec`; an index file of another width only matters when the run loads both files successfully and then adds chunks |
| Cli.NothingFoundChangesNothing | ingest/cli.py:86-88 | with zero chunks nothing is added or saved: the disk is unchanged and the store is as the optional load left it |
| Cli.IndexedRunAppends | ingest/cli.py:73-93 | an indexing run reports the number of chunks and appends their texts and metadatas in lockstep after what the store held; the saved files load back to the new state; a fresh run loads nothing |
| Cli.LocationLabelMeaning | ingest/cli.py:105-106 | the label shows the page when truthy, else the slide when truthy, and is empty when neither is |
| Cli.LocationLabel | ingest/cli.py:105-106 | the printed " (page …)" label; defined here, stated by `LocationLabelMeaning`, `PageZeroUnlabelled` and `SlideDocsLabelled` |
| Cli.Location | ingest/cli.py:105 | `meta.get("page") or meta.get("slide")`; stated through `LocationLabelMeaning` |
| Cli.SourceLabel | ingest/cli.py:104 | `meta.get("source", "?")` as printed; stated through `Describe` |
| Common.Truthy | ingest/cli.py:105-106 | Python truthiness of a metadata value: None, "" and 0 are false; stated through `LocationLabelMeaning` and `PageZeroUnlabelled` |
| Cli.PageZeroUnlabelled | ingest/cli.py:105-106 | page 0 with no slide gives no label |
| Cli.SlideDocsLabelled | ingest/cli.py:105-106 | every slide document is labelled with its slide number |
| Cli.Describe | ingest/cli.py:101-107 | one line per result with its 1-based rank, score, source ("?" if absent), label, and the first 300 characters of its text (all of it when shorter) |
| Api.Request | backend_api/main.py:47-49 | a request without `k` asks for 4 results |
| Api.ResultTexts | backend_api/main.py:72 | one text per result, in result order |
| Api.Context | backend_api/main.py:72 | the result texts joined by blank lines; defined here, stated by `ContextLayout` and `ContextEnds` |
| Api.Internal | backend_api/main.py:82-86 | an exception becomes HTTP 500 with the exception's message as detail |
| Api.QueryRag | backend_api/main.py:63-86 | embedding or search errors give 500; no results give "No relevant context found." with no sources; otherwise the model's answer for the joined context, with the results as sources, or 500 if generation raises; search uses the request's k |
| Api.EmptyResultsSkipModel | backend_api/main.py:68-69 | with no results the answer does not depend on the model at all |
| Api.SourcesAreResults | backend_api/main.py:68-80 | every answer's sources are exactly the search results; with none the answer is the fixed text, otherwise it is the model's output for their context |
| Api.FailuresAreInternal | backend_api/main.py:82-86 | every failure is a 500, and searching a store with no index gives detail "Index not loaded" |
| Api.ContextEnds | backend_api/main.py:72 | the context begins with the first result's whole text and ends with the last result's whole text |
| Api.ContextLayout | backend_api/main.py:72 | result j's text sits at its offset in the context, a blank line before each text but the first, and nothing else is in it |
| Api.Health | backend_api/main.py:51-54 | the body is exactly {"status": "ok"} |
| Api.HealthIgnoresStore | backend_api/main.py:51-54 | the health body does not depend on the store's state |

## Left out

- L2 normalisation and inner-product scoring are floating point and happen inside faiss. Vectors are `seq<real>`, scores come from the oracle, and nothing is claimed about score order or range.
- The in-place normalisation of the caller's embeddings array (ingest/indexer.py:35) is not modelled.
- Indexer.FaissStore.Search: faiss's check that the query has the index's width is not modelled. The oracle answers a query of any width, so a query embedded by a model of another width yields results, or the no-context answer, where the code raises AssertionError and the HTTP backend answers 500.
- Indexer.FaissStore.Search: the faiss ranking is an oracle. The method requires `SoundOracle`: exactly `k` hits, each -1 or a stored row position.
- Indexer.FaissStore.Add: a later call whose width differs from the index's is excluded by a precondition. The code has no check of its own and faiss rejects it.
- Indexer.FaissStore.Load: a loaded store is not checked for consistency, as in the code. `Valid()` then holds exactly when the files were consistent.
- Indexer.FaissStore.Save: requires an index. `faiss.write_index(None, …)` is a foreign crash, and the only caller saves after an accepted `add`.
- Indexer.FaissStore.Save: `os.makedirs` is not modelled, including its failure on an index path with no directory part. File formats are not modelled, and neither is the non-atomic two-file write: the disk is updated as two map writes.
- Indexer.ReadBack: a file that faiss or pickle cannot read is a `ReaderError` carrying the path. The real message comes from the foreign reader.
- The readers of `load_documents` (PyPDF, docx2txt, TextLoader, python-pptx) are parameters. A presentation is a sequence of slides, each a sequence of shapes whose `text` may be absent.
- Text.Lower: only ASCII letters are lower-cased. Python's full Unicode case mapping is not modelled, and it does not affect the six ASCII suffixes.
- `str(Path(p))` normalisation (repeated or trailing separators, `.` components) is the identity here, except that `Name` ignores trailing separators.
- `rglob` is a list of paths per directory in walk order. Matching is case-sensitive, as on POSIX filesystems.
- The chunker (ingest/chunker.py) and the embedder (ingest/embedder.py) are parameters. `main` is proved under `EmbedderSound`: one row per text, all of one width matching the store.
- Cli.Ingest: an exception from the embedder or the chunker is not modelled; the embedder is a total function here.
- Cli.Ingest: `--k` is a natural number. A negative `k` is not modelled. Neither is faiss rejecting `k` = 0: the oracle here answers `k` = 0 with no hits, so `--k 0` reports an empty result list instead of crashing.
- Api.QueryRag: `k` in the request body is a natural number. A negative `k` is not modelled, and neither is faiss rejecting `k` = 0: a request with `k` = 0 gets the no-context answer instead of a 500.
- Argument parsing, environment defaults, timing and the printed progress lines are not modelled. The printed query results are modelled as values (`Describe`): the score is kept as a number, and its four-decimal formatting and the `...` printed after every snippet are not modelled.
- FastAPI routing, the startup code of the backend (which loads the store and wraps failures in RuntimeError), the prompt template and the Ollama client are not modelled. The model chain is a parameter of `QueryRag`.
- The Streamlit front end (app/streamlit_app.py) is not part of this model.
- Concurrency is not modelled: the backend's module-level store is only read.

Behaviour worth noting:
- `search` on a store without an index raises AssertionError rather than returning nothing.
- The no-context answer is the text "No relevant context found.".
- `add` has no dimension check.
- `save` is not atomic.
- `load` does not validate what it reads.
- A file named just `.pdf` (or after any other pattern) is found by the scan, but has no suffix, so `load_documents` raises and the whole ingestion run ends with that error.
