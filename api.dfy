/** The query endpoint of the HTTP backend (backend_api/main.py): embed the
    question, search the preloaded store, and either answer that there is no
    context or hand the joined result texts to the language model. The
    endpoint only reads the store; the embedder and the model chain are
    foreign callables that may raise. */
module Api {
  import opened Common
  import opened Text
  import opened Indexer

  /** The request body: the question and the number of results to retrieve. */
  datatype QueryRequest = QueryRequest(question: string, k: nat)

  const DefaultK: nat := 4

  /** A request that leaves `k` out gets the default. */
  function Request(question: string): (r: QueryRequest)
    ensures r.question == question && r.k == 4
  {
    QueryRequest(question, DefaultK)
  }

  /** What the endpoint answers: a JSON body, or an HTTP error with its status and detail. */
  datatype Response =
    | Answered(answer: string, sources: seq<SearchResult>)
    | Failed(status: nat, detail: string)

  const NoContextAnswer := "No relevant context found."

  /** The embedder's `embed_query`; it may raise. */
  type QueryEmbedder = string -> Result<Vector, Error>

  /** The model chain, called with the context and the question; it may raise. */
  type Generator = (string, string) -> Result<string, Error>

  /** The texts of the results, in result order. */
  function ResultTexts(results: seq<SearchResult>): (r: seq<string>)
    ensures |r| == |results|
    ensures forall j :: 0 <= j < |results| ==> r[j] == results[j].text
  {
    seq(|results|, j requires 0 <= j < |results| => results[j].text)
  }

  /** The context handed to the model: the result texts separated by blank lines. */
  function Context(results: seq<SearchResult>): string
  {
    Join("\n\n", ResultTexts(results))
  }

  /** An exception raised anywhere in the handler becomes a 500 whose detail is
      the exception's message. */
  function Internal(e: Error): (r: Response)
    ensures r.Failed? && r.status == 500 && r.detail == e.message
  {
    Failed(500, e.message)
  }

  /** `query_rag` against a store in state `store`. */
  function QueryRag(store: StoreState, req: QueryRequest, embedQuery: QueryEmbedder, oracle: Oracle,
                    generate: Generator): (r: Response)
    ensures embedQuery(req.question).Err? ==> r == Internal(embedQuery(req.question).error)
    ensures embedQuery(req.question).Ok? ==>
      var found := Searched(store, embedQuery(req.question).value, req.k, oracle);
      (found.Err? ==> r == Internal(found.error))
      && (found == Ok([]) ==> r == Answered(NoContextAnswer, []))
      && (found.Ok? && found.value != [] ==>
            match generate(Context(found.value), req.question)
            case Ok(answer) => r == Answered(answer, found.value)
            case Err(e) => r == Internal(e))
  {
    match embedQuery(req.question)
    case Err(e) => Internal(e)
    case Ok(q) =>
      match Searched(store, q, req.k, oracle)
      case Err(e) => Internal(e)
      case Ok(results) =>
        if results == [] then Answered(NoContextAnswer, [])
        else
          match generate(Context(results), req.question)
          case Err(e) => Internal(e)
          case Ok(answer) => Answered(answer, results)
  }

  /** When the search finds nothing the model is never consulted: any two
      generators give the same fixed answer with no sources. */
  lemma EmptyResultsSkipModel(store: StoreState, req: QueryRequest, embedQuery: QueryEmbedder, oracle: Oracle,
                              g1: Generator, g2: Generator)
    requires embedQuery(req.question).Ok?
    requires Searched(store, embedQuery(req.question).value, req.k, oracle) == Ok([])
    ensures QueryRag(store, req, embedQuery, oracle, g1) == QueryRag(store, req, embedQuery, oracle, g2)
    ensures QueryRag(store, req, embedQuery, oracle, g1) == Answered(NoContextAnswer, [])
  {
  }

  /** Whatever the model says, an answer's sources are exactly the search
      results, and the answer is the model's output for their context. */
  lemma SourcesAreResults(store: StoreState, req: QueryRequest, embedQuery: QueryEmbedder, oracle: Oracle,
                          generate: Generator)
    ensures var r := QueryRag(store, req, embedQuery, oracle, generate);
      r.Answered? ==>
        embedQuery(req.question).Ok?
        && var found := Searched(store, embedQuery(req.question).value, req.k, oracle);
        found.Ok? && r.sources == found.value
        && (r.sources == [] ==> r.answer == NoContextAnswer)
        && (r.sources != [] ==> generate(Context(r.sources), req.question) == Ok(r.answer))
  {
  }

  /** The only failures are the 500s carrying an exception's message. */
  lemma FailuresAreInternal(store: StoreState, req: QueryRequest, embedQuery: QueryEmbedder, oracle: Oracle,
                            generate: Generator)
    ensures var r := QueryRag(store, req, embedQuery, oracle, generate);
      r.Failed? ==> r.status == 500
    ensures var r := QueryRag(store, req, embedQuery, oracle, generate);
      store.index.None? && embedQuery(req.question).Ok? ==> r == Failed(500, "Index not loaded")
  {
  }

  /** The context lists the result texts in result order, a blank line before
      each but the first: result j's text sits at its `Offset`, and the context
      is exactly as long as the texts and separators together. */
  lemma ContextLayout(results: seq<SearchResult>, j: nat)
    requires j < |results|
    ensures PlacedAt(Context(results), results[j].text, Offset("\n\n", ResultTexts(results), j), "\n\n", j > 0)
    ensures |Context(results)| + 2 == Offset("\n\n", ResultTexts(results), |results|)
  {
    var texts := ResultTexts(results);
    JoinLayoutAt("\n\n", texts, j);
    JoinLength("\n\n", texts);
    assert texts[j] == results[j].text;
  }

  /** The context begins with the first result's text and ends with the last
      result's text. */
  lemma ContextEnds(results: seq<SearchResult>)
    requires |results| > 0
    ensures var c, first, last := Context(results), results[0].text, results[|results| - 1].text;
      |first| <= |c| && c[..|first|] == first
      && |last| <= |c| && c[|c| - |last|..] == last
  {
    var n := |results|;
    var texts := ResultTexts(results);
    ContextLayout(results, 0);
    ContextLayout(results, n - 1);
    assert Offset("\n\n", texts, n) == Offset("\n\n", texts, n - 1) + |results[n - 1].text| + 2;
  }

  /** `/health`: always the same body, whatever the store holds. */
  function Health(store: StoreState): (r: map<string, string>)
    ensures r.Keys == {"status"} && r["status"] == "ok"
  {
    map["status" := "ok"]
  }

  /** The health body does not depend on the store. */
  lemma HealthIgnoresStore(s1: StoreState, s2: StoreState)
    ensures Health(s1) == Health(s2)
  {
  }
}
