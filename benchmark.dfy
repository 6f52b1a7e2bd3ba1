/**
 * The offline benchmark: each test case's query is answered by the engine,
 * and the reply is scored for retrieval (did a retrieved file name contain
 * the expected source?) and answer fidelity (does the reply contain the
 * expected fact?), with a one-line preview of the reply.
 */
module Benchmark {
  import opened PyStrings
  import opened Sources

  /** The expected source of a question the documents cannot answer. */
  const NotApplicable := "N/A"
  /** Characters of the reply kept in the preview. */
  const PreviewLength := 100
  const Ellipsis := "..."

  datatype TestCase = TestCase(query: string, expectedFact: string, expectedSource: string)

  /** The engine's reply to one query: `str(response)` and its source nodes. */
  datatype Response = Response(text: string, sourceNodes: seq<SourceNode>)

  /** One results row (the latency column is not modelled). */
  datatype ResultRow = ResultRow(query: string, retrievalHit: nat, factCheck: nat, responsePreview: string)

  /** The golden dataset: three questions on the 9M 2025 report and one out of scope. */
  const GoldenDataset: seq<TestCase> := [
    TestCase("Kāds bija Latvenergo koncerna EBITDA 2025. gada 9 mēnešos?", "350,2", "1_Latvenergo_9M_2025_LAT.pdf"),
    TestCase("What was the total electricity generation in 9M 2025?", "3512", "1_Latvenergo_9M_2025_LAT.pdf"),
    TestCase("Kāda ir Latvenergo siltumenerģijas ieņēmumu daļa?", "8", "1_Latvenergo_9M_2025_LAT.pdf"),
    TestCase("Tell me about average USA household energy expenditure.", "cannot find", NotApplicable)
  ]

  /** The file name of each retrieved node, in order, "" where it has none. */
  function RetrievedFiles(nodes: seq<SourceNode>): (files: seq<string>)
    ensures |files| == |nodes|
    ensures forall k :: 0 <= k < |nodes| && FileNameKey in nodes[k].metadata ==>
      files[k] == nodes[k].metadata[FileNameKey]
    ensures forall k :: 0 <= k < |nodes| && FileNameKey !in nodes[k].metadata ==> files[k] == ""
  {
    seq(|nodes|, k requires 0 <= k < |nodes| => MetaGet(nodes[k].metadata, FileNameKey, ""))
  }

  /** Python's `any(sub in f for f in files)`. */
  function AnyContains(files: seq<string>, sub: string): (b: bool)
    ensures b <==> exists k :: 0 <= k < |files| && Contains(files[k], sub)
    decreases |files|
  {
    if files == [] then false
    else if Contains(files[0], sub) then true
    else
      var rest := AnyContains(files[1..], sub);
      assert forall k :: 1 <= k < |files| ==> files[k] == files[1..][k - 1];
      rest
  }

  /**
   * The retrieval hit: 1 when some retrieved file name contains the expected
   * source, and also 1 for an out-of-scope question ("N/A") that retrieved
   * nothing; 0 otherwise.
   */
  function RetrievalHit(expectedSource: string, files: seq<string>): (hit: nat)
    ensures hit <= 1
    ensures hit == 1 <==>
      || (exists k :: 0 <= k < |files| && Contains(files[k], expectedSource))
      || (expectedSource == NotApplicable && files == [])
  {
    var hit := if AnyContains(files, expectedSource) then 1 else 0;
    if expectedSource == NotApplicable && files == [] then 1 else hit
  }

  /** An out-of-scope question that did retrieve files hits only if a file name contains "N/A". */
  lemma OutOfScopeWithFiles(files: seq<string>)
    requires files != []
    ensures RetrievalHit(NotApplicable, files) == 1 <==>
      exists k :: 0 <= k < |files| && Contains(files[k], NotApplicable)
  {
  }

  /** An in-scope question that retrieved nothing misses. */
  lemma MissWithoutRetrieval(expectedSource: string)
    requires expectedSource != NotApplicable
    ensures RetrievalHit(expectedSource, []) == 0
  {
  }

  /** The fact check: 1 exactly when the expected fact occurs in the reply. */
  function FactCheck(expectedFact: string, text: string): (f: nat)
    ensures f <= 1
    ensures f == 1 <==> Contains(text, expectedFact)
  {
    if Contains(text, expectedFact) then 1 else 0
  }

  /**
   * `text[:100].replace("\n", " ") + "..."`: the first 100 characters with
   * each newline turned into a space, then "...".
   */
  function ResponsePreview(text: string): (p: string)
    ensures |p| == (if |text| < PreviewLength then |text| else PreviewLength) + |Ellipsis|
    ensures '\n' !in p
    ensures forall k :: 0 <= k < |p| - |Ellipsis| ==> p[k] == (if text[k] == '\n' then ' ' else text[k])
    ensures p[|p| - |Ellipsis|..] == Ellipsis
  {
    var head := Prefix(text, PreviewLength);
    ReplaceCharwise(head, '\n', ' ');
    ReplaceAll(head, "\n", " ") + Ellipsis
  }

  /**
   * The row for one test case and the engine's reply to it: the case's
   * query, a 0/1 retrieval hit over the retrieved file names, a 0/1 fact
   * check over the reply text and the reply's one-line preview, of at most
   * 103 characters.
   */
  function ScoreCase(c: TestCase, r: Response): (row: ResultRow)
    ensures row.query == c.query
    ensures row.retrievalHit <= 1 && row.factCheck <= 1
    ensures var files := RetrievedFiles(r.sourceNodes);
      row.retrievalHit == 1 <==>
        || (exists k :: 0 <= k < |files| && Contains(files[k], c.expectedSource))
        || (c.expectedSource == NotApplicable && r.sourceNodes == [])
    ensures row.factCheck == 1 <==> Contains(r.text, c.expectedFact)
    ensures row.responsePreview == ResponsePreview(r.text)
    ensures '\n' !in row.responsePreview && |row.responsePreview| <= PreviewLength + |Ellipsis|
  {
    ResultRow(c.query,
              RetrievalHit(c.expectedSource, RetrievedFiles(r.sourceNodes)),
              FactCheck(c.expectedFact, r.text),
              ResponsePreview(r.text))
  }

  /**
   * The benchmark loop: `responses[k]` is the engine's reply to
   * `dataset[k].query`. One row per case, in dataset order, each hit and
   * fact value 0 or 1.
   */
  method RunBenchmark(dataset: seq<TestCase>, responses: seq<Response>) returns (results: seq<ResultRow>)
    requires |responses| == |dataset|
    ensures |results| == |dataset|
    ensures forall k :: 0 <= k < |dataset| ==> results[k] == ScoreCase(dataset[k], responses[k])
    ensures forall k :: 0 <= k < |dataset| ==>
      results[k].query == dataset[k].query && results[k].retrievalHit <= 1 && results[k].factCheck <= 1
  {
    results := [];
    for i := 0 to |dataset|
      invariant |results| == i
      invariant forall k :: 0 <= k < i ==> results[k] == ScoreCase(dataset[k], responses[k])
    {
      results := results + [ScoreCase(dataset[i], responses[i])];
    }
  }

  /**
   * On the golden dataset, a reply that retrieved nothing scores a hit only
   * for the out-of-scope question.
   */
  lemma GoldenHitsWithoutRetrieval(k: nat, r: Response)
    requires k < |GoldenDataset| && r.sourceNodes == []
    ensures ScoreCase(GoldenDataset[k], r).retrievalHit == if k == 3 then 1 else 0
  {
  }
}
