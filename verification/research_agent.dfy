/** Two tools of the research agent
    (`use-cases/pydantic-ai/examples/main_agent_reference/research_agent.py`): `search_web`,
    which clamps the number of results and turns a failed search into an error record,
    and `summarize_research`, which collects sources and descriptions from search results
    and renders a summary.

    A search result is a decoded dict; Python's `str` of a value is the parameter `show`. */
module ResearchAgent {
  import opened Wrappers
  import opened Text
  import opened JsonValues
  import BraveSearch

  // ---------------------------------------------------------------------------
  // search_web
  // ---------------------------------------------------------------------------

  const SearchFailedPrefix: string := "Search failed: "

  /** What `search_web` returns: the hits, or a one-element list holding an error record. */
  datatype SearchOutput = Found(hits: seq<BraveSearch.Hit>) | SearchFailed(error: string)

  /** `search_web(query, max_results)` with the agent's API key. */
  function SearchWeb(apiKey: string, query: string, maxResults: int,
                     http: BraveSearch.Request -> BraveSearch.HttpOutcome, shapeError: string): (r: SearchOutput)
    ensures var outcome := BraveSearch.SearchWebTool(apiKey, query, BraveSearch.ClampCount(maxResults),
                                                     0, None, None, http, shapeError);
            && (outcome.Success? ==> r == Found(outcome.value))
            && (outcome.Failure? ==> r == SearchFailed(SearchFailedPrefix + outcome.error.message))
  {
    match BraveSearch.SearchWebTool(apiKey, query, BraveSearch.ClampCount(maxResults), 0, None, None, http, shapeError)
    case Success(hits) => Found(hits)
    case Failure(e) => SearchFailed(SearchFailedPrefix + e.message)
  }

  /** With a usable key and query, `search_web` makes one request, for between one and
      twenty results: `max_results` itself when it lies in that range, the nearer bound
      otherwise. The reply to that request alone decides what the agent gets back. */
  lemma SearchWebSendsClampedCount(apiKey: string, query: string, maxResults: int,
                                   http: BraveSearch.Request -> BraveSearch.HttpOutcome, shapeError: string)
    requires !BraveSearch.Blank(apiKey) && !BraveSearch.Blank(query)
    ensures var request := BraveSearch.SearchRequest(apiKey, query, BraveSearch.ClampCount(maxResults), 0, None, None);
            var n := request.params[1].1.n;
            && request.params[1].0 == "count"
            && 1 <= n <= 20
            && (1 <= maxResults <= 20 ==> n == maxResults)
            && (maxResults < 1 ==> n == 1)
            && (maxResults > 20 ==> n == 20)
            && SearchWeb(apiKey, query, maxResults, http, shapeError)
               == match BraveSearch.HandleReply(http(request), shapeError)
                  case Success(hits) => Found(hits)
                  case Failure(e) => SearchFailed(SearchFailedPrefix + e.message)
  {
    // the tool clamps the count it is given once more, which changes nothing
    assert BraveSearch.ClampCount(BraveSearch.ClampCount(maxResults)) == BraveSearch.ClampCount(maxResults);
  }

  /** A blank key or query never reaches the network: the agent gets the argument error
      as an error record. */
  lemma SearchWebRefusesBlankArguments(apiKey: string, query: string, maxResults: int,
                                       http: BraveSearch.Request -> BraveSearch.HttpOutcome, shapeError: string)
    requires BraveSearch.Blank(apiKey) || BraveSearch.Blank(query)
    ensures SearchWeb(apiKey, query, maxResults, http, shapeError)
            == SearchFailed(SearchFailedPrefix + (if BraveSearch.Blank(apiKey) then BraveSearch.KeyRequired
                                                  else BraveSearch.QueryEmpty))
  {
  }

  // ---------------------------------------------------------------------------
  // summarize_research
  // ---------------------------------------------------------------------------

  const NoResultsSummary: string := "No search results provided for summarization."
  const FailurePrefix: string := "Failed to summarize research: "

  /** At most this many descriptions become key points. */
  const KeyPointLimit: nat := 5
  /** At most this many sources are listed in the summary text. */
  const SourceListLimit: nat := 10

  /** The result dict of `summarize_research`: either just a summary (with empty
      `key_points` and `sources`), or the full record. */
  datatype Summary =
    | Plain(summary: string)
    | Summarized(summary: string, topic: string, sourcesCount: nat, keyPoints: seq<Json>)

  /** A result is a source when it has both a title and a URL. */
  predicate IsSource(result: map<string, Json>) {
    "title" in result && "url" in result
  }

  function SourceLine(result: map<string, Json>, show: Json -> string): string
    requires IsSource(result)
  {
    "- " + show(result["title"]) + ": " + show(result["url"])
  }

  /** The source lines, one per result with a title and a URL, in order. */
  function Sources(results: seq<map<string, Json>>, show: Json -> string): (r: seq<string>)
    ensures |r| <= |results|
    ensures forall s :: s in r <==> exists x :: x in results && IsSource(x) && s == SourceLine(x, show)
  {
    if |results| == 0 then []
    else
      var x := results[0];
      assert forall y :: y in results <==> y == x || y in results[1..] by {
        assert results == [x] + results[1..];
      }
      (if IsSource(x) then [SourceLine(x, show)] else []) + Sources(results[1..], show)
  }

  /** The descriptions of the sources that have one, in order. */
  function Descriptions(results: seq<map<string, Json>>): (r: seq<Json>)
    ensures |r| <= |results|
    ensures forall d :: d in r <==> exists x :: x in results && IsSource(x) && "description" in x && d == x["description"]
  {
    if |results| == 0 then []
    else
      var x := results[0];
      assert forall y :: y in results <==> y == x || y in results[1..] by {
        assert results == [x] + results[1..];
      }
      (if IsSource(x) && "description" in x then [x["description"]] else []) + Descriptions(results[1..])
  }

  /** Collecting over two batches of results is collecting over each, in order. */
  lemma {:induction false} SourcesAppend(a: seq<map<string, Json>>, b: seq<map<string, Json>>, show: Json -> string)
    ensures Sources(a + b, show) == Sources(a, show) + Sources(b, show)
    ensures Descriptions(a + b) == Descriptions(a) + Descriptions(b)
  {
    if |a| > 0 {
      assert (a + b)[0] == a[0] && (a + b)[1..] == a[1..] + b;
      SourcesAppend(a[1..], b, show);
    } else {
      assert a + b == b;
    }
  }

  /** Every description belongs to a source, so there are never more descriptions than
      sources. */
  lemma {:induction false} FewerDescriptionsThanSources(results: seq<map<string, Json>>, show: Json -> string)
    ensures |Descriptions(results)| <= |Sources(results, show)|
  {
    if |results| > 0 {
      FewerDescriptionsThanSources(results[1..], show);
    }
  }

  function Min(a: nat, b: nat): nat {
    if a <= b then a else b
  }

  /** `"\n".join(items)` succeeds only when every item is a string. */
  function JoinTexts(items: seq<Json>): (r: Option<string>)
    ensures r.Some? <==> AllStrings(items)
    ensures r.Some? ==> r.value == Join(Texts(items), "\n")
  {
    if AllStrings(items) then Some(Join(Texts(items), "\n")) else None
  }

  /** The focus line, present exactly when focus areas are given and not empty. */
  function FocusText(focusAreas: Option<string>): (r: string)
    ensures r == "" <==> focusAreas.None? || focusAreas.value == ""
    ensures r != "" ==> r == "\nSpecific focus areas: " + focusAreas.value
  {
    if focusAreas.Some? && focusAreas.value != "" then "\nSpecific focus areas: " + focusAreas.value else ""
  }

  function SummaryText(topic: string, focusAreas: Option<string>, findings: string, sources: string): (r: string)
    ensures StartsWith(r, "\nResearch Summary: " + topic + FocusText(focusAreas) + "\n\nKey Findings:\n")
  {
    var head := "\nResearch Summary: " + topic + FocusText(focusAreas) + "\n\nKey Findings:\n";
    var r := head + findings + "\n\nSources:\n" + sources + "\n";
    assert r[..|head|] == head;
    r
  }

  /** `summarize_research(search_results, topic, focus_areas)`. A description that is not
      a string among the first five makes `join` raise; `joinError` is the text of that
      error. */
  function SummarizeResearch(results: seq<map<string, Json>>, topic: string, focusAreas: Option<string>,
                             show: Json -> string, joinError: string): (r: Summary)
    ensures |results| == 0 ==> r == Plain(NoResultsSummary)
    ensures r.Plain? && |results| > 0 ==> r.summary == FailurePrefix + joinError
    ensures r.Summarized? ==>
              && r.topic == topic
              && r.sourcesCount == |Sources(results, show)|
              && r.keyPoints == Descriptions(results)[..Min(|Descriptions(results)|, KeyPointLimit)]
              && StartsWith(r.summary, "\nResearch Summary: " + topic + FocusText(focusAreas) + "\n\nKey Findings:\n")
    // the summary fails only when a key point is not a string
    ensures |results| > 0 ==> (r.Summarized? <==> AllStrings(Descriptions(results)[..Min(|Descriptions(results)|, KeyPointLimit)]))
    // the text: heading, the key points one per line, then the first ten source lines
    ensures r.Summarized? ==>
              r.summary == "\nResearch Summary: " + topic + FocusText(focusAreas) + "\n\nKey Findings:\n"
                           + Join(Texts(r.keyPoints), "\n")
                           + "\n\nSources:\n"
                           + Join(Sources(results, show)[..Min(|Sources(results, show)|, SourceListLimit)], "\n")
                           + "\n"
  {
    if |results| == 0 then Plain(NoResultsSummary)
    else
      var sources := Sources(results, show);
      var descriptions := Descriptions(results);
      var keyPoints := descriptions[..Min(|descriptions|, KeyPointLimit)];
      match JoinTexts(keyPoints)
      case None =>
        Plain(FailurePrefix + joinError)
      case Some(findings) =>
        var listed := Join(sources[..Min(|sources|, SourceListLimit)], "\n");
        Summarized(SummaryText(topic, focusAreas, findings, listed), topic, |sources|, keyPoints)
  }

  /** Key points are at most five, never outnumber the sources, and each is the
      description of a search result that has a title and a URL. */
  lemma KeyPointsComeFromSources(results: seq<map<string, Json>>, topic: string, focusAreas: Option<string>,
                                 show: Json -> string, joinError: string)
    requires SummarizeResearch(results, topic, focusAreas, show, joinError).Summarized?
    ensures var s := SummarizeResearch(results, topic, focusAreas, show, joinError);
            && |s.keyPoints| <= KeyPointLimit
            && |s.keyPoints| <= s.sourcesCount <= |results|
            && forall k :: 0 <= k < |s.keyPoints| ==>
                 exists x :: x in results && IsSource(x) && "description" in x && s.keyPoints[k] == x["description"]
  {
    var s := SummarizeResearch(results, topic, focusAreas, show, joinError);
    var d := Descriptions(results);
    FewerDescriptionsThanSources(results, show);
    forall k | 0 <= k < |s.keyPoints|
      ensures exists x :: x in results && IsSource(x) && "description" in x && s.keyPoints[k] == x["description"]
    {
      assert s.keyPoints[k] == d[k] && d[k] in d;
    }
  }

  /** With more than ten sources the text lists exactly the first ten, one per line, while
      the count covers all of them. */
  lemma OnlyFirstTenSourcesListed(results: seq<map<string, Json>>, topic: string, focusAreas: Option<string>,
                                  show: Json -> string, joinError: string)
    requires SummarizeResearch(results, topic, focusAreas, show, joinError).Summarized?
    requires |Sources(results, show)| > SourceListLimit
    ensures var s := SummarizeResearch(results, topic, focusAreas, show, joinError);
            && s.sourcesCount == |Sources(results, show)|
            && EndsWith(s.summary, "\n\nSources:\n" + Join(Sources(results, show)[..SourceListLimit], "\n") + "\n")
  {
    var s := SummarizeResearch(results, topic, focusAreas, show, joinError);
    var sources := Sources(results, show);
    assert Min(|sources|, SourceListLimit) == SourceListLimit;
    var head := "\nResearch Summary: " + topic + FocusText(focusAreas) + "\n\nKey Findings:\n"
                + Join(Texts(s.keyPoints), "\n");
    var listed := Join(sources[..SourceListLimit], "\n");
    assert s.summary == head + "\n\nSources:\n" + listed + "\n";
    EndsWithSourceSection(head, listed);
  }

  lemma EndsWithSourceSection(head: string, listed: string)
    ensures EndsWith(head + "\n\nSources:\n" + listed + "\n", "\n\nSources:\n" + listed + "\n")
  {
    var tail := "\n\nSources:\n" + listed + "\n";
    assert head + "\n\nSources:\n" + listed + "\n" == head + tail;
    assert (head + tail)[|head + tail| - |tail|..] == tail;
  }

  /** Results appended after the first ones never change the key points once five
      descriptions have been collected. */
  lemma LaterResultsKeepKeyPoints(a: seq<map<string, Json>>, b: seq<map<string, Json>>, show: Json -> string)
    requires |Descriptions(a)| >= KeyPointLimit
    ensures |Descriptions(a + b)| >= KeyPointLimit
    ensures Descriptions(a + b)[..KeyPointLimit] == Descriptions(a)[..KeyPointLimit]
  {
    SourcesAppend(a, b, show);
  }
}
