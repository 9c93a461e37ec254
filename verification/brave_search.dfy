/** `search_web_tool` (`use-cases/pydantic-ai/examples/main_agent_reference/tools.py`):
    argument checks, the request sent to the Brave web-search endpoint, the mapping of
    the reply's status code to an error, and of its results to scored records.

    The HTTP exchange is the parameter `http`, which sees the request and answers with a
    reply or a transport error. Scores are kept in hundredths. */
module BraveSearch {
  import opened Wrappers
  import opened Text
  import opened JsonValues

  const Endpoint: string := "https://api.search.brave.com/res/v1/web/search"
  const TimeoutSeconds: nat := 30

  const KeyRequired: string := "Brave API key is required"
  const QueryEmpty: string := "Query cannot be empty"
  const RateLimited: string := "Rate limit exceeded. Check your Brave API quota."
  const InvalidKey: string := "Invalid Brave API key"
  const RequestFailedPrefix: string := "Request failed: "

  /** An exception leaving the tool: the argument checks raise `ValueError`; `Error` is
      any other exception, by its text. Those are the plain `Exception`s the tool raises
      for a transport error or a bad status, the `JSONDecodeError` of an undecodable body
      (itself a `ValueError` subclass), and the `AttributeError` or `TypeError` of a body
      of the wrong shape, each re-raised unchanged. */
  datatype Raised = ValueError(message: string) | Error(message: string)

  /** The value of a query parameter. */
  datatype Param = Text(text: string) | Number(n: int)

  datatype Request = Request(url: string, headers: seq<(string, string)>,
                             params: seq<(string, Param)>, timeout: nat)

  /** What the HTTP client gives back: a transport failure (`httpx.RequestError`), or a
      reply with its status, its body text and the outcome of decoding that body. */
  datatype HttpOutcome =
    | TransportError(message: string)
    | Reply(status: int, text: string, body: Result<Json, string>)

  /** One search hit as the tool returns it. */
  datatype Hit = Hit(title: Json, url: Json, description: Json, score: int)

  /** Python's `not s or not s.strip()`. */
  predicate Blank(s: string) {
    PyStrip(s) == ""
  }

  /** A string argument that is `None` or empty adds nothing. */
  predicate Given(s: Option<string>) {
    s.Some? && s.value != ""
  }

  /** `min(max(count, 1), 20)`. */
  function ClampCount(count: int): (r: int)
    ensures 1 <= r <= 20
    ensures 1 <= count <= 20 ==> r == count
    ensures count < 1 ==> r == 1
    ensures count > 20 ==> r == 20
  {
    if count < 1 then 1 else if count > 20 then 20 else count
  }

  function Names(params: seq<(string, Param)>): (r: seq<string>)
    ensures |r| == |params| && forall i :: 0 <= i < |params| ==> r[i] == params[i].0
  {
    seq(|params|, i requires 0 <= i < |params| => params[i].0)
  }

  /** The request for a search; `count` is already clamped. */
  function SearchRequest(apiKey: string, query: string, count: int, offset: int,
                         country: Option<string>, lang: Option<string>): (r: Request)
    ensures r.url == Endpoint && r.timeout == TimeoutSeconds
    ensures r.headers == [("X-Subscription-Token", apiKey), ("Accept", "application/json")]
    ensures |r.params| == 3 + (if Given(country) then 1 else 0) + (if Given(lang) then 1 else 0)
    ensures r.params[..3] == [("q", Text(query)), ("count", Number(count)), ("offset", Number(offset))]
    ensures r.params[1] == ("count", Number(count))
    // the optional parameters are sent exactly when given, country before language
    ensures "country" in Names(r.params) <==> Given(country)
    ensures "lang" in Names(r.params) <==> Given(lang)
    ensures Given(country) ==> r.params[3] == ("country", Text(country.value))
    ensures Given(lang) ==> r.params[|r.params| - 1] == ("lang", Text(lang.value))
  {
    var base := [("q", Text(query)), ("count", Number(count)), ("offset", Number(offset))];
    var withCountry := base + (if Given(country) then [("country", Text(country.value))] else []);
    var params := withCountry + (if Given(lang) then [("lang", Text(lang.value))] else []);
    assert params[..3] == base;
    assert Names(params) == ["q", "count", "offset"] + (if Given(country) then ["country"] else [])
                            + (if Given(lang) then ["lang"] else []);
    Request(Endpoint, [("X-Subscription-Token", apiKey), ("Accept", "application/json")],
            params, TimeoutSeconds)
  }

  /** The score of the hit at a position, in hundredths: one, less five hundredths per
      position, never below one tenth. */
  function ScoreAt(idx: nat): (r: int)
    ensures 10 <= r <= 100
    ensures idx == 0 ==> r == 100
    ensures idx >= 18 ==> r == 10
  {
    var score := 100 - idx * 5;
    if score < 10 then 10 else score
  }

  /** `d.get(key, default)` on a decoded object. */
  function Get(members: map<string, Json>, key: string, default: Json): (r: Json)
    ensures key in members ==> r == members[key]
    ensures key !in members ==> r == default
  {
    if key in members then members[key] else default
  }

  /** `data.get("web", {}).get("results", [])`, then iterating over it. Any shape on which
      Python's `.get` or iteration fails raises; the text of that error is `shapeError`. */
  function WebResults(data: Json, shapeError: string): (r: Result<seq<map<string, Json>>, Raised>)
    ensures r.Failure? ==> r.error == Error(shapeError)
    ensures r.Success? && data.JObject? && "web" in data.members && data.members["web"].JObject?
              && "results" in data.members["web"].members && data.members["web"].members["results"].JArray?
            ==> |r.value| == |data.members["web"].members["results"].items|
  {
    if !data.JObject? then Failure(Error(shapeError))
    else
      var web := Get(data.members, "web", JObject(map[]));
      if !web.JObject? then Failure(Error(shapeError))
      else
        match Get(web.members, "results", JArray([]))
        case JArray(items) =>
          if forall i :: 0 <= i < |items| ==> items[i].JObject? then
            Success(seq(|items|, i requires 0 <= i < |items| => items[i].members))
          else Failure(Error(shapeError))
        // iterating over an empty object or string yields nothing
        case JObject(m) => if m == map[] then Success([]) else Failure(Error(shapeError))
        case JString(s) => if s == "" then Success([]) else Failure(Error(shapeError))
        case _ => Failure(Error(shapeError))
  }

  /** The hits for the web results, in order. */
  function Hits(results: seq<map<string, Json>>): (r: seq<Hit>)
    ensures |r| == |results|
    ensures forall i :: 0 <= i < |r| ==>
              r[i].title == Get(results[i], "title", JString(""))
              && r[i].url == Get(results[i], "url", JString(""))
              && r[i].description == Get(results[i], "description", JString(""))
    ensures forall i :: 0 <= i < |r| ==> 10 <= r[i].score <= 100
    ensures |r| > 0 ==> r[0].score == 100
    // a later hit never scores higher than an earlier one
    ensures forall i, j :: 0 <= i <= j < |r| ==> r[j].score <= r[i].score
    // five hundredths less per position, down to the floor of one tenth from position 18 on
    ensures forall i :: 0 <= i < |r| ==> r[i].score == (if i < 18 then 100 - 5 * i else 10)
  {
    seq(|results|, i requires 0 <= i < |results| =>
      Hit(Get(results[i], "title", JString("")), Get(results[i], "url", JString("")),
          Get(results[i], "description", JString("")), ScoreAt(i)))
  }

  /** How a reply becomes the tool's result. */
  function HandleReply(outcome: HttpOutcome, shapeError: string): (r: Result<seq<Hit>, Raised>)
    ensures outcome.TransportError? ==> r == Failure(Error(RequestFailedPrefix + outcome.message))
    ensures outcome.Reply? && outcome.status == 429 ==> r == Failure(Error(RateLimited))
    ensures outcome.Reply? && outcome.status == 401 ==> r == Failure(Error(InvalidKey))
    ensures outcome.Reply? && outcome.status !in {200, 401, 429} ==>
              r == Failure(Error("Brave API returned " + IntToString(outcome.status) + ": " + outcome.text))
    ensures r.Success? ==> outcome.Reply? && outcome.status == 200 && outcome.body.Success?
                           && WebResults(outcome.body.value, shapeError).Success?
                           && r.value == Hits(WebResults(outcome.body.value, shapeError).value)
    // a reply never raises the argument errors
    ensures r.Failure? ==> r.error.Error?
  {
    match outcome
    case TransportError(message) => Failure(Error(RequestFailedPrefix + message))
    case Reply(status, text, body) =>
      if status == 429 then Failure(Error(RateLimited))
      else if status == 401 then Failure(Error(InvalidKey))
      else if status != 200 then
        Failure(Error("Brave API returned " + IntToString(status) + ": " + text))
      else match body
        case Failure(decodeError) => Failure(Error(decodeError))
        case Success(data) =>
          match WebResults(data, shapeError)
          case Failure(e) => Failure(e)
          case Success(results) => Success(Hits(results))
  }

  /** `search_web_tool(api_key, query, count, offset, country, lang)`. */
  function SearchWebTool(apiKey: string, query: string, count: int, offset: int,
                         country: Option<string>, lang: Option<string>,
                         http: Request -> HttpOutcome, shapeError: string): (r: Result<seq<Hit>, Raised>)
    // the key is checked first, then the query, both before any request
    ensures Blank(apiKey) ==> r == Failure(ValueError(KeyRequired))
    ensures !Blank(apiKey) && Blank(query) ==> r == Failure(ValueError(QueryEmpty))
    ensures r.Failure? && r.error.ValueError? ==> Blank(apiKey) || Blank(query)
    ensures !Blank(apiKey) && !Blank(query) ==>
              r == HandleReply(http(SearchRequest(apiKey, query, ClampCount(count), offset, country, lang)), shapeError)
  {
    if Blank(apiKey) then Failure(ValueError(KeyRequired))
    else if Blank(query) then Failure(ValueError(QueryEmpty))
    else HandleReply(http(SearchRequest(apiKey, query, ClampCount(count), offset, country, lang)), shapeError)
  }

  /** A successful search answers a request for between one and twenty results, and has
      one hit per web result of the reply, in order. */
  lemma SuccessfulSearch(apiKey: string, query: string, count: int, offset: int,
                         country: Option<string>, lang: Option<string>,
                         http: Request -> HttpOutcome, shapeError: string)
    requires SearchWebTool(apiKey, query, count, offset, country, lang, http, shapeError).Success?
    ensures var request := SearchRequest(apiKey, query, ClampCount(count), offset, country, lang);
            var reply := http(request);
            && !Blank(apiKey) && !Blank(query)
            && request.params[1].1.n == ClampCount(count) && 1 <= request.params[1].1.n <= 20
            && reply.Reply? && reply.status == 200 && reply.body.Success?
            && WebResults(reply.body.value, shapeError).Success?
            && SearchWebTool(apiKey, query, count, offset, country, lang, http, shapeError).value
               == Hits(WebResults(reply.body.value, shapeError).value)
  {
    var request := SearchRequest(apiKey, query, ClampCount(count), offset, country, lang);
    assert SearchWebTool(apiKey, query, count, offset, country, lang, http, shapeError)
           == HandleReply(http(request), shapeError);
  }
}
