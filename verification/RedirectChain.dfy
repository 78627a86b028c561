/**
 The redirect chain of an automatic fetch (src/fetch/fetch.ts `mainFetch`, `dispatchFetch`, `httpFetch`,
 `httpRedirectFetch`). The servers answer as they like, knowing every request they were sent; URL parsing
 and the upgrade of insecure URLs are parameters.
 */
module RedirectChain {
  import opened Prelude
  import opened Text
  import opened HeaderList

  datatype URL = URL(scheme: string, host: string, port: Option<nat>, username: string, password: string,
                     path: string, fragment: Option<string>)

  datatype Origin = Tuple(scheme: string, host: string, port: Option<nat>) | Opaque(id: nat)

  function OriginOf(url: URL): Origin { Tuple(url.scheme, url.host, url.port) }

  predicate HTTPScheme(scheme: string) { scheme == "http" || scheme == "https" }

  datatype Mode = SameOriginMode | NoCORS | CORS | Navigate

  datatype Tainting = Basic | CORSTainting | OpaqueTainting

  /** Body bytes that can be supplied again, or a stream that cannot. */
  datatype Body = Retained(source: seq<nat>) | Streamed

  datatype Request = Request(
    method_: string, body: Option<Body>, headers: seq<Header>, urls: seq<URL>, redirectCount: nat,
    mode: Mode, navigation: bool, origin: Origin, tainting: Tainting)
  {
    predicate Valid() { urls != [] && HTTPScheme(Current().scheme) && redirectCount <= 20 }

    function Current(): URL requires urls != [] { urls[|urls| - 1] }
  }

  datatype Response = Response(status: int, headers: seq<Header>)

  /**
   What the fetch depends on: the servers and the checks of their responses, URL parsing against a base, and which
   requests get upgraded.
   */
  datatype World = World(
    serve: seq<Request> -> Option<Response>, parse: (string, URL) -> Option<URL>, upgraded: Request -> bool)

  /** `isRedirectStatus` */
  predicate RedirectStatus(status: int) { status in {301, 302, 303, 307, 308} }

  /** The names of `isRequestBodyHeaderName`. */
  const BODY_NAMES: set<string> := {"content-encoding", "content-language", "content-location", "content-type"}

  /** The name of `isCORSNonWildcardRequestHeaderName`. */
  const AUTHORIZATION: set<string> := {"authorization"}

  /** `filter` by header name, without regard to case. */
  function Without(list: seq<Header>, gone: set<string>): seq<Header>
  {
    if list == [] then [] else (if Lower(list[0].name) in gone then [] else [list[0]]) + Without(list[1..], gone)
  }

  // ---------------------------------------------------------------------------
  // Where a response leads
  // ---------------------------------------------------------------------------

  datatype Location = NoLocation | BadLocation | To(url: URL)

  /** `getLocationURL`: one Location line, which inherits the fragment. */
  function LocationOf(world: World, request: Request, response: Response): Location
    requires request.urls != []
  {
    var values := ValuesOf(response.headers, "Location");
    if !RedirectStatus(response.status) || values == [] then NoLocation
    else if |values| > 1 then BadLocation
    else match world.parse(values[0], request.Current())
      case None => BadLocation
      case Some(url) => To(if url.fragment == None then url.(fragment := request.Current().fragment) else url)
  }

  predicate Rewrites(method_: string, status: int)
  {
    ((status == 301 || status == 302) && method_ == "POST") || (status == 303 && method_ != "GET" && method_ != "HEAD")
  }

  /** `Fault`: the error that the source raises for a body without a retained source. */
  datatype Outcome = Delivered(response: Response) | NetworkError | Fault

  datatype Step = Done(outcome: Outcome) | Follow(request: Request)

  /** `httpRedirectFetch` up to its re-entry of main fetch. */
  function Redirect(world: World, request: Request, response: Response): (step: Step)
    requires request.Valid()
    ensures step.Follow? ==> step.request.Valid() && request.redirectCount != 20
    ensures step.Follow? ==> step.request.redirectCount == request.redirectCount + 1
  {
    match LocationOf(world, request, response)
    case NoLocation => Done(Delivered(response))
    case BadLocation => Done(NetworkError)
    case To(url) =>
      if !HTTPScheme(url.scheme) || request.redirectCount == 20 then Done(NetworkError)
      else if (url.username != "" || url.password != "") &&
        ((request.mode == CORS && request.origin != OriginOf(url)) || request.tainting == CORSTainting)
      then Done(NetworkError)
      else if response.status != 303 && request.body == Some(Streamed) then Done(NetworkError)
      else
        var rewritten :=
          if Rewrites(request.method_, response.status)
          then request.(method_ := "GET", body := None, headers := Without(request.headers, BODY_NAMES))
          else request;
        var headers :=
          if OriginOf(request.Current()) != OriginOf(url) then Without(rewritten.headers, AUTHORIZATION)
          else rewritten.headers;
        if rewritten.body == Some(Streamed) then Done(Fault)
        else
          Follow(rewritten.(
            headers := headers, urls := request.urls + [url], redirectCount := request.redirectCount + 1))
  }

  // ---------------------------------------------------------------------------
  // Main fetch
  // ---------------------------------------------------------------------------

  const UPGRADE := "Upgrade-Insecure-Requests"

  function Upgraded(url: URL): URL
  {
    if url.scheme != "http" then url
    else url.(scheme := "https", port := if url.port == Some(443) then None else url.port)
  }

  /** `mainFetch` before dispatch: the navigation header, and perhaps an upgrade of the current URL in place. */
  function Enter(world: World, request: Request): (r: Request)
    requires request.Valid()
    ensures r.Valid() && r.redirectCount == request.redirectCount && r.Current().host == request.Current().host
  {
    var headers := if request.navigation then Set(request.headers, UPGRADE, "1") else request.headers;
    var last := |request.urls| - 1;
    request.(headers := headers,
      urls := if world.upgraded(request) then request.urls[last := Upgraded(request.Current())] else request.urls)
  }

  /** `dispatchFetch`: the request as it is sent, or None for a network error. */
  function Dispatch(request: Request): (r: Option<Request>)
    requires request.Valid()
  {
    if (OriginOf(request.Current()) == request.origin && request.tainting == Basic) || request.mode == Navigate
    then Some(request.(tainting := Basic))
    else match request.mode
      case SameOriginMode => None
      case NoCORS => Some(request.(tainting := OpaqueTainting))
      case _ => Some(request.(tainting := CORSTainting))
  }

  function Sent(world: World, request: Request): (r: Option<Request>)
    requires request.Valid()
    ensures r.Some? ==> r.value.Valid() && r.value.redirectCount == request.redirectCount
  {
    Dispatch(Enter(world, request))
  }

  /** The requests that are sent, in order, and how the fetch ends. */
  function Fetch(world: World, request: Request, before: seq<Request>): (seq<Request>, Outcome)
    requires request.Valid()
    decreases 20 - request.redirectCount
  {
    match Sent(world, request)
    case None => ([], NetworkError)
    case Some(sent) =>
      match world.serve(before + [sent])
      case None => ([sent], NetworkError)
      case Some(response) =>
        match Redirect(world, sent, response)
        case Done(outcome) => ([sent], outcome)
        case Follow(next) =>
          var (rest, outcome) := Fetch(world, next, before + [sent]);
          ([sent] + rest, outcome)
  }

  // ---------------------------------------------------------------------------
  // What a hop keeps
  // ---------------------------------------------------------------------------

  predicate Free(headers: seq<Header>, gone: set<string>)
  {
    forall h :: h in headers ==> Lower(h.name) !in gone
  }

  lemma {:induction false} WithoutLines(list: seq<Header>, gone: set<string>, h: Header)
    ensures h in Without(list, gone) <==> h in list && Lower(h.name) !in gone
  {
    if list != [] { WithoutLines(list[1..], gone, h); }
  }

  lemma {:induction false} WithoutValues(list: seq<Header>, gone: set<string>, name: string)
    ensures ValuesOf(Without(list, gone), name) == if Lower(name) in gone then [] else ValuesOf(list, name)
  {
    if list != [] {
      WithoutValues(list[1..], gone, name);
      var rest := Without(list[1..], gone);
      if Lower(list[0].name) in gone {
        assert Without(list, gone) == rest;
        assert Same(list[0].name, name) ==> Lower(name) in gone;
      } else {
        assert Without(list, gone) == [list[0]] + rest && ([list[0]] + rest)[1..] == rest;
      }
    }
  }

  /** A later request of the chain, as against an earlier one. */
  predicate Descends(a: Request, b: Request)
  {
    (b.body == a.body || (b.body == None && b.method_ == "GET" && Free(b.headers, BODY_NAMES))) &&
    (b.method_ == a.method_ || (b.method_ == "GET" && b.body == None && Free(b.headers, BODY_NAMES))) &&
    (a.method_ == "GET" ==> b.method_ == "GET") &&
    (Free(a.headers, BODY_NAMES) ==> Free(b.headers, BODY_NAMES)) &&
    (Free(a.headers, AUTHORIZATION) ==> Free(b.headers, AUTHORIZATION)) &&
    (a.mode != Navigate && a.tainting != Basic ==> b.tainting != Basic) &&
    b.navigation == a.navigation && b.mode == a.mode && b.origin == a.origin
  }

  /** The step after which main fetch runs again. */
  lemma RedirectDescends(world: World, request: Request, response: Response)
    requires request.Valid()
    ensures match Redirect(world, request, response)
      case Done(_) => true
      case Follow(next) =>
        Descends(request, next) && next.body != Some(Streamed) &&
        (Rewrites(request.method_, response.status) ==>
          next.method_ == "GET" && next.body == None && Free(next.headers, BODY_NAMES)) &&
        (OriginOf(request.Current()) != OriginOf(next.Current()) ==> Free(next.headers, AUTHORIZATION))
  {
    var kept :=
      if Rewrites(request.method_, response.status) then Without(request.headers, BODY_NAMES) else request.headers;
    forall h
      ensures h in Without(request.headers, BODY_NAMES) <==> h in request.headers && Lower(h.name) !in BODY_NAMES
    {
      WithoutLines(request.headers, BODY_NAMES, h);
    }
    forall h ensures h in Without(kept, AUTHORIZATION) <==> h in kept && Lower(h.name) !in AUTHORIZATION {
      WithoutLines(kept, AUTHORIZATION, h);
    }
  }

  lemma SentDescends(world: World, request: Request)
    requires request.Valid()
    ensures match Sent(world, request)
      case None => true
      case Some(sent) => Descends(request, sent) && sent.body == request.body && sent.method_ == request.method_
  {
    hide Set, Free;
    assert Lower(UPGRADE) == "upgrade-insecure-requests";
    UpgradeStaysFree(request.headers, BODY_NAMES);
    UpgradeStaysFree(request.headers, AUTHORIZATION);
  }

  lemma UpgradeStaysFree(headers: seq<Header>, gone: set<string>)
    requires Lower(UPGRADE) !in gone
    ensures Free(headers, gone) ==> Free(Set(headers, UPGRADE, "1"), gone)
  {
    hide Set;
    forall h | h in Set(headers, UPGRADE, "1") ensures Same(h.name, UPGRADE) || h in headers {
      LinesOfSet(headers, UPGRADE, "1", h);
    }
  }

  lemma DescendsAgain(a: Request, b: Request, c: Request)
    ensures Descends(a, b) && Descends(b, c) ==> Descends(a, c)
    ensures KeepsFields(a, b) && KeepsFields(b, c) ==> KeepsFields(a, c)
  {
    hide Get, Free;
  }

  lemma SelfDescends(a: Request)
    ensures Descends(a, a) && KeepsFields(a, a)
  {
  }

  /** Author fields are dropped, never changed or added. */
  ghost predicate KeepsFields(a: Request, b: Request)
  {
    forall name :: !Same(name, UPGRADE) ==> Get(b.headers, name) == None || Get(b.headers, name) == Get(a.headers, name)
  }

  lemma RedirectKeepsFields(world: World, request: Request, response: Response)
    requires request.Valid()
    ensures match Redirect(world, request, response)
      case Done(_) => true
      case Follow(next) => KeepsFields(request, next)
  {
    hide Get, LocationOf;
    var kept :=
      if Rewrites(request.method_, response.status) then Without(request.headers, BODY_NAMES) else request.headers;
    forall name
      ensures Get(kept, name) == None || Get(kept, name) == Get(request.headers, name)
      ensures var rest := Get(Without(kept, AUTHORIZATION), name); rest == None || rest == Get(kept, name)
    {
      GetWithout(request.headers, BODY_NAMES, name);
      GetWithout(kept, AUTHORIZATION, name);
    }
  }

  lemma GetWithout(list: seq<Header>, gone: set<string>, name: string)
    ensures Get(Without(list, gone), name) == if Lower(name) in gone then None else Get(list, name)
  {
    WithoutValues(list, gone, name);
  }

  lemma SentKeepsFields(world: World, request: Request)
    requires request.Valid()
    ensures match Sent(world, request) case None => true case Some(sent) => KeepsFields(request, sent)
  {
    hide Get, Set;
    forall name
      ensures Get(Set(request.headers, UPGRADE, "1"), name) ==
        if Same(name, UPGRADE) then Some("1") else Get(request.headers, name)
    {
      GetSet(request.headers, UPGRADE, "1", name);
    }
  }

  // ---------------------------------------------------------------------------
  // Whole chains
  // ---------------------------------------------------------------------------

  function Trace(world: World, request: Request): seq<Request>
    requires request.Valid()
  {
    Fetch(world, request, []).0
  }

  /** Having sent `history`, which ends with `a`, the fetch is redirected and goes on with this request. */
  function Redirected(world: World, history: seq<Request>, a: Request): (r: Option<Request>)
    requires a.Valid()
    ensures r.Some? ==> r.value.Valid()
  {
    match world.serve(history)
    case None => None
    case Some(response) =>
      match Redirect(world, a, response) case Done(_) => None case Follow(next) => Some(next)
  }

  /** And so sends `b`. */
  predicate Hop(world: World, history: seq<Request>, a: Request, b: Request)
    requires a.Valid()
  {
    var next := Redirected(world, history, a);
    next.Some? && Sent(world, next.value) == Some(b)
  }

  /** A hop that leads to another origin, before any upgrade of its URL. */
  predicate CrossesOrigin(world: World, history: seq<Request>, a: Request)
    requires a.Valid()
  {
    var next := Redirected(world, history, a);
    next.Some? && OriginOf(a.Current()) != OriginOf(next.value.Current())
  }

  lemma {:induction false} FetchHops(world: World, request: Request, before: seq<Request>, i: nat)
    requires request.Valid()
    ensures var trace := Fetch(world, request, before).0;
      i < |trace| ==>
        trace[i].Valid() && trace[i].redirectCount == request.redirectCount + i &&
        (i + 1 < |trace| ==> Hop(world, before + trace[..i + 1], trace[i], trace[i + 1]))
    decreases 20 - request.redirectCount
  {
    hide Redirect, Sent;
    var trace := Fetch(world, request, before).0;
    if i < |trace| {
      var sent := Sent(world, request).value;
      assert trace[0] == sent && trace[..1] == [sent];
      if |trace| > 1 {
        var next := Redirect(world, sent, world.serve(before + [sent]).value).request;
        var rest := Fetch(world, next, before + [sent]).0;
        assert trace == [sent] + rest;
        FetchHops(world, next, before + [sent], if i > 0 then i - 1 else 0);
        if i > 0 {
          assert before + [sent] + rest[..i] == before + trace[..i + 1];
        } else {
          assert rest[0] == Sent(world, next).value;
        }
      }
    }
  }

  /** Each request of a chain is one hop from the one before it. */
  lemma TraceHops(world: World, request: Request, i: nat)
    requires request.Valid()
    ensures var trace := Trace(world, request);
      i < |trace| ==>
        trace[i].Valid() && trace[i].redirectCount == request.redirectCount + i &&
        (i + 1 < |trace| ==> Hop(world, trace[..i + 1], trace[i], trace[i + 1]))
  {
    hide Fetch, Hop;
    FetchHops(world, request, [], i);
    var trace := Trace(world, request);
    if i < |trace| { assert [] + trace[..i + 1] == trace[..i + 1]; }
  }

  lemma HopDescends(world: World, history: seq<Request>, a: Request, b: Request)
    requires a.Valid()
    ensures Hop(world, history, a, b) ==>
      b.Valid() && (a.Current().host != b.Current().host ==> CrossesOrigin(world, history, a)) &&
      Descends(a, b) && KeepsFields(a, b) && b.body != Some(Streamed) &&
      (CrossesOrigin(world, history, a) ==> Free(b.headers, AUTHORIZATION))
  {
    hide Descends, KeepsFields, Redirect;
    if Hop(world, history, a, b) {
      var response := world.serve(history).value;
      var next := Redirected(world, history, a).value;
      RedirectDescends(world, a, response);
      RedirectKeepsFields(world, a, response);
      SentDescends(world, next);
      SentKeepsFields(world, next);
      DescendsAgain(a, next, b);
      StaysFree(next, b);
    }
  }

  lemma StaysFree(a: Request, b: Request)
    ensures Descends(a, b) && Free(a.headers, AUTHORIZATION) ==> Free(b.headers, AUTHORIZATION)
  {
  }

  /** Main fetch runs again at most twenty times, whatever the servers answer. */
  lemma AtMostTwentyRedirects(world: World, request: Request)
    requires request.Valid() && request.redirectCount == 0
    ensures |Trace(world, request)| <= 21
  {
    var trace := Trace(world, request);
    if trace != [] { TraceHops(world, request, |trace| - 1); }
  }

  /** What any later request of a chain keeps of an earlier one. */
  lemma {:induction false} TraceDescends(world: World, request: Request, i: nat, j: nat)
    requires request.Valid()
    ensures var trace := Trace(world, request);
      i <= j < |trace| ==>
        Descends(trace[i], trace[j]) && KeepsFields(trace[i], trace[j]) && (i < j ==> trace[j].body != Some(Streamed))
    decreases j
  {
    hide Fetch, Descends, Redirect, Sent, KeepsFields, Hop;
    var trace := Trace(world, request);
    if i == j < |trace| {
      SelfDescends(trace[i]);
    } else if i < j < |trace| {
      TraceDescends(world, request, i, j - 1);
      TraceHops(world, request, j - 1);
      HopDescends(world, trace[..j], trace[j - 1], trace[j]);
      DescendsAgain(trace[i], trace[j - 1], trace[j]);
    }
  }

  /** A body is sent again only from its retained source; once dropped, neither it nor its headers return. */
  lemma BodyOverChain(world: World, request: Request, i: nat, j: nat)
    requires request.Valid()
    ensures var trace := Trace(world, request);
      i < j < |trace| ==>
        match trace[j].body
        case Some(Retained(source)) => trace[i].body == Some(Retained(source)) && trace[j].method_ == trace[i].method_
        case Some(Streamed) => false
        case None => trace[i].body != None ==> trace[j].method_ == "GET" && Free(trace[j].headers, BODY_NAMES)
  {
    hide Fetch;
    TraceDescends(world, request, i, j);
  }

  /** A rewrite to GET is final, and takes the body and every header about it along. */
  lemma RewriteIsFinal(world: World, request: Request, i: nat, j: nat)
    requires request.Valid()
    ensures var trace := Trace(world, request);
      i < j < |trace| && trace[i + 1].method_ != trace[i].method_ ==>
        trace[j].method_ == "GET" && trace[j].body == None && Free(trace[j].headers, BODY_NAMES)
  {
    hide Fetch, KeepsFields;
    TraceDescends(world, request, i, i + 1);
    TraceDescends(world, request, i + 1, j);
  }

  /** After a hop to another origin no later request carries the author's authorization. */
  lemma AuthorizationDropped(world: World, request: Request, k: nat, j: nat)
    requires request.Valid()
    ensures var trace := Trace(world, request);
      k < j < |trace| ==>
        trace[k].Valid() && (CrossesOrigin(world, trace[..k + 1], trace[k]) ==> Free(trace[j].headers, AUTHORIZATION))
  {
    hide Fetch, Redirect, Sent, KeepsFields, Hop, CrossesOrigin;
    var trace := Trace(world, request);
    if k < j < |trace| {
      TraceHops(world, request, k);
      HopDescends(world, trace[..k + 1], trace[k], trace[k + 1]);
      TraceDescends(world, request, k + 1, j);
    }
  }

  /** So two requests of one chain to different hosts never both carry it. */
  lemma {:induction false} AuthorizationStaysHome(world: World, request: Request, i: nat, j: nat)
    requires request.Valid()
    ensures var trace := Trace(world, request);
      i < j < |trace| ==>
        trace[i].Valid() && trace[j].Valid() &&
        (trace[i].Current().host != trace[j].Current().host ==> Free(trace[j].headers, AUTHORIZATION))
    decreases j
  {
    hide Fetch, Redirect, Sent, KeepsFields, Hop, CrossesOrigin;
    var trace := Trace(world, request);
    if i < j < |trace| {
      TraceHops(world, request, i);
      TraceHops(world, request, j - 1);
      TraceHops(world, request, j);
      AuthorizationDropped(world, request, j - 1, j);
      HopDescends(world, trace[..j], trace[j - 1], trace[j]);
      AuthorizationStaysHome(world, request, i, j - 1);
      TraceDescends(world, request, j - 1, j);
    }
  }

  /** A location that a redirect follows: HTTP(S), within the limit, and without credentials where they are refused. */
  predicate Followed(world: World, request: Request, response: Response)
    requires request.Valid()
  {
    match LocationOf(world, request, response)
    case NoLocation => false
    case BadLocation => false
    case To(url) =>
      HTTPScheme(url.scheme) && request.redirectCount < 20 &&
      ((url.username == "" && url.password == "") ||
        !((request.mode == CORS && request.origin != OriginOf(url)) || request.tainting == CORSTainting))
  }

  /** A GET or HEAD request with a streamed body that is answered 303 with a location to follow. */
  predicate Faults(world: World, request: Request, before: seq<Request>)
    requires request.Valid()
  {
    request.body == Some(Streamed) && (request.method_ == "GET" || request.method_ == "HEAD") &&
    match Sent(world, request)
    case None => false
    case Some(sent) =>
      match world.serve(before + [sent])
      case None => false
      case Some(response) => response.status == 303 && Followed(world, sent, response)
  }

  lemma RedirectFaults(world: World, request: Request, response: Response)
    requires request.Valid()
    ensures Redirect(world, request, response) == Done(Fault) <==>
      request.body == Some(Streamed) && (request.method_ == "GET" || request.method_ == "HEAD") &&
      response.status == 303 && Followed(world, request, response)
  {
    hide LocationOf, Without;
  }

  /** The fetch faults over a missing body source exactly then, and then at the first answer. */
  lemma {:induction false} FaultExactly(world: World, request: Request, before: seq<Request>)
    requires request.Valid()
    ensures Fetch(world, request, before).1 == Fault <==> Faults(world, request, before)
    decreases 20 - request.redirectCount
  {
    hide Redirect, Followed, LocationOf, Descends;
    SentDescends(world, request);
    var sent := Sent(world, request);
    if sent.Some? && world.serve(before + [sent.value]).Some? {
      var response := world.serve(before + [sent.value]).value;
      RedirectFaults(world, sent.value, response);
      RedirectDescends(world, sent.value, response);
      if Redirect(world, sent.value, response).Follow? {
        FaultExactly(world, Redirect(world, sent.value, response).request, before + [sent.value]);
      }
    }
  }

  /** Such a request: the fetch faults. */
  lemma GetWithStreamFaults(url: URL)
    requires HTTPScheme(url.scheme) && url.username == "" && url.password == ""
    ensures exists world: World, request: Request ::
      request.Valid() && request.method_ == "GET" && Fetch(world, request, []).1 == Fault
  {
    var response := Response(303, [Header("Location", "/next")]);
    var world := World(_ => Some(response), (_, _) => Some(url), _ => false);
    var request := Request("GET", Some(Streamed), [], [url], 0, Navigate, false, OriginOf(url), Basic);
    assert response.headers[1..] == [] && ValuesOf(response.headers, "Location") == ["/next"];
    FaultExactly(world, request, []);
    assert Faults(world, request, []);
  }

  // ---------------------------------------------------------------------------
  // The request object, changed in place
  // ---------------------------------------------------------------------------

  class FetchRequest {
    var method_: string
    var body: Option<Body>
    var headers: seq<Header>
    var urls: seq<URL>
    var redirectCount: nat
    const mode: Mode
    const navigation: bool
    const origin: Origin
    var tainting: Tainting

    function State(): Request
      reads this
    {
      Request(method_, body, headers, urls, redirectCount, mode, navigation, origin, tainting)
    }

    constructor (request: Request)
      ensures State() == request
    {
      method_, body, headers, urls := request.method_, request.body, request.headers, request.urls;
      redirectCount, tainting := request.redirectCount, request.tainting;
      mode, navigation, origin := request.mode, request.navigation, request.origin;
    }

    /** `httpRedirectFetch`; None: main fetch runs again. */
    method HTTPRedirect(world: World, response: Response) returns (outcome: Option<Outcome>)
      requires State().Valid()
      modifies this
      ensures match Redirect(world, old(State()), response)
        case Done(o) => outcome == Some(o)
        case Follow(next) => outcome == None && State() == next
    {
      hide Without, LocationOf;
      var location := LocationOf(world, State(), response);
      if location.NoLocation? { return Some(Delivered(response)); }
      if location.BadLocation? || !HTTPScheme(location.url.scheme) || redirectCount == 20 { return Some(NetworkError); }
      redirectCount := redirectCount + 1;
      var url := location.url;
      var hasCredentials := url.username != "" || url.password != "";
      if hasCredentials && ((mode == CORS && origin != OriginOf(url)) || tainting == CORSTainting) {
        return Some(NetworkError);
      }
      if response.status != 303 && body == Some(Streamed) { return Some(NetworkError); }
      if ((response.status == 301 || response.status == 302) && method_ == "POST") ||
        (response.status == 303 && method_ != "GET" && method_ != "HEAD")
      {
        method_, body := "GET", None;
        headers := Without(headers, BODY_NAMES);
      }
      if OriginOf(urls[|urls| - 1]) != OriginOf(url) { headers := Without(headers, AUTHORIZATION); }
      if body == Some(Streamed) { return Some(Fault); }
      urls := urls + [url];
      outcome := None;
    }

    /** `mainFetch`: this ends whatever the servers answer. */
    method MainFetch(world: World, before: seq<Request>) returns (sent: seq<Request>, outcome: Outcome)
      requires State().Valid()
      modifies this
      ensures (sent, outcome) == Fetch(world, old(State()), before)
      decreases 20 - redirectCount
    {
      hide Redirect;
      var upgrade := world.upgraded(State());
      if navigation { headers := Set(headers, UPGRADE, "1"); }
      if upgrade {
        var last := |urls| - 1;
        urls := urls[last := Upgraded(urls[last])];
      }
      assert State() == Enter(world, old(State()));
      if !((OriginOf(urls[|urls| - 1]) == origin && tainting == Basic) || mode == Navigate) {
        if mode == SameOriginMode { return [], NetworkError; }
        tainting := if mode == NoCORS then OpaqueTainting else CORSTainting;
      } else {
        tainting := Basic;
      }
      var request := State();
      var answer := world.serve(before + [request]);
      if answer == None { return [request], NetworkError; }
      var done := HTTPRedirect(world, answer.value);
      if done.Some? { return [request], done.value; }
      var rest;
      rest, outcome := MainFetch(world, before + [request]);
      sent := [request] + rest;
    }
  }
}
