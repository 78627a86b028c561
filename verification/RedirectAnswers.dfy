/**
 What a redirect answer does to a fetch, spelled out (src/fetch/fetch.ts `httpRedirectFetch`, `mainFetch`,
 `dispatchFetch`; src/fetch/response.ts `getLocationURL`): when it is followed, what is requested next, and which
 answer a chain ends with.
 */
module RedirectAnswers {
  import opened Prelude
  import opened Text
  import opened HeaderList
  import opened RedirectChain

  /** The one Location line of a redirect status, parsed; a target without a fragment inherits it. */
  predicate SendsTo(world: World, request: Request, response: Response, target: URL)
    requires request.Valid()
  {
    var lines, from := ValuesOf(response.headers, "Location"), request.urls[|request.urls| - 1];
    response.status in {301, 302, 303, 307, 308} && |lines| == 1 &&
    var url := world.parse(lines[0], from);
    url != None && target == if url.value.fragment == None then url.value.(fragment := from.fragment) else url.value
  }

  /** The target may be fetched: HTTP(S), fewer than twenty redirects so far, credentials where they are allowed. */
  predicate Allowed(request: Request, target: URL)
  {
    (target.scheme == "http" || target.scheme == "https") && request.redirectCount < 20 &&
    (target.username + target.password == "" ||
     (request.tainting != CORSTainting &&
      (request.mode != CORS || request.origin == Tuple(target.scheme, target.host, target.port))))
  }

  predicate Leads(world: World, request: Request, response: Response, target: URL)
    requires request.Valid()
  {
    SendsTo(world, request, response, target) && Allowed(request, target) &&
    (request.body == Some(Streamed) ==> response.status == 303 && request.method_ !in {"GET", "HEAD"})
  }

  /** A POST that moved, or anything but GET and HEAD to see elsewhere, goes on as a GET without a body. */
  predicate GoesOnAsGet(method_: string, status: int)
  {
    (method_ == "POST" && (status == 301 || status == 302)) || (status == 303 && method_ !in {"GET", "HEAD"})
  }

  /** What is requested after `request` is sent to `target` with this status. */
  ghost predicate Continues(request: Request, status: int, target: URL, next: Request)
    requires request.Valid()
  {
    var from, get := request.urls[|request.urls| - 1], GoesOnAsGet(request.method_, status);
    var away := (from.scheme, from.host, from.port) != (target.scheme, target.host, target.port);
    next.urls == request.urls + [target] && next.redirectCount == request.redirectCount + 1 &&
    next.method_ == (if get then "GET" else request.method_) &&
    next.body == (if get then None else request.body) &&
    (forall name :: ValuesOf(next.headers, name) ==
      if get && Lower(name) in {"content-encoding", "content-language", "content-location", "content-type"} then []
      else if away && Lower(name) == "authorization" then []
      else ValuesOf(request.headers, name)) &&
    next.mode == request.mode && next.navigation == request.navigation && next.origin == request.origin &&
    next.tainting == request.tainting
  }

  /** A redirect is followed exactly if it leads somewhere, and then this is what is requested. */
  lemma FollowsExactly(world: World, request: Request, response: Response, target: URL)
    requires request.Valid()
    ensures Leads(world, request, response, target) <==>
      var step := Redirect(world, request, response);
      step.Follow? && step.request.urls[|step.request.urls| - 1] == target
    ensures var step := Redirect(world, request, response);
      step.Follow? ==>
        Continues(request, response.status, step.request.urls[|step.request.urls| - 1], step.request)
  {
    hide Without, ValuesOf;
    var step := Redirect(world, request, response);
    var kept :=
      if GoesOnAsGet(request.method_, response.status) then Without(request.headers, BODY_NAMES) else request.headers;
    forall name
      ensures ValuesOf(Without(request.headers, BODY_NAMES), name) ==
        if Lower(name) in BODY_NAMES then [] else ValuesOf(request.headers, name)
      ensures ValuesOf(Without(kept, AUTHORIZATION), name) ==
        if Lower(name) in AUTHORIZATION then [] else ValuesOf(kept, name)
    {
      WithoutValues(request.headers, BODY_NAMES, name);
      WithoutValues(kept, AUTHORIZATION, name);
    }
  }

  /** How it ends otherwise. */
  lemma StopsExactly(world: World, request: Request, response: Response)
    requires request.Valid()
    ensures Redirect(world, request, response) == Done(Delivered(response)) <==>
      response.status !in {301, 302, 303, 307, 308} || ValuesOf(response.headers, "Location") == []
    ensures forall other :: Redirect(world, request, response) == Done(Delivered(other)) ==> other == response
    ensures Redirect(world, request, response) == Done(Fault) <==>
      request.body == Some(Streamed) && request.method_ in {"GET", "HEAD"} && response.status == 303 &&
      exists target :: SendsTo(world, request, response, target) && Allowed(request, target)
  {
    hide Without, ValuesOf;
    var location := LocationOf(world, request, response);
    if location.To? { assert SendsTo(world, request, response, location.url); }
  }

  /** Before it is sent, a request for an insecure URL may be upgraded, and a navigation says that it would like to. */
  ghost predicate Prepared(world: World, request: Request, sent: Request)
    requires request.Valid()
  {
    var last := request.urls[|request.urls| - 1];
    var secure := last.(scheme := "https", port := if last.port == Some(443) then None else last.port);
    var url := if world.upgraded(request) && last.scheme == "http" then secure else last;
    sent.urls == request.urls[..|request.urls| - 1] + [url] &&
    (forall name :: Get(sent.headers, name) ==
      if request.navigation && Same(name, "Upgrade-Insecure-Requests") then Some("1")
      else Get(request.headers, name)) &&
    sent.method_ == request.method_ && sent.body == request.body && sent.redirectCount == request.redirectCount &&
    sent.mode == request.mode && sent.navigation == request.navigation && sent.origin == request.origin
  }

  /** The tainting of the response to what is sent; None: it is not sent. */
  function TaintingOf(sent: Request, before: Tainting): Option<Tainting>
    requires sent.urls != []
  {
    var url := sent.urls[|sent.urls| - 1];
    var same := sent.origin == Tuple(url.scheme, url.host, url.port);
    if sent.mode == Navigate || (before == Basic && same) then Some(Basic)
    else if sent.mode == SameOriginMode then None
    else if sent.mode == NoCORS then Some(OpaqueTainting)
    else Some(CORSTainting)
  }

  lemma SentExactly(world: World, request: Request) returns (prepared: Request)
    requires request.Valid()
    ensures Prepared(world, request, prepared) && prepared.urls != []
    ensures Sent(world, request) ==
      match TaintingOf(prepared, request.tainting)
      case None => None
      case Some(tainting) => Some(prepared.(tainting := tainting))
  {
    hide Get, Set;
    prepared := Enter(world, request);
    var n := |request.urls| - 1;
    assert request.urls == request.urls[..n] + [request.urls[n]];
    assert forall url :: request.urls[n := url] == request.urls[..n] + [url];
    forall name
      ensures Get(Set(request.headers, UPGRADE, "1"), name) ==
        if Same(name, UPGRADE) then Some("1") else Get(request.headers, name)
    {
      GetSet(request.headers, UPGRADE, "1", name);
    }
  }

  /** The answer to the last request of a chain is what it delivers, if that is no redirect or has no location. */
  lemma {:induction false} DeliversExactly(world: World, request: Request, before: seq<Request>, response: Response)
    requires request.Valid()
    ensures var (sent, outcome) := Fetch(world, request, before);
      outcome == Delivered(response) <==>
      sent != [] && world.serve(before + sent) == Some(response) &&
      (response.status !in {301, 302, 303, 307, 308} || ValuesOf(response.headers, "Location") == [])
    decreases 20 - request.redirectCount
  {
    hide Redirect, Sent, ValuesOf;
    var first := Sent(world, request);
    if first.Some? && world.serve(before + [first.value]).Some? {
      var answer := world.serve(before + [first.value]).value;
      StopsExactly(world, first.value, answer);
      var step := Redirect(world, first.value, answer);
      if step.Follow? {
        var rest := Fetch(world, step.request, before + [first.value]).0;
        DeliversExactly(world, step.request, before + [first.value], response);
        assert before + [first.value] + rest == before + ([first.value] + rest);
        if rest == [] { assert before + [first.value] + [] == before + [first.value]; }
      }
    }
  }

  /** The first request of a chain is the one given, if it may be sent. */
  lemma ChainStarts(world: World, request: Request) returns (prepared: Request)
    requires request.Valid()
    ensures Prepared(world, request, prepared) && prepared.urls != []
    ensures var trace, tainting := Trace(world, request), TaintingOf(prepared, request.tainting);
      if tainting == None then trace == [] else trace != [] && trace[0] == prepared.(tainting := tainting.value)
  {
    hide Redirect, Sent, Prepared, TaintingOf;
    prepared := SentExactly(world, request);
  }

  /** Each later request of a chain is where the answer to the one before it leads. */
  lemma ChainLeads(world: World, request: Request, i: nat)
    returns (response: Response, target: URL, next: Request, prepared: Request)
    requires request.Valid() && i + 1 < |Trace(world, request)|
    ensures var trace := Trace(world, request);
      trace[i].Valid() && world.serve(trace[..i + 1]) == Some(response) &&
      Leads(world, trace[i], response, target) && Continues(trace[i], response.status, target, next) && next.Valid() &&
      Prepared(world, next, prepared) && prepared.urls != [] && TaintingOf(prepared, next.tainting).Some? &&
      trace[i + 1] == prepared.(tainting := TaintingOf(prepared, next.tainting).value)
  {
    hide Fetch, Redirect, Sent, Leads, Continues, Prepared, TaintingOf;
    var trace := Trace(world, request);
    TraceHops(world, request, i);
    response := world.serve(trace[..i + 1]).value;
    next := Redirect(world, trace[i], response).request;
    target := next.urls[|next.urls| - 1];
    FollowsExactly(world, trace[i], response, target);
    prepared := SentExactly(world, next);
  }

  /** A chain stops where nothing answers, where no redirect leads on, or where it may not be sent on. */
  lemma {:induction false} ChainStops(world: World, request: Request, before: seq<Request>)
    returns (next: Request, prepared: Request)
    requires request.Valid()
    ensures var sent := Fetch(world, request, before).0;
      sent != [] && world.serve(before + sent).Some? ==>
        var last, response := sent[|sent| - 1], world.serve(before + sent).value;
        last.Valid() && forall target :: Leads(world, last, response, target) ==>
          Continues(last, response.status, target, next) && next.Valid() &&
          Prepared(world, next, prepared) && prepared.urls != [] && TaintingOf(prepared, next.tainting) == None
    decreases 20 - request.redirectCount
  {
    hide Redirect, Sent, Leads, Continues, Prepared, TaintingOf;
    next, prepared := request, request;
    var first := Sent(world, request);
    if first.Some? && world.serve(before + [first.value]).Some? {
      var answer := world.serve(before + [first.value]).value;
      forall target {
        FollowsExactly(world, first.value, answer, target);
      }
      var step := Redirect(world, first.value, answer);
      if step.Follow? {
        var rest := Fetch(world, step.request, before + [first.value]).0;
        assert before + [first.value] + rest == before + ([first.value] + rest);
        if rest == [] {
          assert [first.value] + rest == [first.value];
          next := step.request;
          prepared := SentExactly(world, next);
          EmptyChain(world, next, before + [first.value]);
        } else {
          next, prepared := ChainStops(world, step.request, before + [first.value]);
        }
      }
    }
  }

  lemma EmptyChain(world: World, request: Request, before: seq<Request>)
    requires request.Valid() && Fetch(world, request, before).0 == []
    ensures Sent(world, request) == None
  {
  }
}
