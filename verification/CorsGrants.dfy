/**
 Which stored permissions let a request skip its preflight, in terms of the calls of `store` and `clearEntries` made so
 far (src/fetch/cache-cors.ts; section 4.9 of the Fetch Standard).
 */
module CorsGrants {
  import opened Prelude
  import opened Text
  import opened CorsCache

  predicate SameName(a: Option<string>, b: Option<string>)
  {
    (a == None && b == None) || (a != None && b != None && Same(a.value, b.value))
  }

  /** A later call that takes the place of a store, or undoes it. */
  predicate Undoes(later: Event, store: Event)
    requires store.Store?
  {
    var a, b := store.request, later.request;
    b.key == a.key && b.origin == a.origin && b.url == a.url &&
    (later.Clear? ||
     (b.credentialed == a.credentialed && later.method_ == store.method_ && SameName(later.header, store.header)))
  }

  /** Call `i` stored a permission, which no later call has replaced or cleared. */
  predicate Last(events: seq<Event>, i: nat)
  {
    i < |events| && events[i].Store? && events[i].request.key != None &&
    forall j :: i < j < |events| ==> !Undoes(events[j], events[i])
  }

  /** And it has not expired, by its own lifetime or the cache's, nor been shifted out of a full cache. */
  predicate Stands(limits: Limits, events: seq<Event>, i: nat, now: real)
  {
    Last(events, i) && var s := events[i];
    var lifetime := if s.maxAge < limits.maxAge then s.maxAge else limits.maxAge;
    now < s.now + lifetime * 1000.0 &&
    !ShiftedOut(limits, events,
      Permission(s.request.key.value, s.request.origin, s.request.url, s.request.credentialed, s.method_,
        if s.header == None then None else Some(Lower(s.header.value))))
  }

  /**
   What was stored lets the request do this: it named the method, or a header that is the same but for case; or "*",
   for anything but authorization, where no credentials are sent.
   */
  predicate Lets(store: Event, request: Request, query: Query)
    requires store.Store?
  {
    var a := store.request;
    request.key == a.key && request.origin == a.origin && request.url == a.url &&
    (request.credentialed ==> a.credentialed) &&
    match query
    case MethodQuery(method_) =>
      store.method_ == Some(method_) || (store.method_ == Some("*") && !request.credentialed)
    case HeaderQuery(name) =>
      store.header != None &&
      (Same(store.header.value, name) ||
       (store.header == Some("*") && !request.credentialed && !Same(name, "authorization")))
  }

  function Named(store: Event): Permission
    requires store.Store? && store.request.key.Some?
  {
    PermissionOf(store.request, store.method_, store.header)
  }

  lemma OnlyStarIsStar(name: string)
    ensures Lower(name) == "*" <==> name == "*"
  {
    if |name| == 1 { assert Lower(name)[0] == LowerChar(name[0]); }
  }

  lemma LowerAuthorization()
    ensures Lower("authorization") == "authorization" && Lower("*") == "*"
  {
  }

  lemma LetsGrants(store: Event, request: Request, query: Query)
    requires store.Store? && store.request.key.Some?
    ensures Lets(store, request, query) <==> Grants(Named(store), request, query)
  {
    hide Lower;
    LowerAuthorization();
    if store.header.Some? { OnlyStarIsStar(store.header.value); }
  }

  lemma UndoesNamed(later: Event, store: Event)
    requires store.Store? && store.request.key.Some?
    ensures Undoes(later, store) <==>
      later.request.key.Some? &&
      if later.Clear? then Covers(later.request.key.value, later.request.origin, later.request.url, Named(store))
      else Named(later) == Named(store)
  {
  }

  /** What the last store set is what counts. */
  lemma {:induction false} LastSets(limits: Limits, events: seq<Event>, i: nat)
    requires Last(events, i)
    ensures LastGrant(limits, events, Named(events[i])) == Some(Deadline(limits, events[i].maxAge, events[i].now))
    decreases |events|
  {
    hide Deadline, PermissionOf, Undoes, Covers;
    var n := |events| - 1;
    if i < n {
      assert events[..n][i] == events[i];
      assert forall j :: i < j < n ==> events[..n][j] == events[j];
      LastSets(limits, events[..n], i);
      UndoesNamed(events[n], events[i]);
    }
  }

  /** And nothing else does. */
  lemma {:induction false} SetByLast(limits: Limits, events: seq<Event>, permission: Permission) returns (i: nat)
    requires LastGrant(limits, events, permission).Some?
    ensures Last(events, i) && Named(events[i]) == permission
    decreases |events|
  {
    hide Deadline, PermissionOf, Undoes, Covers;
    var n := |events| - 1;
    var last := events[n];
    if last.Store? && last.request.key.Some? && Named(last) == permission {
      i := n;
    } else {
      i := SetByLast(limits, events[..n], permission);
      assert events[..n][i] == events[i];
      UndoesNamed(last, events[i]);
      forall j | i < j < |events| ensures !Undoes(events[j], events[i]) {
        if j < n { assert events[..n][j] == events[j]; }
      }
    }
  }

  /** For every run: a request is let through exactly if some store that stands lets it. */
  lemma MatchesExactly(limits: Limits, events: seq<Event>, start: real, request: Request, query: Query, now: real)
    requires Timely(events, start) && now >= Time(events, start)
    ensures Matches(Cache(limits, []).Run(events).entries, request, query, now) <==>
      exists i: nat :: Stands(limits, events, i, now) && Lets(events[i], request, query)
  {
    hide Lets, Undoes, Grants, ShiftedOut, LastGrant, Matches, Named, Timely;
    MatchExact(limits, events, start, request, query, now);
    if permission :|
      Grants(permission, request, query) && InForce(limits, events, permission, now) &&
      !ShiftedOut(limits, events, permission)
    {
      var i := SetByLast(limits, events, permission);
      StandsNamed(limits, events, i, now);
      LetsGrants(events[i], request, query);
    }
    if i: nat :| Stands(limits, events, i, now) && Lets(events[i], request, query) {
      StandsNamed(limits, events, i, now);
      LetsGrants(events[i], request, query);
    }
  }

  lemma StandsNamed(limits: Limits, events: seq<Event>, i: nat, now: real)
    requires i < |events| && events[i].Store? && events[i].request.key.Some?
    ensures Stands(limits, events, i, now) <==>
      Last(events, i) && InForce(limits, events, Named(events[i]), now) && !ShiftedOut(limits, events, Named(events[i]))
  {
    hide Last, ShiftedOut, LastGrant;
    if Last(events, i) { LastSets(limits, events, i); }
  }

  predicate WildcardsOnly(events: seq<Event>)
  {
    forall e :: e in events && e.Store? ==> e.method_ in {None, Some("*")} && e.header in {None, Some("*")}
  }

  /** Where nothing but wildcards was stored, authorization is never let through, nor anything with credentials. */
  lemma WildcardsAreNotEnough(
    limits: Limits, events: seq<Event>, start: real, request: Request, query: Query, now: real)
    requires Timely(events, start) && now >= Time(events, start) && WildcardsOnly(events)
    requires (query.HeaderQuery? && Same(query.name, "authorization")) ||
      (request.credentialed && query != MethodQuery("*") && query != HeaderQuery("*"))
    ensures !Matches(Cache(limits, []).Run(events).entries, request, query, now)
  {
    hide ShiftedOut, Timely, Matches, Undoes, Lower, Cache.Run, Time;
    LowerAuthorization();
    if query.HeaderQuery? { OnlyStarIsStar(query.name); }
    MatchesExactly(limits, events, start, request, query, now);
    assert forall i :: 0 <= i < |events| ==> events[i] in events;
  }
}
