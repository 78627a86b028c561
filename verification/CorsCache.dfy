/**
 The CORS preflight permission cache (src/fetch/cache-cors.ts). Clock readings are arguments: `store`
 reads the clock twice, and time never runs backwards. A lifetime is in seconds, the clock in milliseconds.
 */
module CorsCache {
  import opened Prelude
  import opened Text

  /** What a grant is about: a partition, an origin, a URL, credentials, and one method or header name. */
  datatype Permission = Permission(
    key: string, origin: string, url: string, credentials: bool, method_: Option<string>, header: Option<string>)

  datatype Entry = Entry(permission: Permission, expiresAt: real)

  /** `credentialed`: the credentials mode is "include". A request without a partition key is not cached. */
  datatype Request = Request(key: Option<string>, origin: string, url: string, credentialed: bool)

  datatype Limits = Limits(maxAge: real, maxEntries: nat)

  // ---------------------------------------------------------------------------
  // The operations on a list of entries
  // ---------------------------------------------------------------------------

  function LowerName(header: Option<string>): Option<string>
  {
    match header case None => None case Some(name) => Some(Lower(name))
  }

  function PermissionOf(request: Request, method_: Option<string>, header: Option<string>): Permission
    requires request.key.Some?
  {
    Permission(request.key.value, request.origin, request.url, request.credentialed, method_, LowerName(header))
  }

  function Live(entries: seq<Entry>, now: real): seq<Entry>
  {
    if entries == [] then []
    else (if entries[0].expiresAt > now then [entries[0]] else []) + Live(entries[1..], now)
  }

  /** The first live entry of exactly this permission, or the length of the list. */
  function Place(entries: seq<Entry>, permission: Permission, now: real): (i: nat)
    ensures i <= |entries|
    ensures i < |entries| ==> entries[i].permission == permission && entries[i].expiresAt > now
    ensures forall j :: 0 <= j < i ==> !(entries[j].permission == permission && entries[j].expiresAt > now)
  {
    if entries == [] then 0
    else if entries[0].permission == permission && entries[0].expiresAt > now then 0
    else 1 + Place(entries[1..], permission, now)
  }

  function Deadline(limits: Limits, maxAge: real, now: real): real
  {
    now + (if maxAge <= limits.maxAge then maxAge else limits.maxAge) * 1000.0
  }

  /** `now` is the first clock reading, `later` the one made by the search. */
  function Stored(
    limits: Limits, entries: seq<Entry>, permission: Permission, maxAge: real, now: real, later: real): seq<Entry>
  {
    var live := Live(entries, now);
    var expiresAt := Deadline(limits, maxAge, now);
    var place := Place(live, permission, later);
    if place < |live| then live[place := live[place].(expiresAt := expiresAt)]
    else if expiresAt <= now || limits.maxEntries == 0 then live
    else Newest(live + [Entry(permission, expiresAt)], limits.maxEntries)
  }

  function Newest(entries: seq<Entry>, n: nat): seq<Entry>
  {
    if |entries| <= n then entries else entries[|entries| - n..]
  }

  predicate Covers(key: string, origin: string, url: string, permission: Permission)
  {
    permission.key == key && permission.origin == origin && permission.url == url
  }

  function Uncovered(entries: seq<Entry>, key: string, origin: string, url: string): seq<Entry>
  {
    if entries == [] then []
    else
      (if Covers(key, origin, url, entries[0].permission) then [] else [entries[0]]) +
      Uncovered(entries[1..], key, origin, url)
  }

  // ---------------------------------------------------------------------------
  // Matching
  // ---------------------------------------------------------------------------

  datatype Query = MethodQuery(method_: string) | HeaderQuery(name: string)

  /**
   The permission, were it held, lets the request do this: a wildcard never helps with credentials or
   authorization.
   */
  predicate Grants(permission: Permission, request: Request, query: Query)
  {
    request.key == Some(permission.key) && permission.origin == request.origin && permission.url == request.url &&
    (permission.credentials || !request.credentialed) &&
    match query
    case MethodQuery(method_) =>
      permission.method_ == Some(method_) || (permission.method_ == Some("*") && !request.credentialed)
    case HeaderQuery(name) =>
      permission.header == Some(Lower(name)) ||
      (permission.header == Some("*") && Lower(name) != "authorization" && !request.credentialed)
  }

  predicate Matches(entries: seq<Entry>, request: Request, query: Query, now: real)
  {
    exists e :: e in entries && e.expiresAt > now && Grants(e.permission, request, query)
  }

  // ---------------------------------------------------------------------------
  // Runs
  // ---------------------------------------------------------------------------

  datatype Event =
    | Store(request: Request, maxAge: real, method_: Option<string>, header: Option<string>, now: real, later: real)
    | Clear(request: Request)

  datatype Cache = Cache(limits: Limits, entries: seq<Entry>)
  {
    function After(event: Event): Cache
    {
      if event.request.key == None then this
      else match event
        case Store(request, maxAge, method_, header, now, later) =>
          this.(entries := Stored(limits, entries, PermissionOf(request, method_, header), maxAge, now, later))
        case Clear(request) =>
          this.(entries := Uncovered(entries, request.key.value, request.origin, request.url))
    }

    /** The cache after the events, oldest first. */
    function Run(events: seq<Event>): Cache
    {
      if events == [] then this else Run(events[..|events| - 1]).After(events[|events| - 1])
    }
  }

  /** The clock as of the last event. */
  function Time(events: seq<Event>, start: real): real
  {
    if events == [] then start
    else
      var last := events[|events| - 1];
      if last.Store? then last.later else Time(events[..|events| - 1], start)
  }

  predicate Timely(events: seq<Event>, start: real)
  {
    events == [] ||
    var before, last := events[..|events| - 1], events[|events| - 1];
    Timely(before, start) && (last.Store? ==> Time(before, start) <= last.now <= last.later)
  }

  /** The deadline set by the last store of exactly this permission, unless a clearing came after it. */
  function LastGrant(limits: Limits, events: seq<Event>, permission: Permission): Option<real>
  {
    if events == [] then None
    else
      var before, last := LastGrant(limits, events[..|events| - 1], permission), events[|events| - 1];
      if last.request.key == None then before
      else match last
        case Store(request, maxAge, method_, header, now, _) =>
          if PermissionOf(request, method_, header) == permission then Some(Deadline(limits, maxAge, now)) else before
        case Clear(request) =>
          if Covers(request.key.value, request.origin, request.url, permission) then None else before
  }

  /** Live entries are one for each permission. */
  ghost predicate Unique(entries: seq<Entry>, now: real)
  {
    forall i, j :: 0 <= i < j < |entries| && entries[i].expiresAt > now && entries[j].expiresAt > now ==>
      entries[i].permission != entries[j].permission
  }

  /** Every live entry carries the deadline of its permission's last grant. */
  ghost predicate Sound(limits: Limits, events: seq<Event>, entries: seq<Entry>, now: real)
  {
    forall e :: e in entries && e.expiresAt > now ==> LastGrant(limits, events, e.permission) == Some(e.expiresAt)
  }

  predicate InForce(limits: Limits, events: seq<Event>, permission: Permission, now: real)
  {
    match LastGrant(limits, events, permission) case None => false case Some(deadline) => deadline > now
  }

  // ---------------------------------------------------------------------------
  // What one operation keeps
  // ---------------------------------------------------------------------------

  lemma {:induction false} LiveElements(entries: seq<Entry>, now: real, e: Entry)
    ensures e in Live(entries, now) <==> e in entries && e.expiresAt > now
    ensures |Live(entries, now)| <= |entries|
  {
    if entries != [] { LiveElements(entries[1..], now, e); }
  }

  lemma {:induction false} LiveUnique(entries: seq<Entry>, now: real, later: real)
    requires Unique(entries, later)
    ensures Unique(Live(entries, now), later)
  {
    if entries != [] {
      assert Unique(entries[1..], later);
      LiveUnique(entries[1..], now, later);
      var rest := Live(entries[1..], now);
      forall e | e in rest && e.expiresAt > later && entries[0].expiresAt > later
        ensures e.permission != entries[0].permission
      {
        LiveElements(entries[1..], now, e);
        var j :| 1 <= j < |entries| && entries[j] == e;
      }
    }
  }

  lemma {:induction false} UncoveredElements(entries: seq<Entry>, key: string, origin: string, url: string, e: Entry)
    ensures e in Uncovered(entries, key, origin, url) <==> e in entries && !Covers(key, origin, url, e.permission)
    ensures |Uncovered(entries, key, origin, url)| <= |entries|
  {
    if entries != [] { UncoveredElements(entries[1..], key, origin, url, e); }
  }

  lemma {:induction false} UncoveredUnique(entries: seq<Entry>, key: string, origin: string, url: string, now: real)
    requires Unique(entries, now)
    ensures Unique(Uncovered(entries, key, origin, url), now)
  {
    if entries != [] {
      assert Unique(entries[1..], now);
      UncoveredUnique(entries[1..], key, origin, url, now);
      var rest := Uncovered(entries[1..], key, origin, url);
      forall e | e in rest && e.expiresAt > now && entries[0].expiresAt > now
        ensures e.permission != entries[0].permission
      {
        UncoveredElements(entries[1..], key, origin, url, e);
        var j :| 1 <= j < |entries| && entries[j] == e;
      }
    }
  }

  lemma UniqueLater(entries: seq<Entry>, now: real, later: real)
    requires Unique(entries, now) && now <= later
    ensures Unique(entries, later)
  {
  }

  /** A store of a permission without a live entry shifts the oldest entry out of a full cache. */
  predicate Evicts(limits: Limits, live: seq<Entry>, permission: Permission, maxAge: real, now: real, later: real)
  {
    live != [] && |live| == limits.maxEntries && Place(live, permission, later) == |live| &&
    Deadline(limits, maxAge, now) > now
  }

  /**
   After a store, a live entry of the permission has the new deadline; the other live entries are all the
   ones there were, but for the oldest of a full cache.
   */
  lemma StoredLive(
    limits: Limits, entries: seq<Entry>, permission: Permission, maxAge: real, now: real, later: real, e: Entry)
    requires Unique(entries, later) && now <= later && e.expiresAt > later && |entries| <= limits.maxEntries
    ensures var stored, live := Stored(limits, entries, permission, maxAge, now, later), Live(entries, now);
      if e.permission == permission then e in stored ==> e.expiresAt == Deadline(limits, maxAge, now)
      else e in stored <==>
        e in entries && !(Evicts(limits, live, permission, maxAge, now, later) && e == live[0])
    ensures |Stored(limits, entries, permission, maxAge, now, later)| <= limits.maxEntries
  {
    hide Live, Place, Deadline, Unique;
    var live := Live(entries, now);
    LiveUnique(entries, now, later);
    LiveElements(entries, now, e);
    var expiresAt := Deadline(limits, maxAge, now);
    var place := Place(live, permission, later);
    if place < |live| {
      RefreshedHolds(live, place, expiresAt, e, later);
    } else if expiresAt > now && limits.maxEntries > 0 {
      var shift, entry := if |live| == limits.maxEntries then 1 else 0, Entry(permission, expiresAt);
      assert e.permission == permission ==> e !in live;
      assert Newest(live + [entry], limits.maxEntries) == live[shift..] + [entry];
      PushedHolds(live, shift, entry, e, later);
    }
  }

  lemma RefreshedHolds(live: seq<Entry>, place: nat, expiresAt: real, e: Entry, later: real)
    requires place < |live| && Unique(live, later) && live[place].expiresAt > later && e.expiresAt > later
    ensures var stored := live[place := live[place].(expiresAt := expiresAt)];
      if e.permission == live[place].permission then e in stored ==> e.expiresAt == expiresAt
      else e in stored <==> e in live
  {
    var stored := live[place := live[place].(expiresAt := expiresAt)];
    if e in live && e.permission != live[place].permission {
      var k :| 0 <= k < |live| && live[k] == e;
      assert stored[k] == e;
    }
  }

  lemma PushedHolds(live: seq<Entry>, shift: nat, entry: Entry, e: Entry, later: real)
    requires shift <= 1 && shift <= |live| && Unique(live, later) && e.expiresAt > later
    requires e.permission == entry.permission ==> e !in live
    ensures var stored := live[shift..] + [entry];
      if e.permission == entry.permission then e in stored ==> e == entry
      else e in stored <==> e in live && !(shift == 1 && e == live[0])
  {
    var stored := live[shift..] + [entry];
    if e in live && !(shift == 1 && e == live[0]) {
      var k :| 0 <= k < |live| && live[k] == e;
      assert stored[k - shift] == e;
    }
    if e in live[shift..] {
      var k :| shift <= k < |live| && live[k] == e;
    }
  }

  /** No permission has two entries, expired ones included. */
  ghost predicate Single(entries: seq<Entry>)
  {
    forall i, j :: 0 <= i < j < |entries| ==> entries[i].permission != entries[j].permission
  }

  /** An entry of the permission expires between the two clock readings, and is not shifted out. */
  predicate Lapses(limits: Limits, entries: seq<Entry>, permission: Permission, maxAge: real, now: real, later: real)
  {
    var live := Live(entries, now);
    Deadline(limits, maxAge, now) > now &&
    exists i :: 0 <= i < |live| && live[i].permission == permission && live[i].expiresAt <= later &&
      !(i == 0 && |live| == limits.maxEntries)
  }

  /** A store leaves one entry for each permission exactly when none of its own lapses between the readings. */
  lemma StoredSingle(
    limits: Limits, entries: seq<Entry>, permission: Permission, maxAge: real, now: real, later: real)
    requires Single(entries) && |entries| <= limits.maxEntries && now <= later
    ensures Single(Stored(limits, entries, permission, maxAge, now, later)) <==>
      !Lapses(limits, entries, permission, maxAge, now, later)
  {
    var live := Live(entries, now);
    var stored := Stored(limits, entries, permission, maxAge, now, later);
    var entry := Entry(permission, Deadline(limits, maxAge, now));
    LiveSingle(entries, now);
    var place := Place(live, permission, later);
    if place == |live| && entry.expiresAt > now && limits.maxEntries > 0 {
      var shift := if |live| == limits.maxEntries then 1 else 0;
      PushedSingle(live, shift, entry);
      assert stored == live[shift..] + [entry];
      assert Lapses(limits, entries, permission, maxAge, now, later) <==> Named(live, shift, permission);
    } else if place < |live| {
      RefreshedSingle(live, place, stored[place]);
      assert forall i :: 0 <= i < |live| && live[i].permission == permission ==> i == place;
    }
  }

  predicate Named(entries: seq<Entry>, start: nat, permission: Permission)
  {
    exists i :: start <= i < |entries| && entries[i].permission == permission
  }

  lemma PushedSingle(live: seq<Entry>, shift: nat, entry: Entry)
    requires Single(live) && shift <= |live|
    ensures Single(live[shift..] + [entry]) <==> !Named(live, shift, entry.permission)
  {
    var all := live[shift..] + [entry];
    if Named(live, shift, entry.permission) {
      var i :| shift <= i < |live| && live[i].permission == entry.permission;
      assert all[i - shift] == live[i] && all[|all| - 1] == entry;
    } else {
      forall i, j | 0 <= i < j < |all| ensures all[i].permission != all[j].permission {
        assert all[i] == live[i + shift] && (j < |all| - 1 ==> all[j] == live[j + shift]);
      }
    }
  }

  lemma RefreshedSingle(live: seq<Entry>, place: nat, entry: Entry)
    requires Single(live) && place < |live| && entry.permission == live[place].permission
    ensures Single(live[place := entry])
  {
  }

  lemma {:induction false} LiveSingle(entries: seq<Entry>, now: real)
    requires Single(entries)
    ensures Single(Live(entries, now)) && |Live(entries, now)| <= |entries|
  {
    if entries != [] {
      assert Single(entries[1..]);
      LiveSingle(entries[1..], now);
      var rest := Live(entries[1..], now);
      forall e | e in rest ensures e.permission != entries[0].permission {
        LiveElements(entries[1..], now, e);
        var j :| 1 <= j < |entries| && entries[j] == e;
      }
    }
  }

  /** An entry that expires at 5 while a store at 4 reads the clock again at 6 stays beside its successor. */
  lemma LapsedEntryRemains(permission: Permission)
    ensures Stored(Limits(1.0, 2), [Entry(permission, 5.0)], permission, 1.0, 4.0, 6.0) ==
      [Entry(permission, 5.0), Entry(permission, 1004.0)]
    ensures Single([Entry(permission, 5.0)]) &&
      !Single([Entry(permission, 5.0), Entry(permission, 1004.0)])
  {
    var old_ := [Entry(permission, 5.0)];
    assert old_[1..] == [] && Live(old_, 4.0) == old_;
    var both := [Entry(permission, 5.0), Entry(permission, 1004.0)];
    assert both[0].permission == both[1].permission;
  }

  lemma StoredUnique(limits: Limits, entries: seq<Entry>, permission: Permission, maxAge: real, now: real, later: real)
    requires Unique(entries, later) && now <= later
    ensures Unique(Stored(limits, entries, permission, maxAge, now, later), later)
  {
    LiveUnique(entries, now, later);
  }

  // ---------------------------------------------------------------------------
  // What every run keeps
  // ---------------------------------------------------------------------------

  function Stores(events: seq<Event>): nat
  {
    if events == [] then 0
    else Stores(events[..|events| - 1]) + if events[|events| - 1].Store? then 1 else 0
  }

  lemma SoundAfter(limits: Limits, events: seq<Event>, entries: seq<Entry>, event: Event, time: real)
    requires |entries| <= limits.maxEntries
    requires Unique(entries, time) && Sound(limits, events, entries, time)
    requires event.Store? ==> time <= event.now <= event.later
    ensures var next := Cache(limits, entries).After(event);
      var now := if event.Store? then event.later else time;
      Unique(next.entries, now) && Sound(limits, events + [event], next.entries, now)
  {
    hide Unique, Stored, Live, LowerName, Deadline;
    var next := Cache(limits, entries).After(event);
    var now := if event.Store? then event.later else time;
    var all := events + [event];
    assert all[..|all| - 1] == events;
    UniqueLater(entries, time, now);
    match event {
      case Store(request, maxAge, method_, header, first, later) =>
        if request.key.Some? {
          var permission := PermissionOf(request, method_, header);
          StoredUnique(limits, entries, permission, maxAge, first, later);
          forall e | e in next.entries && e.expiresAt > now
            ensures LastGrant(limits, all, e.permission) == Some(e.expiresAt)
          {
            StoredLive(limits, entries, permission, maxAge, first, later, e);
          }
        }
      case Clear(request) =>
        if request.key.Some? {
          UncoveredUnique(entries, request.key.value, request.origin, request.url, now);
          forall e | e in next.entries && e.expiresAt > now
            ensures LastGrant(limits, all, e.permission) == Some(e.expiresAt)
          {
            UncoveredElements(entries, request.key.value, request.origin, request.url, e);
          }
        }
    }
  }

  /** One live entry for each permission, each with its last grant's deadline, and never too many entries. */
  lemma {:induction false} RunSound(limits: Limits, events: seq<Event>, start: real)
    requires Timely(events, start)
    ensures var cache := Cache(limits, []).Run(events);
      var now := Time(events, start);
      cache.limits == limits && Unique(cache.entries, now) && Sound(limits, events, cache.entries, now) &&
      |cache.entries| <= limits.maxEntries && |cache.entries| <= Stores(events)
  {
    if events != [] {
      var before, last := events[..|events| - 1], events[|events| - 1];
      RunSound(limits, before, start);
      var entries := Cache(limits, []).Run(before).entries;
      SoundAfter(limits, before, entries, last, Time(before, start));
      assert before + [last] == events;
      AfterLength(limits, entries, last);
    }
  }

  lemma AfterLength(limits: Limits, entries: seq<Entry>, event: Event)
    requires |entries| <= limits.maxEntries
    ensures var n := |Cache(limits, entries).After(event).entries|;
      n <= limits.maxEntries && n <= |entries| + if event.Store? then 1 else 0
  {
    var any := Entry(Permission("", "", "", false, None, None), 0.0);
    match event {
      case Store(request, maxAge, method_, header, now, later) => LiveElements(entries, now, any);
      case Clear(request) =>
        if request.key.Some? { UncoveredElements(entries, request.key.value, request.origin, request.url, any); }
    }
  }

  predicate Holds(entries: seq<Entry>, permission: Permission, now: real)
  {
    exists e :: e in entries && e.expiresAt > now && e.permission == permission
  }

  /** What is stored is held, however full the cache was: evictions take the oldest entries. */
  lemma GrantIsHeld(limits: Limits, entries: seq<Entry>, permission: Permission, maxAge: real, now: real, later: real)
    requires limits.maxEntries > 0 && now <= later < Deadline(limits, maxAge, now)
    ensures Holds(Stored(limits, entries, permission, maxAge, now, later), permission, later)
    ensures var live := Live(entries, now);
      Place(live, permission, later) == |live| && |live| <= limits.maxEntries ==>
        Stored(limits, entries, permission, maxAge, now, later) ==
        (if |live| == limits.maxEntries then live[1..] else live) + [Entry(permission, Deadline(limits, maxAge, now))]
  {
    var live := Live(entries, now);
    var stored := Stored(limits, entries, permission, maxAge, now, later);
    var place := Place(live, permission, later);
    var any := Entry(permission, Deadline(limits, maxAge, now));
    if place < |live| { assert stored[place] == any; } else { assert stored[|stored| - 1] == any; }
  }

  /**
   The entry of the permission was the oldest of a full cache when another permission was pushed, and the
   permission was neither stored nor cleared since.
   */
  predicate ShiftedOut(limits: Limits, events: seq<Event>, permission: Permission)
  {
    events != [] &&
    var before, last := events[..|events| - 1], events[|events| - 1];
    if last.request.key == None then ShiftedOut(limits, before, permission)
    else match last
      case Store(request, maxAge, method_, header, now, later) =>
        var stored, live := PermissionOf(request, method_, header), Live(Cache(limits, []).Run(before).entries, now);
        if stored == permission then limits.maxEntries == 0
        else
          ShiftedOut(limits, before, permission) ||
          (Evicts(limits, live, stored, maxAge, now, later) && live[0].permission == permission)
      case Clear(request) =>
        !Covers(request.key.value, request.origin, request.url, permission) && ShiftedOut(limits, before, permission)
  }

  lemma SameEntry(entries: seq<Entry>, now: real, a: Entry, b: Entry)
    requires Unique(entries, now) && a in entries && b in entries && a.permission == b.permission
    requires a.expiresAt > now && b.expiresAt > now
    ensures a == b
  {
    var i :| 0 <= i < |entries| && entries[i] == a;
    var j :| 0 <= j < |entries| && entries[j] == b;
  }

  /** Time passes. */
  lemma HoldsLater(
    limits: Limits, events: seq<Event>, entries: seq<Entry>, permission: Permission, time: real, now: real)
    requires Sound(limits, events, entries, time) && time <= now
    ensures Holds(entries, permission, now) <==>
      Holds(entries, permission, time) && InForce(limits, events, permission, now)
  {
    if Holds(entries, permission, time) {
      var e :| e in entries && e.expiresAt > time && e.permission == permission;
      assert LastGrant(limits, events, e.permission) == Some(e.expiresAt);
    }
    if Holds(entries, permission, now) {
      var e :| e in entries && e.expiresAt > now && e.permission == permission;
      assert LastGrant(limits, events, e.permission) == Some(e.expiresAt);
    }
  }

  /** A store of another permission takes the entry away exactly if it is the oldest of a full cache. */
  lemma OtherStored(
    limits: Limits, entries: seq<Entry>, stored: Permission, maxAge: real, time: real, now: real, later: real,
    permission: Permission)
    requires Unique(entries, time) && time <= now <= later && |entries| <= limits.maxEntries && stored != permission
    ensures var live := Live(entries, now);
      Holds(Stored(limits, entries, stored, maxAge, now, later), permission, later) <==>
      Holds(entries, permission, later) &&
      !(Evicts(limits, live, stored, maxAge, now, later) && live[0].permission == permission)
  {
    hide Stored, Live, Unique, Deadline, Place;
    var live, after := Live(entries, now), Stored(limits, entries, stored, maxAge, now, later);
    UniqueLater(entries, time, later);
    if Holds(after, permission, later) || Holds(entries, permission, later) {
      var e :| (e in after || e in entries) && e.expiresAt > later && e.permission == permission;
      StoredLive(limits, entries, stored, maxAge, now, later, e);
      if Evicts(limits, live, stored, maxAge, now, later) && live[0].permission == permission {
        LiveElements(entries, now, live[0]);
        SameEntry(entries, time, live[0], e);
        assert !Holds(after, permission, later) by {
          if other :| other in after && other.expiresAt > later && other.permission == permission {
            StoredLive(limits, entries, stored, maxAge, now, later, other);
            SameEntry(entries, time, other, e);
          }
        }
      }
    }
  }

  /** A grant has its entry exactly as long as it is in force and was not shifted out. */
  lemma {:induction false} HeldExactly(limits: Limits, events: seq<Event>, start: real, permission: Permission)
    requires Timely(events, start)
    ensures var now := Time(events, start);
      Holds(Cache(limits, []).Run(events).entries, permission, now) <==>
      InForce(limits, events, permission, now) && !ShiftedOut(limits, events, permission)
  {
    hide Stored, Deadline, LowerName, Live, Evicts, Holds, Unique, Sound;
    if events == [] {
      NothingHeld(permission, start);
    } else {
      var before, last := events[..|events| - 1], events[|events| - 1];
      var entries := Cache(limits, []).Run(before).entries;
      var time, now := Time(before, start), Time(events, start);
      RunSound(limits, before, start);
      HeldExactly(limits, before, start, permission);
      HoldsLater(limits, before, entries, permission, time, now);
      if last.request.key.Some? {
        match last {
          case Store(request, maxAge, method_, header, first, later) =>
            var stored := PermissionOf(request, method_, header);
            if stored == permission {
              OwnStored(limits, entries, permission, maxAge, time, first, later);
            } else {
              OtherStored(limits, entries, stored, maxAge, time, first, later, permission);
            }
          case Clear(request) =>
            ClearedHolds(entries, request.key.value, request.origin, request.url, permission, now);
        }
      }
    }
  }

  lemma NothingHeld(permission: Permission, now: real)
    ensures !Holds([], permission, now)
  {
  }

  lemma OwnStored(
    limits: Limits, entries: seq<Entry>, permission: Permission, maxAge: real, time: real, now: real, later: real)
    requires Unique(entries, time) && time <= now <= later && |entries| <= limits.maxEntries
    ensures Holds(Stored(limits, entries, permission, maxAge, now, later), permission, later) <==>
      Deadline(limits, maxAge, now) > later && limits.maxEntries > 0
  {
    hide Stored, Deadline, Unique;
    UniqueLater(entries, time, later);
    var stored := Stored(limits, entries, permission, maxAge, now, later);
    if Deadline(limits, maxAge, now) > later && limits.maxEntries > 0 {
      GrantIsHeld(limits, entries, permission, maxAge, now, later);
    }
    if e :| e in stored && e.expiresAt > later && e.permission == permission {
      StoredLive(limits, entries, permission, maxAge, now, later, e);
    }
  }

  lemma ClearedHolds(
    entries: seq<Entry>, key: string, origin: string, url: string, permission: Permission, now: real)
    ensures Holds(Uncovered(entries, key, origin, url), permission, now) <==>
      Holds(entries, permission, now) && !Covers(key, origin, url, permission)
  {
    var left := Uncovered(entries, key, origin, url);
    if e :| (e in entries || e in left) && e.expiresAt > now && e.permission == permission {
      UncoveredElements(entries, key, origin, url, e);
    }
    if e :| e in left && e.expiresAt > now && e.permission == permission {
      UncoveredElements(entries, key, origin, url, e);
    }
  }

  /** A match means a grant in force: last stored for that permission, not cleared since, and not expired. */
  lemma MatchSound(limits: Limits, events: seq<Event>, start: real, request: Request, query: Query, now: real)
    requires Timely(events, start) && now >= Time(events, start)
    requires Matches(Cache(limits, []).Run(events).entries, request, query, now)
    ensures exists permission :: Grants(permission, request, query) && InForce(limits, events, permission, now)
  {
    RunSound(limits, events, start);
    var e :| e in Cache(limits, []).Run(events).entries && e.expiresAt > now && Grants(e.permission, request, query);
    assert InForce(limits, events, e.permission, now);
  }

  /**
   For every run and from its last event on: the cache matches exactly if there is a grant in force that lets the
   request do this, and that was not shifted out.
   */
  lemma MatchExact(limits: Limits, events: seq<Event>, start: real, request: Request, query: Query, now: real)
    requires Timely(events, start) && now >= Time(events, start)
    ensures Matches(Cache(limits, []).Run(events).entries, request, query, now) <==>
      exists permission ::
        Grants(permission, request, query) && InForce(limits, events, permission, now) &&
        !ShiftedOut(limits, events, permission)
  {
    hide Cache.Run, Grants, ShiftedOut, LastGrant;
    var entries, time := Cache(limits, []).Run(events).entries, Time(events, start);
    RunSound(limits, events, start);
    forall permission
      ensures Holds(entries, permission, now) <==>
        InForce(limits, events, permission, now) && !ShiftedOut(limits, events, permission)
    {
      HeldExactly(limits, events, start, permission);
      HoldsLater(limits, events, entries, permission, time, now);
    }
    assert forall e :: e in entries && e.expiresAt > now ==> Holds(entries, e.permission, now);
  }

  /** Nothing is shifted out while no more were stored than the cache may hold. */
  lemma {:induction false} FewStay(limits: Limits, events: seq<Event>, start: real, permission: Permission)
    requires Timely(events, start) && Stores(events) <= limits.maxEntries
    ensures !ShiftedOut(limits, events, permission)
  {
    hide PermissionOf, Place, Deadline;
    if events != [] {
      var before, last := events[..|events| - 1], events[|events| - 1];
      FewStay(limits, before, start, permission);
      RunSound(limits, before, start);
      if last.Store? {
        var any := Entry(permission, 0.0);
        LiveElements(Cache(limits, []).Run(before).entries, last.now, any);
      }
    }
  }

  // ---------------------------------------------------------------------------
  // The object
  // ---------------------------------------------------------------------------

  class CORSPreflightCache {
    const maxAge: real
    const maxEntries: nat
    var entries: seq<Entry>

    function State(): Cache reads this { Cache(Limits(maxAge, maxEntries), entries) }

    constructor (maxAge: real, maxEntries: nat)
      ensures State() == Cache(Limits(maxAge, maxEntries), [])
    {
      this.maxAge, this.maxEntries, entries := maxAge, maxEntries, [];
    }

    method Filter(now: real)
      modifies this`entries
      ensures entries == Live(old(entries), now)
    {
      var kept := [];
      var i := 0;
      ghost var all := Live(entries, now);
      while i < |entries|
        invariant i <= |entries|
        invariant kept + Live(entries[i..], now) == all
      {
        assert entries[i..][1..] == entries[i + 1..];
        if entries[i].expiresAt > now { kept := kept + [entries[i]]; }
        i := i + 1;
      }
      entries := kept;
    }

    /** `#find` for exactly one permission: its index, or the number of entries. */
    method Find(permission: Permission, now: real) returns (i: nat)
      ensures i == Place(entries, permission, now)
    {
      i := 0;
      while i < |entries| && !(entries[i].expiresAt > now && entries[i].permission == permission)
        invariant i <= |entries|
        invariant forall j :: 0 <= j < i ==> !(entries[j].expiresAt > now && entries[j].permission == permission)
      {
        i := i + 1;
      }
    }

    /** `store` */
    method StoreGrant(
      request: Request, lifetime: real, method_: Option<string>, header: Option<string>, now: real, later: real)
      modifies this`entries
      ensures State() == old(State()).After(Store(request, lifetime, method_, header, now, later))
    {
      hide Live, LowerName, Newest;
      if request.key == None { return; }
      Filter(now);
      var expiresAt := Deadline(Limits(maxAge, maxEntries), lifetime, now);
      var permission := PermissionOf(request, method_, header);
      var i := Find(permission, later);
      if i < |entries| {
        entries := entries[i := entries[i].(expiresAt := expiresAt)];
        return;
      }
      if expiresAt <= now || maxEntries == 0 { return; }
      entries := entries + [Entry(permission, expiresAt)];
      Shift();
    }

    /** The oldest entries go until the rest fit. */
    method Shift()
      modifies this`entries
      ensures entries == Newest(old(entries), maxEntries)
    {
      ghost var shifted: nat := 0;
      while |entries| > maxEntries
        invariant shifted <= |old(entries)| && entries == old(entries)[shifted..]
        invariant shifted > 0 ==> |old(entries)| - shifted >= maxEntries
      {
        entries := entries[1..];
        shifted := shifted + 1;
      }
    }

    /** `clearEntries` */
    method ClearEntries(request: Request)
      modifies this`entries
      ensures State() == old(State()).After(Clear(request))
    {
      if request.key == None { return; }
      var kept := [];
      var i := 0;
      ghost var all := Uncovered(entries, request.key.value, request.origin, request.url);
      while i < |entries|
        invariant i <= |entries|
        invariant kept + Uncovered(entries[i..], request.key.value, request.origin, request.url) == all
      {
        assert entries[i..][1..] == entries[i + 1..];
        if !Covers(request.key.value, request.origin, request.url, entries[i].permission) {
          kept := kept + [entries[i]];
        }
        i := i + 1;
      }
      entries := kept;
    }

    /** `matchesMethod` and `matchesHeaderName` */
    method MatchesQuery(request: Request, query: Query, now: real) returns (r: bool)
      ensures r == Matches(entries, request, query, now)
    {
      for i := 0 to |entries|
        invariant forall e :: e in entries[..i] ==> !(e.expiresAt > now && Grants(e.permission, request, query))
      {
        if entries[i].expiresAt > now && Grants(entries[i].permission, request, query) { return true; }
      }
      assert entries[..|entries|] == entries;
      r := false;
    }
  }
}
