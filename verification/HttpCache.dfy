/**
 The bounded shared HTTP cache (src/fetch/cache-http.ts): one least-recently-used set of entries with a
 byte budget, the partitions that index them by URL, and entries written chunk by chunk. A partition's
 `log` records what its generation counter counts.
 */
module HttpCache {
  import opened Prelude
  import opened HeaderList
  import opened StoredHeaders
  import TC = TransportControl

  // ---------------------------------------------------------------------------
  // Sequences without some of their elements
  // ---------------------------------------------------------------------------

  function Minus<T(==)>(s: seq<T>, gone: set<T>): (r: seq<T>)
    ensures forall x :: x in r ==> x in s && x !in gone
    ensures forall x :: x in s && x !in gone ==> x in r
  {
    if s == [] then [] else (if s[0] in gone then [] else [s[0]]) + Minus(s[1..], gone)
  }

  lemma {:induction false} MinusMinus<T>(s: seq<T>, a: set<T>, b: set<T>)
    ensures Minus(Minus(s, a), b) == Minus(s, a + b)
  {
    if s != [] {
      MinusMinus(s[1..], a, b);
      var rest := Minus(s[1..], a);
      if s[0] in a {
        assert Minus(s, a) == rest && Minus(s, a + b) == Minus(s[1..], a + b);
      } else {
        assert Minus(s, a) == [s[0]] + rest && ([s[0]] + rest)[1..] == rest;
      }
    }
  }

  lemma {:induction false} MinusNone<T>(s: seq<T>, gone: set<T>)
    requires forall x :: x in gone ==> x !in s
    ensures Minus(s, gone) == s
  {
    if s != [] {
      assert s[0] !in gone;
      MinusNone(s[1..], gone);
    }
  }

  function Elements<T>(s: seq<T>): set<T> { set x | x in s }

  /** An entry set with `Set.prototype.add`. */
  function Added<T(==)>(s: seq<T>, x: T): seq<T> { if x in s then s else s + [x] }

  /** In insertion order: every element has a later stamp than those before it. */
  ghost predicate Stamped<T>(s: seq<T>, stamps: map<T, nat>)
  {
    (forall x :: x in s ==> x in stamps) &&
    forall i, j :: 0 <= i < j < |s| ==> stamps[s[i]] < stamps[s[j]]
  }

  lemma {:induction false} MinusStamped<T>(s: seq<T>, gone: set<T>, stamps: map<T, nat>)
    requires Stamped(s, stamps)
    ensures Stamped(Minus(s, gone), stamps)
  {
    if s != [] {
      assert Stamped(s[1..], stamps);
      MinusStamped(s[1..], gone, stamps);
      var rest := Minus(s[1..], gone);
      forall x | x in rest ensures stamps[s[0]] < stamps[x] {
        var j :| 1 <= j < |s| && s[j] == x;
      }
    }
  }

  lemma MinusFirst<T>(s: seq<T>, stamps: map<T, nat>)
    requires Stamped(s, stamps) && s != []
    ensures Minus(s, {s[0]}) == s[1..]
  {
    assert s[0] !in s[1..];
    MinusNone(s[1..], {s[0]});
  }

  lemma StampedMoved<T>(s: seq<T>, x: T, stamps: map<T, nat>, now: nat)
    requires Stamped(s, stamps) && x !in s && forall y :: y in s ==> stamps[y] < now
    ensures Stamped(s + [x], stamps[x := now])
  {
  }

  // ---------------------------------------------------------------------------
  // Partition indexes
  // ---------------------------------------------------------------------------

  type Index = map<string, seq<HTTPCacheEntry>>

  /** A partition's index agrees with the store's set on the partition's entries. */
  ghost predicate AgreesAt(es: seq<HTTPCacheEntry>, p: HTTPCachePartition, index: Index)
  {
    (forall e :: e in es && e.cache == p ==> e.url in index && e in index[e.url]) &&
    (forall url :: url in index ==> index[url] != [] && InOrder(index[url])) &&
    (forall url, e :: url in index && e in index[url] ==> e in es && e.cache == p && e.url == url)
  }

  /** In the order in which the entries were begun. */
  ghost predicate InOrder(es: seq<HTTPCacheEntry>)
  {
    forall i, j :: 0 <= i < j < |es| ==> es[i].born < es[j].born
  }

  lemma {:induction false} MinusInOrder(es: seq<HTTPCacheEntry>, gone: set<HTTPCacheEntry>)
    requires InOrder(es)
    ensures InOrder(Minus(es, gone))
  {
    if es != [] {
      assert InOrder(es[1..]);
      MinusInOrder(es[1..], gone);
      forall x | x in Minus(es[1..], gone) ensures es[0].born < x.born {
        var j :| 1 <= j < |es| && es[j] == x;
      }
    }
  }

  /** The complete entries of a set that a newly finished entry replaces. */
  function Superseded(es: seq<HTTPCacheEntry>, newer: HTTPCacheEntry): set<HTTPCacheEntry>
    reads es`body, es`vary, newer`vary
  {
    set e | e in es && e.SupersededBy(newer)
  }

  /** The entries of a set that one partition holds under some URLs. */
  function Held(es: seq<HTTPCacheEntry>, p: HTTPCachePartition, urls: set<string>): set<HTTPCacheEntry>
  {
    set e | e in es && e.cache == p && e.url in urls
  }

  function Owned(es: seq<HTTPCacheEntry>, p: HTTPCachePartition): set<HTTPCacheEntry>
  {
    set e | e in es && e.cache == p
  }

  lemma WithoutHeld(es: seq<HTTPCacheEntry>, p: HTTPCachePartition, url: string)
    ensures forall e :: e in Minus(es, Held(es, p, {url})) <==> e in es && !(e.cache == p && e.url == url)
  {
  }

  lemma WithoutOwned(es: seq<HTTPCacheEntry>, p: HTTPCachePartition)
    ensures forall e :: e in Minus(es, Owned(es, p)) <==> e in es && e.cache != p
  {
  }

  lemma HeldMore(es: seq<HTTPCacheEntry>, p: HTTPCachePartition, urls: set<string>, url: string)
    ensures Minus(Minus(es, Held(es, p, urls)), Held(es, p, {url})) == Minus(es, Held(es, p, urls + {url}))
  {
    MinusMinus(es, Held(es, p, urls), Held(es, p, {url}));
    assert Held(es, p, urls) + Held(es, p, {url}) == Held(es, p, urls + {url});
  }

  lemma ListsOwned(es: seq<HTTPCacheEntry>, p: HTTPCachePartition, index: Index)
    requires AgreesAt(es, p, index)
    ensures Held(es, p, index.Keys) == Owned(es, p)
  {
  }

  lemma ListHeld(es: seq<HTTPCacheEntry>, p: HTTPCachePartition, index: Index, url: string)
    requires AgreesAt(es, p, index)
    ensures Elements(ListIn(index, url)) == Held(es, p, {url})
    ensures forall e :: e in ListIn(index, url) ==> e in es
  {
  }

  function ListIn(index: Index, url: string): seq<HTTPCacheEntry>
  {
    if url in index then index[url] else []
  }

  /** `HTTPCachePartition.remove` */
  function Unlisted(index: Index, e: HTTPCacheEntry): Index
  {
    if e.url !in index then index
    else
      var remaining := Minus(index[e.url], {e});
      if remaining == [] then index - {e.url} else index[e.url := remaining]
  }

  lemma InOrderDistinct(es: seq<HTTPCacheEntry>)
    requires InOrder(es)
    ensures forall i, j :: 0 <= i < j < |es| ==> es[i] != es[j]
  {
  }

  lemma {:induction false} ElementsCount(es: seq<HTTPCacheEntry>)
    requires InOrder(es)
    ensures |Elements(es)| == |es|
  {
    if es != [] {
      assert InOrder(es[1..]) && es[0] !in es[1..];
      ElementsCount(es[1..]);
      assert Elements(es) == {es[0]} + Elements(es[1..]);
    }
  }

  /** The newest of a list is the one that ranks above all of them, and there is no other. */
  lemma BestOf(es: seq<HTTPCacheEntry>, best: Option<HTTPCacheEntry>)
    requires InOrder(es) && (best == None <==> es == [])
    requires best.Some? ==> best.value in es && forall e :: e in es ==> e.RanksBelow(best.value)
    ensures forall e :: e in es ==> ((forall other :: other in es ==> other.RanksBelow(e)) <==> best == Some(e))
  {
    hide HTTPCacheEntry.Date;
    forall e | e in es && (forall other :: other in es ==> other.RanksBelow(e)) ensures best == Some(e) {
      var i :| 0 <= i < |es| && es[i] == e;
      var j :| 0 <= j < |es| && es[j] == best.value;
      assert e.RanksBelow(best.value) && best.value.RanksBelow(e);
    }
  }

  lemma AgreesWithout(es: seq<HTTPCacheEntry>, p: HTTPCachePartition, index: Index, e: HTTPCacheEntry)
    requires AgreesAt(es, p, index)
    ensures AgreesAt(Minus(es, {e}), p, if e.cache == p then Unlisted(index, e) else index)
  {
    hide InOrder, Minus;
    if e.cache == p && e.url in index {
      MinusInOrder(index[e.url], {e});
      var next := Unlisted(index, e);
      assert forall url :: url in next ==> next[url] == if url == e.url then Minus(index[url], {e}) else index[url];
    }
  }

  lemma AgreesWith(es: seq<HTTPCacheEntry>, p: HTTPCachePartition, index: Index, e: HTTPCacheEntry)
    requires AgreesAt(es, p, index) && e !in es && forall other :: other in es ==> other.born < e.born
    ensures AgreesAt(es + [e], p, if e.cache == p then index[e.url := ListIn(index, e.url) + [e]] else index)
  {
  }

  /** The byte count of a set of entries. */
  function Total(es: seq<HTTPCacheEntry>): int
    reads es`size
  {
    if es == [] then 0 else es[0].size + Total(es[1..])
  }

  lemma {:induction false} TotalAppend(a: seq<HTTPCacheEntry>, b: seq<HTTPCacheEntry>)
    ensures Total(a + b) == Total(a) + Total(b)
  {
    if a == [] {
      assert a + b == b;
    } else {
      assert (a + b)[1..] == a[1..] + b;
      TotalAppend(a[1..], b);
    }
  }

  lemma {:induction false} TotalMinus(es: seq<HTTPCacheEntry>, e: HTTPCacheEntry, stamps: map<HTTPCacheEntry, nat>)
    requires Stamped(es, stamps) && e in es
    ensures Total(Minus(es, {e})) == Total(es) - e.size
  {
    if es[0] == e {
      MinusFirst(es, stamps);
    } else {
      assert Stamped(es[1..], stamps);
      TotalMinus(es[1..], e, stamps);
      assert Minus(es, {e})[1..] == Minus(es[1..], {e});
    }
  }

  /** The byte count of the entries but one. */
  function Others(es: seq<HTTPCacheEntry>, e: HTTPCacheEntry): int
    reads (set other | other in es && other != e)`size
  {
    if es == [] then 0 else (if es[0] == e then 0 else es[0].size) + Others(es[1..], e)
  }

  lemma {:induction false} TotalOthers(es: seq<HTTPCacheEntry>, e: HTTPCacheEntry, stamps: map<HTTPCacheEntry, nat>)
    requires Stamped(es, stamps)
    ensures Total(es) == Others(es, e) + if e in es then e.size else 0
  {
    if es != [] {
      assert Stamped(es[1..], stamps) && es[0] !in es[1..];
      TotalOthers(es[1..], e, stamps);
    }
  }

  /** What a partition's generation counts. */
  datatype Event = Invalidated(url: string) | Cleared {
    predicate Hits(target: string) { this == Cleared || this == Invalidated(target) }
  }

  ghost predicate FencedAt(es: seq<HTTPCacheEntry>, p: HTTPCachePartition, log: seq<Event>)
  {
    forall e :: e in es && e.cache == p ==>
      e.captured <= |log| && forall i :: e.captured <= i < |log| ==> !log[i].Hits(e.url)
  }

  /** Entries that an event does not hit stay fenced. */
  lemma FencedAfter(
    es: seq<HTTPCacheEntry>, fewer: seq<HTTPCacheEntry>, p: HTTPCachePartition, log: seq<Event>, event: Event)
    requires FencedAt(es, p, log) && forall e :: e in fewer ==> e in es
    ensures FencedAt(fewer, p, log)
    ensures (forall e :: e in fewer && e.cache == p ==> !event.Hits(e.url)) ==> FencedAt(fewer, p, log + [event])
  {
  }

  // ---------------------------------------------------------------------------
  // Entries
  // ---------------------------------------------------------------------------

  class HTTPCacheEntry {
    const cache: HTTPCachePartition
    const url: string
    const method_: string
    const requestHeaders: seq<Header>
    var status: int
    var headers: seq<Header>
    var requestTime: real
    var responseTime: real
    var vary: seq<string>
    var body: Option<seq<nat>>
    var size: nat
    var active: bool
    var chunks: seq<seq<nat>>
    /** The generation its exchange captured, and the time it was begun. */
    ghost const captured: nat
    ghost const born: nat

    constructor (cache: HTTPCachePartition, request: Request, response: Response,
                 requestTime: real, responseTime: real, ghost captured: nat, ghost born: nat)
      requires Storable(cache.owner.rules, request, response)
      ensures this.cache == cache && url == request.url
      ensures method_ == request.method_ && requestHeaders == request.headers
      ensures Records(request, response, requestTime, responseTime)
      ensures Some(vary) == ParseVary(FieldText(headers, "Vary"))
      ensures body == None && size == 0 && active && chunks == []
      ensures this.captured == captured && this.born == born
    {
      StoredVary(cache.owner.rules, request, response, responseTime);
      this.cache, url, method_, requestHeaders := cache, request.url, request.method_, request.headers;
      status, headers := response.status, StoredLines(cache.owner.rules, response.headers, responseTime);
      this.requestTime, this.responseTime := requestTime, responseTime;
      vary := ParseVary(FieldText(StoredLines(cache.owner.rules, response.headers, responseTime), "Vary")).value;
      body, size, active, chunks := None, 0, true, [];
      this.captured, this.born := captured, born;
    }

    function Meta(): Metadata
      reads this`headers, this`requestTime, this`responseTime, this`vary
    {
      Metadata(headers, requestTime, responseTime, vary)
    }

    /** The entry was begun for this request. */
    predicate BegunFor(request: Request)
    {
      url == request.url && method_ == request.method_ && requestHeaders == request.headers
    }

    /** The entry describes this exchange. */
    ghost predicate Records(request: Request, response: Response, requestTime: real, responseTime: real)
      reads this`status, this`headers, this`requestTime, this`responseTime, this`vary
    {
      BegunFor(request) &&
      status == response.status && Meta() == Initial(cache.owner.rules, response, requestTime, responseTime)
    }

    /** The entry as its writer sees it. */
    ghost function Written(): TC.Entry
      reads this
    {
      if body.Some? then TC.Published(body.value) else if active then TC.Writing(Concat(chunks)) else TC.Lost
    }

    /** An active entry is charged for exactly the bytes it holds; a discarded one holds no pending bytes. */
    ghost predicate Charged()
      reads this`active, this`size, this`chunks, this`body
    {
      if active then size == |Concat(chunks)| + (if body.Some? then |body.value| else 0) else chunks == []
    }

    twostate lemma StillCharged()
      requires old(Charged()) && body == old(body) && (active ==> old(active) && size == old(size))
      requires chunks == if old(active) && !active then [] else old(chunks)
      ensures Charged()
    {
    }

    lemma StartsCharged()
      requires size == 0 && chunks == [] && body == None
      ensures Charged()
    {
    }

    /** `matches` */
    predicate Matches(request: Request)
      reads this`vary
    {
      (method_ == request.method_ || (method_ == "GET" && request.method_ == "HEAD")) &&
      forall name :: name in vary ==> Get(requestHeaders, name) == Get(request.headers, name)
    }

    /** The time by which `newest` ranks the entry. */
    function Date(): real
      reads this`headers, this`responseTime
    {
      match cache.owner.rules.parseDate(FieldText(headers, "Date"), responseTime)
      case Some(date) => date
      case None => responseTime
    }

    predicate Varied() reads this`headers { Has(headers, "Vary") }

    /** A complete representation for the request, in the given partition. */
    ghost predicate Suits(p: HTTPCachePartition, request: Request)
      reads this`body, this`vary
    {
      cache == p && url == request.url && body.Some? && Matches(request)
    }

    /** `newest` prefers the other entry: a later date, or the same date and begun later. */
    ghost predicate RanksBelow(other: HTTPCacheEntry)
      reads this`headers, this`responseTime, other`headers, other`responseTime
    {
      Date() < other.Date() || (Date() == other.Date() && born <= other.born)
    }

    /** What `freshen` makes of a stored response. */
    ghost predicate Freshened(was: Metadata, response: Response, requestTime: real, responseTime: real, gone: bool)
      reads this`headers, this`requestTime, this`responseTime, this`vary, this`status
    {
      if Contradicts(response.headers, was.headers) then gone && Meta() == was
      else
        Meta() == Validated(cache.owner.rules, was, response, requestTime, responseTime) &&
        (gone <==> !Kept())
    }

    predicate IdentifiedBy(response: Response, alone: bool)
      reads this`headers
    {
      Identifies(cache.owner.rules, response.headers, headers, alone)
    }

    /** The updated response may still be stored. */
    predicate Kept()
      reads this`status, this`headers
    {
      CanStore(cache.owner.rules, method_, status, headers, "")
    }

    /** `update` */
    method Update(response: Response, requestTime: real, responseTime: real)
      requires cache.owner.Valid() && this in cache.owner.begun
      modifies this`headers, this`requestTime, this`responseTime, this`vary
      modifies cache.owner`entries, cache.owner`size, this`active, this`chunks, cache`index
      ensures cache.owner.Valid()
      ensures Meta() == Validated(cache.owner.rules, old(Meta()), response, requestTime, responseTime)
      ensures cache.owner.entries ==
        if Kept() then old(cache.owner.entries)
        else Minus(old(cache.owner.entries), {this})
      ensures cache.owner.Undisturbed({})
    {
      hide HTTPCacheStore.Valid, HTTPCacheStore.ValidBut, Validated, Kept;
      Merge(response, requestTime, responseTime);
      if !Kept() { cache.owner.Reject(this); }
    }

    /** The changes of `update`, which may leave an entry that no field selects. */
    method Merge(response: Response, requestTime: real, responseTime: real)
      requires cache.owner.Valid() && this in cache.owner.begun
      modifies this`headers, this`requestTime, this`responseTime, this`vary
      ensures cache.owner.ValidBut({this}) && (Kept() ==> cache.owner.Valid())
      ensures Meta() == Validated(cache.owner.rules, old(Meta()), response, requestTime, responseTime)
    {
      hide HTTPCacheStore.Wired, HTTPCacheStore.Indexed, HTTPCacheStore.Listed, HTTPCacheStore.Within;
      hide HTTPCacheStore.Fenced, Charged, Stamped, Total, Merged, ParseVary, CanStore;
      headers := Merged(cache.owner.rules, headers, response.headers, responseTime);
      this.requestTime, this.responseTime := requestTime, responseTime;
      vary := VaryOf(headers);
      KeptParses();
    }

    lemma KeptParses()
      ensures Kept() ==> ParseVary(FieldText(headers, "Vary")).Some?
    {
      hide ParseVary;
    }

    /** `append` */
    method Append(bytes: seq<nat>) returns (ghost dropped: nat)
      requires cache.owner.Valid() && this in cache.owner.begun && body == None
      modifies cache.owner`entries, cache.owner`size, cache.owner.begun`active, cache.owner.begun`chunks, this`size
      modifies cache.owner.partitions`index
      ensures cache.owner.Valid()
      ensures Written() == if old(active) && active then TC.Writing(old(Concat(chunks)) + bytes) else TC.Lost
      ensures if old(active) then cache.owner.Survived(old(cache.owner.entries), this, dropped)
        else !active && cache.owner.entries == old(cache.owner.entries)
      ensures cache.owner.Undisturbed({this})
    {
      hide HTTPCacheStore.Indexed, HTTPCacheStore.Wired, HTTPCacheStore.Survived, HTTPCacheStore.Within;
      hide HTTPCacheStore.Fenced, HTTPCacheStore.Listed, HTTPCacheStore.Undisturbed, HTTPCacheStore.Selectable;
      hide HTTPCacheStore.Trimmed, HTTPCacheStore.Exceeds, FencedAt, AgreesAt, InOrder, ParseVary;
      hide Charged, Stamped, Total, Concat;
      cache.owner.SoundFacts();
      var kept;
      kept, dropped := cache.owner.Reserve(this, |bytes|);
      cache.owner.FewerFenced(old(cache.owner.entries));
      if kept {
        ConcatSnoc(chunks, bytes);
        chunks := chunks + [bytes];
      }
      forall e | e in cache.owner.begun ensures e.Charged() {
        if e != this || !kept { e.StillCharged(); } else { ChargedMore(bytes); }
      }
      cache.owner.OnlyLosses({this});
      cache.owner.StillSelectable();
    }

    twostate lemma ChargedMore(bytes: seq<nat>)
      requires old(Charged()) && body == old(body) && old(active) && active && size == old(size) + |bytes|
      requires Concat(chunks) == old(Concat(chunks)) + bytes
      ensures Charged()
    {
    }

    /** `finish` */
    method Finish()
      requires cache.owner.Valid() && this in cache.owner.begun && body == None
      modifies cache.owner`entries, cache.owner`size, cache.owner.begun`active, cache.owner.begun`chunks, this`body
      modifies cache.owner.partitions`index
      ensures cache.owner.Valid() && active == old(active)
      ensures !active ==> cache.owner.entries == old(cache.owner.entries) && body == None
      ensures active ==> Written() == TC.Published(old(Concat(chunks)))
      ensures active ==>
        cache.owner.entries == Minus(old(cache.owner.entries), Superseded(old(cache.owner.entries), this))
      ensures cache.owner.Undisturbed({this})
    {
      hide HTTPCacheStore.Valid, Superseded, Minus, Concat;
      ValidBegun(cache.owner);
      if !active { return; }
      Publish();
      cache.Replace(this);
    }

    /** The pending chunks become the body; the entry is charged as before. */
    method Publish()
      requires cache.owner.Valid() && this in cache.owner.begun && body == None && active
      modifies this`body, this`chunks
      ensures cache.owner.Valid() && body == Some(old(Concat(chunks))) && chunks == []
    {
      hide HTTPCacheStore.Wired, HTTPCacheStore.Listed, HTTPCacheStore.Indexed, HTTPCacheStore.Within;
      hide HTTPCacheStore.Fenced, Total, Concat;
      assert Charged();
      ConcatNone();
      body := Some(Concat(chunks));
      chunks := [];
      assert Charged();
      assert forall e :: e in cache.owner.begun && e != this ==> old(e.Charged()) && e.Charged();
    }

    /** The other complete entry answers exactly the requests that the new one was selected for. */
    predicate SupersededBy(newer: HTTPCacheEntry)
      reads this`body, this`vary, newer`vary
    {
      this != newer && cache == newer.cache && url == newer.url && body.Some? && method_ == newer.method_ &&
      |vary| == |newer.vary| &&
      forall name :: name in newer.vary ==> name in vary && Get(requestHeaders, name) == Get(newer.requestHeaders, name)
    }

    /** `discard` */
    method Discard()
      modifies this`active, this`chunks, cache`index
      ensures !active && chunks == [] && cache.index == Unlisted(old(cache.index), this)
    {
      active := false;
      chunks := [];
      cache.Unlist(this);
    }
  }

  class HTTPCachePartition {
    const key: string
    const owner: HTTPCacheStore
    var generation: nat
    var index: Index
    ghost var log: seq<Event>

    constructor (key: string, owner: HTTPCacheStore)
      ensures this.key == key && this.owner == owner && generation == 0 && index == map[] && log == []
    {
      this.key, this.owner := key, owner;
      generation, index, log := 0, map[], [];
    }

    /** `begin`, for an exchange that captured the generation that still stands. */
    method Begin(request: Request, response: Response, requestTime: real, responseTime: real, ghost captured: nat)
      returns (started: Option<HTTPCacheEntry>, ghost dropped: nat)
      requires owner.Valid() && this in owner.partitions && captured == generation
      modifies owner`entries, owner`size, owner`begun, owner`used, owner`clock
      modifies owner.begun`active, owner.begun`chunks, owner.partitions`index
      ensures owner.Valid()
      ensures !Storable(owner.rules, request, response) ==> started == None && owner.entries == old(owner.entries)
      ensures Storable(owner.rules, request, response) ==> (started == None <==> owner.maxEntries == 0)
      ensures started.Some? ==>
        var e := started.value;
        fresh(e) && e in owner.begun && e.cache == this && e.Records(request, response, requestTime, responseTime) &&
        e.captured == captured && e.Written() == TC.Writing([]) && owner.Survived(old(owner.entries) + [e], e, dropped)
      ensures old(owner.begun) <= owner.begun && fresh(owner.begun - old(owner.begun)) && owner.Undisturbed({})
      ensures forall e :: e in owner.begun - old(owner.begun) ==>
        e.cache == this && e.captured == captured && e.BegunFor(request) && e.body == None && e.chunks == [] &&
        (e.active ==> started == Some(e))
    {
      hide HTTPCacheStore.Valid, HTTPCacheStore.Survived, Storable, StoredLines, ParseVary, Initial;
      dropped := 0;
      ValidBegun(owner);
      if !Storable(owner.rules, request, response) { return None, 0; }
      var entry := new HTTPCacheEntry(this, request, response, requestTime, responseTime, captured, owner.clock);
      var kept;
      kept, dropped := Enter(entry);
      started := if kept then Some(entry) else None;
    }

    method Enter(entry: HTTPCacheEntry) returns (kept: bool, ghost dropped: nat)
      requires owner.Valid() && this in owner.partitions && entry !in owner.begun && entry.cache == this
      requires entry.active && entry.size == 0 && entry.chunks == [] && entry.body == None
      requires entry.captured == generation && entry.born == owner.clock
      requires Some(entry.vary) == ParseVary(FieldText(entry.headers, "Vary"))
      modifies owner`entries, owner`size, owner`begun, owner`used, owner`clock
      modifies owner.begun`active, owner.begun`chunks, owner.partitions`index
      modifies entry`active, entry`chunks, entry`size
      ensures owner.Valid() && kept == entry.active && entry.chunks == []
      ensures kept <==> owner.maxEntries > 0
      ensures owner.begun == old(owner.begun) + {entry} && owner.Survived(old(owner.entries) + [entry], entry, dropped)
      ensures owner.Undisturbed({})
    {
      hide HTTPCacheStore.Within, HTTPCacheStore.Wired, HTTPCacheStore.Indexed, HTTPCacheStore.Survived, Stamped, Total;
      hide HTTPCacheStore.Fenced, HTTPCacheStore.Undisturbed, HTTPCacheStore.Selectable, HTTPCacheEntry.Charged, Concat;
      Insert(entry);
      kept, dropped := owner.Reserve(entry, 0);
      Spared(owner, old(owner.entries), entry, dropped);
      owner.FewerFenced(old(owner.entries) + [entry]);
      forall e | e in owner.begun ensures e.Charged() {
        if e != entry { e.StillCharged(); } else { entry.StartsCharged(); }
      }
      owner.OnlyLosses({});
      owner.NewSelectable(entry);
    }

    /** The entry joins the list of its URL; the store has yet to admit it. */
    method Insert(entry: HTTPCacheEntry)
      requires owner.Valid() && this in owner.partitions && entry !in owner.begun && entry.cache == this
      requires entry.active && entry.size == 0 && entry.chunks == [] && entry.body == None
      requires entry.captured == generation && entry.born == owner.clock
      modifies this`index, owner`begun, owner`used, owner`clock
      ensures owner.begun == old(owner.begun) + {entry} && owner.used == old(owner.used)[entry := old(owner.clock)]
      ensures owner.Sound(owner.entries + [entry]) && entry !in owner.entries
      ensures owner.Within() && owner.Fenced(owner.entries + [entry])
    {
      hide HTTPCacheStore.Within, Stamped, AgreesAt, Total;
      assert entry !in owner.entries;
      StampedMoved(owner.entries, entry, owner.used, owner.clock);
      TotalAppend(owner.entries, [entry]);
      TotalOne(entry);
      forall p | p in owner.partitions
        ensures AgreesAt(owner.entries + [entry], p,
          if entry.cache == p then p.index[entry.url := ListIn(p.index, entry.url) + [entry]] else p.index)
      {
        AgreesWith(owner.entries, p, p.index, entry);
      }
      index := index[entry.url := ListIn(index, entry.url) + [entry]];
      owner.begun := owner.begun + {entry};
      owner.used := owner.used[entry := owner.clock];
      owner.clock := owner.clock + 1;
    }

    /** `candidates` */
    method Candidates(request: Request) returns (found: seq<HTTPCacheEntry>)
      requires owner.Valid() && this in owner.partitions
      ensures InOrder(found) && forall e :: e in found ==> e in owner.entries && e.Suits(this, request)
      ensures forall e :: e in found ==> e in owner.begun && e.cache == this
      ensures forall e :: e in owner.entries && e.Suits(this, request) ==> e in found
      ensures forall e :: e in owner.entries ==> (e in found <==> Answers(e, request))
    {
      hide HTTPCacheStore.Wired, HTTPCacheStore.Within, HTTPCacheStore.Fenced, Stamped, Total;
      hide HTTPCacheEntry.Charged, HTTPCacheEntry.Matches;
      AnswersSuit(request);
      assert AgreesAt(owner.entries, this, index);
      found := CompleteOf(ListIn(index, request.url), request);
    }

    /**
     What a scan of the whole set would choose: a suitable entry, with a Vary field if any has, and of those the
     newest.
     */
    ghost predicate Chosen(es: seq<HTTPCacheEntry>, best: HTTPCacheEntry, request: Request)
      reads Elements(es), best
    {
      best in es && best.Suits(this, request) &&
      forall e :: e in es && e.Suits(this, request) ==>
        if e.Varied() == best.Varied() then e.RanksBelow(best) else best.Varied()
    }

    /**
     Section 4.1 of RFC 9111: a complete response for the URL and method, to a request that had the same value as
     this one, or none, under every name in the stored Vary field.
     */
    ghost predicate Answers(e: HTTPCacheEntry, request: Request)
      reads e`body, e`headers
    {
      e.cache == this && e.url == request.url && e.body != None &&
      (e.method_ == request.method_ || (request.method_ == "HEAD" && e.method_ == "GET")) &&
      var names := ParseVary(FieldText(e.headers, "Vary"));
      names.Some? &&
      forall name :: name in names.value ==> Get(e.requestHeaders, name) == Get(request.headers, name)
    }

    /** One with a Vary field comes first, then the one with the later date, then the one begun later. */
    ghost predicate Before(e: HTTPCacheEntry, best: HTTPCacheEntry)
      reads e`headers, e`responseTime, best`headers, best`responseTime
    {
      var d := owner.rules.parseDate(FieldText(e.headers, "Date"), e.responseTime);
      var b := owner.rules.parseDate(FieldText(best.headers, "Date"), best.responseTime);
      var date := if d == None then e.responseTime else d.value;
      var bestDate := if b == None then best.responseTime else b.value;
      if Get(best.headers, "Vary") == None then
        Get(e.headers, "Vary") == None && (date < bestDate || (date == bestDate && e.born <= best.born))
      else
        Get(e.headers, "Vary") == None || date < bestDate || (date == bestDate && e.born <= best.born)
    }

    /** The filter and the order of the source are those. */
    lemma AnswersSuit(request: Request)
      requires owner.Valid() && this in owner.partitions
      ensures forall e :: e in owner.entries ==> (Answers(e, request) <==> e.Suits(this, request))
      ensures forall e, best :: e in owner.entries && best in owner.entries && e.cache == this == best.cache ==>
        (Before(e, best) <==> if e.Varied() == best.Varied() then e.RanksBelow(best) else best.Varied())
    {
      hide HTTPCacheStore.Sound, HTTPCacheStore.Within, HTTPCacheStore.Fenced, HTTPCacheEntry.Charged, ParseVary;
      forall e | e in owner.entries ensures e.Varied() <==> Get(e.headers, "Vary") != None {
        HasValues(e.headers, "Vary");
      }
    }

    method Choose(request: Request) returns (selected: Option<HTTPCacheEntry>)
      requires owner.Valid() && this in owner.partitions
      ensures selected == None ==> forall e :: e in owner.entries ==> !e.Suits(this, request)
      ensures selected.Some? ==> Chosen(owner.entries, selected.value, request)
      ensures forall e :: e in owner.entries && Answers(e, request) ==> selected.Some? && Before(e, selected.value)
      ensures selected.Some? ==> selected.value in owner.entries && Answers(selected.value, request)
    {
      hide HTTPCacheStore.Valid, HTTPCacheEntry.RanksBelow, HTTPCacheEntry.Varied, HTTPCacheEntry.Matches;
      hide InOrder, Answers, Before;
      AnswersSuit(request);
      var found := Candidates(request);
      var varied := VariedOf(found);
      selected := Newest(if |varied| > 0 then varied else found);
    }

    /** `select` */
    method Select(request: Request) returns (selected: Option<HTTPCacheEntry>)
      requires owner.Valid() && this in owner.partitions
      modifies owner`entries, owner`used, owner`clock
      ensures owner.Valid()
      ensures selected == None ==> owner.entries == old(owner.entries)
      ensures selected == None ==> forall e :: e in owner.entries ==> !e.Suits(this, request)
      ensures selected.Some? ==> Chosen(old(owner.entries), selected.value, request)
      ensures selected.Some? ==> forall i :: selected.value.captured <= i < |log| ==> !log[i].Hits(request.url)
      ensures selected.Some? ==>
        owner.entries == Minus(old(owner.entries), {selected.value}) + [selected.value] &&
        owner.used == old(owner.used)[selected.value := old(owner.clock)]
      ensures forall e :: e in owner.entries <==> e in old(owner.entries)
      ensures forall e :: e in owner.entries && Answers(e, request) ==> selected.Some? && Before(e, selected.value)
      ensures selected.Some? ==> selected.value in old(owner.entries) && Answers(selected.value, request)
    {
      hide HTTPCacheStore.Wired, HTTPCacheStore.Indexed, HTTPCacheStore.Within, HTTPCacheStore.Selectable;
      hide HTTPCacheEntry.Charged, Stamped, Total;
      hide HTTPCacheEntry.Varied, HTTPCacheEntry.RanksBelow, HTTPCacheEntry.Matches, Answers, Before;
      selected := Choose(request);
      if selected.Some? { owner.Touch(selected.value); }
    }

    /** Every stored GET response that suits the request was freshened, and no other was touched. */
    twostate predicate AllFreshened(
      request: Request, response: Response, requestTime: real, responseTime: real, new gone: set<HTTPCacheEntry>)
      reads this, owner, owner.begun
    {
      forall e :: e in old(owner.begun) && e in owner.begun ==>
        if old(e in owner.entries && Answers(e, request)) && e.method_ == "GET"
        then e.Freshened(old(e.Meta()), response, requestTime, responseTime, e in gone)
        else e.Meta() == old(e.Meta()) && e !in gone
    }

    /**
     Section 4.3.5 of RFC 9111: a HEAD response updates exactly the stored GET responses it could have selected and
     agrees with in every validator and length it carries; one it disagrees with goes, as does one that the update
     makes unfit to be stored.
     */
    twostate lemma FreshenedExactly(
      request: Request, response: Response, requestTime: real, responseTime: real, new gone: set<HTTPCacheEntry>,
      e: HTTPCacheEntry)
      requires e in old(owner.begun) && e in owner.begun
      requires AllFreshened(request, response, requestTime, responseTime, gone)
      ensures
        var due := old(e in owner.entries && Answers(e, request)) && e.method_ == "GET";
        var agrees := forall name :: name in {"ETag", "Last-Modified", "Content-Length"} ==>
          Get(response.headers, name) == None || Get(response.headers, name) == Get(old(e.headers), name);
        e.Meta() ==
          (if due && agrees then Validated(owner.rules, old(e.Meta()), response, requestTime, responseTime)
           else old(e.Meta())) &&
        (e in gone <==> due && (!agrees || !CanStore(owner.rules, "GET", e.status, e.headers, "")))
    {
      hide Validated, CanStore, ParseVary, Get, Contradicts;
      ContradictsExactly(response.headers, old(e.headers));
    }

    /** `freshen`: a HEAD response updates the stored GET responses it agrees with, and discards the others. */
    method Freshen(request: Request, response: Response, requestTime: real, responseTime: real)
      returns (ghost gone: set<HTTPCacheEntry>)
      requires owner.Valid() && this in owner.partitions
      modifies owner.begun`headers, owner.begun`requestTime, owner.begun`responseTime, owner.begun`vary
      modifies owner`entries, owner`size, owner.begun`active, owner.begun`chunks, owner.partitions`index
      ensures owner.Valid() && owner.entries == Minus(old(owner.entries), gone)
      ensures AllFreshened(request, response, requestTime, responseTime, gone) && owner.Undisturbed({})
    {
      hide HTTPCacheStore.Valid, HTTPCacheEntry.Suits, Validated, HTTPCacheEntry.Kept, Contradicts, Minus, Answers;
      var found := Candidates(request);
      gone := {};
      MinusNone(owner.entries, {});
      for i := 0 to |found|
        invariant owner.Valid() && owner.entries == Minus(old(owner.entries), gone) && owner.Undisturbed({})
        invariant forall e :: e in owner.begun && e !in found[..i] ==> e !in gone && e.Meta() == old(e.Meta())
        invariant forall e :: e in owner.begun && e in found[..i] ==>
          if e.method_ == "GET" then e.Freshened(old(e.Meta()), response, requestTime, responseTime, e in gone)
          else e.Meta() == old(e.Meta()) && e !in gone
      {
        var entry := found[i];
        if entry.method_ == "GET" {
          MinusMinus(old(owner.entries), gone, {entry});
          if Contradicts(response.headers, entry.headers) {
            owner.Drop(entry);
            gone := gone + {entry};
          } else {
            entry.Update(response, requestTime, responseTime);
            if !entry.Kept() { gone := gone + {entry}; }
          }
        }
      }
    }

    method Matching(found: seq<HTTPCacheEntry>, response: Response) returns (matching: seq<HTTPCacheEntry>)
      requires InOrder(found)
      ensures InOrder(matching) && forall e :: e in matching ==> e in found && e.IdentifiedBy(response, |found| == 1)
      ensures forall e :: e in found && e.IdentifiedBy(response, |found| == 1) ==> e in matching
    {
      hide HTTPCacheEntry.IdentifiedBy;
      matching := [];
      for i := 0 to |found|
        invariant InOrder(matching)
        invariant forall e :: e in matching ==> e in found[..i] && e.IdentifiedBy(response, |found| == 1)
        invariant forall e :: e in found[..i] && e.IdentifiedBy(response, |found| == 1) ==> e in matching
      {
        assert forall e :: e in found[..i] ==> e.born < found[i].born;
        if found[i].IdentifiedBy(response, |found| == 1) { matching := matching + [found[i]]; }
      }
      assert found[..|found|] == found;
    }

    /** The stored responses that suit a request. */
    ghost function Suitable(request: Request): set<HTTPCacheEntry>
      reads owner`entries, owner.entries
    {
      set e | e in owner.entries && e.Suits(this, request)
    }

    ghost function Identified(request: Request, response: Response): set<HTTPCacheEntry>
      reads owner`entries, owner.entries
    {
      set e | e in Suitable(request) && e.IdentifiedBy(response, |Suitable(request)| == 1)
    }

    /** What a 304 response updates: all it identifies if it has a strong tag, else only the newest of them. */
    ghost function Targets(request: Request, response: Response): set<HTTPCacheEntry>
      reads owner`entries, owner.entries
    {
      var identified := Identified(request, response);
      if Strong(owner.rules, response.headers) then identified
      else set e | e in identified && forall other :: other in identified ==> other.RanksBelow(e)
    }

    /** A validator of the response says so: a tag, compared weakly unless it is strong, else the modification date. */
    ghost predicate Validates(response: Response, e: HTTPCacheEntry, request: Request)
      reads owner`entries, owner.entries, e
    {
      var tag, other := owner.rules.parseTag(FieldText(response.headers, "ETag")),
        owner.rules.parseTag(FieldText(e.headers, "ETag"));
      var date := Get(response.headers, "Last-Modified");
      e in owner.entries && Answers(e, request) &&
      if tag != None then
        other != None && other.value.value == tag.value.value && (tag.value.weak || !other.value.weak)
      else if date != None then
        Get(e.headers, "Last-Modified") == date
      else
        Get(e.headers, "ETag") == None && Get(e.headers, "Last-Modified") == None &&
        forall o :: o in owner.entries && Answers(o, request) ==> o == e
    }

    ghost predicate NotLater(e: HTTPCacheEntry, best: HTTPCacheEntry)
      reads e`headers, e`responseTime, best`headers, best`responseTime
    {
      var d := owner.rules.parseDate(FieldText(e.headers, "Date"), e.responseTime);
      var b := owner.rules.parseDate(FieldText(best.headers, "Date"), best.responseTime);
      var date := if d == None then e.responseTime else d.value;
      var bestDate := if b == None then best.responseTime else b.value;
      date < bestDate || (date == bestDate && e.born <= best.born)
    }

    /** Section 4.3.4 of RFC 9111: all that a strong tag validates, else the latest of what the response validates. */
    lemma TargetsExactly(request: Request, response: Response, e: HTTPCacheEntry)
      requires owner.Valid() && this in owner.partitions
      ensures var tag := owner.rules.parseTag(FieldText(response.headers, "ETag"));
        e in Targets(request, response) <==>
        Validates(response, e, request) &&
        ((tag != None && !tag.value.weak) ||
         forall o :: o in owner.entries && Validates(response, o, request) ==> NotLater(o, e))
    {
      hide HTTPCacheStore.Valid, Answers, HTTPCacheEntry.Suits, Validates, NotLater, HTTPCacheEntry.RanksBelow;
      hide HTTPCacheEntry.IdentifiedBy;
      AnswersSuit(request);
      forall o | Validates(response, o, request) ensures o in owner.entries && Answers(o, request) {
        ValidatesAnswering(response, o, request);
      }
      forall o | o in owner.entries && Answers(o, request)
        ensures o.IdentifiedBy(response, |Suitable(request)| == 1) <==> Validates(response, o, request)
      {
        ValidatesOne(request, response, o);
      }
      forall o | o in owner.entries && Answers(o, request) && Answers(e, request)
        ensures o.RanksBelow(e) <==> NotLater(o, e)
      {
        SameOrder(o, e, request);
      }
    }

    lemma ValidatesAnswering(response: Response, e: HTTPCacheEntry, request: Request)
      requires Validates(response, e, request)
      ensures e in owner.entries && Answers(e, request)
    {
    }

    lemma SameOrder(a: HTTPCacheEntry, b: HTTPCacheEntry, request: Request)
      requires Answers(a, request) && Answers(b, request)
      ensures a.RanksBelow(b) <==> NotLater(a, b)
    {
    }

    lemma ValidatesOne(request: Request, response: Response, e: HTTPCacheEntry)
      requires owner.Valid() && this in owner.partitions && e in owner.entries && Answers(e, request)
      ensures e.IdentifiedBy(response, |Suitable(request)| == 1) <==> Validates(response, e, request)
    {
      hide HTTPCacheStore.Valid, ParseVary;
      Alone(request, e);
      HasValues(response.headers, "Last-Modified");
      HasValues(e.headers, "Last-Modified");
      HasValues(e.headers, "ETag");
    }

    lemma Alone(request: Request, e: HTTPCacheEntry)
      requires owner.Valid() && this in owner.partitions && e in owner.entries && Answers(e, request)
      ensures |Suitable(request)| == 1 <==> forall o :: o in owner.entries && Answers(o, request) ==> o == e
    {
      hide HTTPCacheStore.Valid, HTTPCacheEntry.Suits, Answers;
      AnswersSuit(request);
      OnlyOne(request);
      assert e in Suitable(request);
      assert forall o :: o in Suitable(request) <==> o in owner.entries && Answers(o, request);
    }

    lemma OnlyOne(request: Request)
      ensures forall e :: e in Suitable(request) ==>
        (|Suitable(request)| == 1 <==> forall o :: o in Suitable(request) ==> o == e)
    {
      var all := Suitable(request);
      forall e | e in all ensures |all| == 1 <==> forall o :: o in all ==> o == e {
        if |all| == 1 { assert |all - {e}| == 0; }
        if forall o :: o in all ==> o == e { assert all == {e}; }
      }
    }

    method Identify(request: Request, response: Response) returns (targets: seq<HTTPCacheEntry>)
      requires owner.Valid() && this in owner.partitions
      ensures InOrder(targets) && Elements(targets) == Targets(request, response)
      ensures forall e :: e in targets ==> e in owner.begun && e.cache == this
    {
      hide HTTPCacheStore.Valid, HTTPCacheEntry.Suits, Strong, HTTPCacheEntry.IdentifiedBy, HTTPCacheEntry.RanksBelow;
      hide Answers;
      var found := Candidates(request);
      assert Elements(found) == Suitable(request);
      ElementsCount(found);
      targets := Matching(found, response);
      assert Elements(targets) == Identified(request, response);
      if !Strong(owner.rules, response.headers) {
        var newest := Newest(targets);
        BestOf(targets, newest);
        assert Targets(request, response) == match newest case Some(entry) => {entry} case None => {};
        targets := match newest case Some(entry) => [entry] case None => [];
      }
    }

    /** The entries have been updated, and no other, and those are gone that may no longer be stored. */
    twostate predicate AllUpdated(
      targets: set<HTTPCacheEntry>, response: Response, requestTime: real, responseTime: real)
      reads this, owner, owner.begun, targets
    {
      (forall e :: e in old(owner.begun) && e in owner.begun ==>
        e.Meta() ==
        if e in targets then Validated(owner.rules, old(e.Meta()), response, requestTime, responseTime)
        else old(e.Meta())) &&
      owner.entries == Minus(old(owner.entries), Unstorable(targets))
    }

    function Unstorable(targets: set<HTTPCacheEntry>): set<HTTPCacheEntry>
      reads targets
    {
      set e | e in targets && !e.Kept()
    }

    method UpdateAll(targets: seq<HTTPCacheEntry>, response: Response, requestTime: real, responseTime: real)
      requires owner.Valid() && this in owner.partitions
      requires InOrder(targets) && forall e :: e in targets ==> e in owner.begun && e.cache == this
      modifies owner.begun`headers, owner.begun`requestTime, owner.begun`responseTime, owner.begun`vary
      modifies owner`entries, owner`size, owner.begun`active, owner.begun`chunks, owner.partitions`index
      ensures owner.Valid()
      ensures AllUpdated(Elements(targets), response, requestTime, responseTime) && owner.Undisturbed({})
    {
      hide HTTPCacheStore.Valid, Validated, HTTPCacheEntry.Kept, InOrder, Minus;
      InOrderDistinct(targets);
      assert Unstorable(Elements(targets[..0])) == {};
      MinusNone(owner.entries, {});
      for i := 0 to |targets|
        invariant owner.Valid() && owner.Undisturbed({})
        invariant AllUpdated(Elements(targets[..i]), response, requestTime, responseTime)
      {
        assert targets[i] !in targets[..i];
        assert Elements(targets[..i + 1]) == Elements(targets[..i]) + {targets[i]};
        ghost var gone := Unstorable(Elements(targets[..i]));
        targets[i].Update(response, requestTime, responseTime);
        assert Unstorable(Elements(targets[..i])) == gone;
        MinusMinus(old(owner.entries), gone, {targets[i]});
        assert Unstorable(Elements(targets[..i + 1])) == if targets[i].Kept() then gone else gone + {targets[i]};
      }
      assert targets[..|targets|] == targets;
    }

    /** `revalidate`: a 304 response updates the representations it identifies, and no others. */
    method Revalidate(request: Request, response: Response, requestTime: real, responseTime: real)
      requires owner.Valid() && this in owner.partitions
      modifies owner.begun`headers, owner.begun`requestTime, owner.begun`responseTime, owner.begun`vary
      modifies owner`entries, owner`size, owner.begun`active, owner.begun`chunks, owner.partitions`index
      ensures owner.Valid()
      ensures AllUpdated(old(Targets(request, response)), response, requestTime, responseTime)
      ensures owner.Undisturbed({})
    {
      hide HTTPCacheStore.Valid, Targets, InOrder, Validated, Minus;
      var targets := Identify(request, response);
      UpdateAll(targets, response, requestTime, responseTime);
    }

    /** The generation step of `invalidate` and `clear`. */
    method Fence(ghost event: Event)
      requires owner.Sound(owner.entries) && this in owner.partitions
      modifies this`generation, this`log
      ensures owner.Sound(owner.entries) && log == old(log) + [event]
    {
      generation := generation + 1;
      log := log + [event];
    }

    /** `invalidate` */
    method Invalidate(url: string)
      requires owner.Valid() && this in owner.partitions
      modifies this`generation, this`log
      modifies owner`entries, owner`size, owner.begun`active, owner.begun`chunks, owner.partitions`index
      ensures owner.Valid() && log == old(log) + [Invalidated(url)]
      ensures owner.entries == Minus(old(owner.entries), Held(old(owner.entries), this, {url}))
      ensures forall e :: e in owner.entries <==> e in old(owner.entries) && !(e.cache == this && e.url == url)
      ensures owner.Undisturbed({})
    {
      hide HTTPCacheStore.Within, HTTPCacheStore.Wired, HTTPCacheStore.Undisturbed, HTTPCacheEntry.Charged;
      hide HTTPCacheStore.Selectable, FencedAt, Stamped, Total, Minus, Held, InOrder;
      WithoutHeld(owner.entries, this, url);
      Fence(Invalidated(url));
      var list := ListIn(index, url);
      ListHeld(owner.entries, this, index, url);
      owner.RemoveAll(list);
      forall p | p in owner.partitions ensures FencedAt(owner.entries, p, p.log) {
        FencedAfter(old(owner.entries), owner.entries, p, old(p.log), Invalidated(url));
      }
      owner.StillCharged();
      owner.OnlyLosses({});
      owner.StillSelectable();
    }

    /** `clear` */
    method Clear()
      requires owner.Valid() && this in owner.partitions
      modifies this`generation, this`log
      modifies owner`entries, owner`size, owner.begun`active, owner.begun`chunks, owner.partitions`index
      ensures owner.Valid() && log == old(log) + [Cleared]
      ensures owner.entries == Minus(old(owner.entries), Owned(old(owner.entries), this))
      ensures forall e :: e in owner.entries <==> e in old(owner.entries) && e.cache != this
      ensures owner.Undisturbed({})
    {
      hide HTTPCacheStore.Within, HTTPCacheStore.Wired, HTTPCacheStore.Undisturbed, HTTPCacheEntry.Charged;
      hide HTTPCacheStore.Selectable, FencedAt, Stamped, Total, Minus, Owned, InOrder;
      WithoutOwned(owner.entries, this);
      Fence(Cleared);
      ListsOwned(owner.entries, this, index);
      RemoveLists(index);
      forall p | p in owner.partitions ensures FencedAt(owner.entries, p, p.log) {
        FencedAfter(old(owner.entries), owner.entries, p, old(p.log), Cleared);
      }
      owner.StillCharged();
      owner.OnlyLosses({});
      owner.StillSelectable();
    }

    /** The loops of `clear` over its snapshot of the lists. */
    method RemoveLists(lists: Index)
      requires owner.Sound(owner.entries) && owner.Within() && this in owner.partitions && lists == index
      modifies owner`entries, owner`size, owner.begun`active, owner.begun`chunks, owner.partitions`index
      ensures owner.Sound(owner.entries) && owner.Within()
      ensures owner.entries == Minus(old(owner.entries), Held(old(owner.entries), this, lists.Keys))
      ensures forall e :: e in owner.begun ==> e.chunks == if old(e.active) && !e.active then [] else old(e.chunks)
      ensures forall e :: e in owner.begun && e.active ==> old(e.active)
    {
      hide HTTPCacheStore.Within, HTTPCacheStore.Sound, AgreesAt, Minus;
      ghost var all := owner.entries;
      owner.ListsKnown(this);
      var left := lists.Keys;
      assert lists.Keys - left == {} && Held(all, this, {}) == {};
      MinusNone(all, {});
      while left != {}
        invariant left <= lists.Keys
        invariant owner.Sound(owner.entries) && owner.Within()
        invariant owner.entries == Minus(all, Held(all, this, lists.Keys - left))
        invariant forall e :: e in owner.begun ==> e.chunks == if old(e.active) && !e.active then [] else old(e.chunks)
        invariant forall e :: e in owner.begun && e.active ==> old(e.active)
        decreases left
      {
        var url :| url in left;
        HeldMore(all, this, lists.Keys - left, url);
        assert lists.Keys - (left - {url}) == lists.Keys - left + {url};
        owner.RemoveAll(lists[url]);
        left := left - {url};
      }
      assert lists.Keys - left == lists.Keys;
    }

    /** `replace` */
    method Replace(entry: HTTPCacheEntry)
      requires owner.Valid() && entry in owner.begun && entry.cache == this && this in owner.partitions
      modifies owner`entries, owner`size, owner.begun`active, owner.begun`chunks, owner.partitions`index
      ensures owner.Valid()
      ensures entry.active == old(entry.active)
      ensures owner.entries == Minus(old(owner.entries), Superseded(old(owner.entries), entry))
      ensures owner.Undisturbed({})
    {
      hide HTTPCacheStore.Valid, ListIn;
      ValidBegun(owner);
      var list := ListIn(index, entry.url);
      var gone := SupersededOf(list, entry);
      ListKnown(entry.url);
      assert Elements(gone) == Superseded(owner.entries, entry);
      owner.DropAll(gone);
      ValidBegun(owner);
    }

    lemma ListKnown(url: string)
      requires owner.Valid() && this in owner.partitions
      ensures forall e :: e in ListIn(index, url) <==> e in owner.entries && e.cache == this && e.url == url
      ensures forall e :: e in owner.entries ==> e in owner.begun
    {
      hide HTTPCacheStore.Wired, HTTPCacheStore.Within, HTTPCacheStore.Fenced, HTTPCacheEntry.Charged, Stamped, Total;
      assert AgreesAt(owner.entries, this, index);
    }

    method SupersededOf(list: seq<HTTPCacheEntry>, entry: HTTPCacheEntry) returns (gone: seq<HTTPCacheEntry>)
      ensures forall e :: e in gone <==> e in list && e.SupersededBy(entry)
    {
      hide HTTPCacheEntry.SupersededBy;
      gone := [];
      for i := 0 to |list|
        invariant forall e :: e in gone <==> e in list[..i] && e.SupersededBy(entry)
      {
        if list[i].SupersededBy(entry) { gone := gone + [list[i]]; }
      }
      assert list[..|list|] == list;
    }

    /** `remove` */
    method Unlist(entry: HTTPCacheEntry)
      modifies this`index
      ensures index == Unlisted(old(index), entry)
    {
      if entry.url !in index { return; }
      var remaining := Minus(index[entry.url], {entry});
      if remaining != [] { index := index[entry.url := remaining]; } else { index := index - {entry.url}; }
    }
  }

  class HTTPCacheStore {
    var partitions: seq<HTTPCachePartition>
    const maxBytes: nat
    const maxEntryBytes: nat
    const maxEntries: nat
    const rules: Rules
    var entries: seq<HTTPCacheEntry>
    var size: int
    /** Every entry ever begun, when each was last begun or selected, and a clock for that. */
    ghost var begun: set<HTTPCacheEntry>
    ghost var used: map<HTTPCacheEntry, nat>
    ghost var clock: nat

    constructor (maxBytes: nat, maxEntryBytes: nat, maxEntries: nat, rules: Rules)
      ensures Valid() && partitions == [] && entries == []
      ensures this.maxBytes == maxBytes && this.maxEntryBytes == maxEntryBytes && this.maxEntries == maxEntries
    {
      this.maxBytes, this.maxEntryBytes, this.maxEntries, this.rules := maxBytes, maxEntryBytes, maxEntries, rules;
      partitions, entries, size := [], [], 0;
      begun, used, clock := {}, map[], 0;
    }

    /** `determine`, given the request's partition key. */
    method Determine(key: Option<string>) returns (found: Option<HTTPCachePartition>)
      requires Valid()
      modifies this`partitions
      ensures Valid()
      ensures key == None ==> found == None && partitions == old(partitions)
      ensures key.Some? ==> found.Some? && found.value in partitions && found.value.key == key.value
      ensures key.Some? && found.value in old(partitions) ==> partitions == old(partitions)
      ensures key.Some? && found.value !in old(partitions) ==>
        fresh(found.value) && partitions == old(partitions) + [found.value] && found.value.log == []
    {
      hide Within, Stamped, Total, HTTPCacheEntry.Charged;
      if key == None { return None; }
      for i := 0 to |partitions|
        invariant forall j :: 0 <= j < i ==> partitions[j].key != key.value
      {
        if partitions[i].key == key.value { return Some(partitions[i]); }
      }
      var partition := new HTTPCachePartition(key.value, this);
      assert forall e :: e in entries ==> e.cache != partition;
      partitions := partitions + [partition];
      found := Some(partition);
    }

    /** `clear`: every partition, one after the other. */
    method ClearAll()
      requires Valid()
      modifies partitions`generation, partitions`log
      modifies this`entries, this`size, begun`active, begun`chunks, partitions`index
      ensures Valid() && entries == [] && Undisturbed({})
      ensures forall p :: p in partitions ==> p.log == old(p.log) + [Cleared]
    {
      hide Sound, Within, Fenced, Selectable, HTTPCacheEntry.Charged, Minus;
      for i := 0 to |partitions|
        invariant Valid() && Undisturbed({})
        invariant forall e :: e in entries ==> e in old(entries)
        invariant forall j, e :: 0 <= j < i && e in entries ==> e.cache != partitions[j]
        invariant forall j :: 0 <= j < i ==> partitions[j].log == old(partitions[j].log) + [Cleared]
        invariant forall j :: i <= j < |partitions| ==> partitions[j].log == old(partitions[j].log)
      {
        DistinctPartitions();
        partitions[i].Clear();
      }
      CachesKnown();
    }

    lemma DistinctPartitions()
      requires Valid()
      ensures forall p :: p in partitions ==> p.owner == this
      ensures forall i, j :: 0 <= i < j < |partitions| ==> partitions[i] != partitions[j]
    {
    }

    lemma CachesKnown()
      requires Valid()
      ensures entries != [] ==> entries[0] in entries && entries[0].cache in partitions
    {
    }

    ghost predicate Wired()
      reads this`partitions, partitions`generation, partitions`log
    {
      (forall p :: p in partitions ==> p.owner == this && p.generation == |p.log|) &&
      forall i, j :: 0 <= i < j < |partitions| ==> partitions[i].key != partitions[j].key
    }

    /** The set `es` holds exactly the active entries, in the order of their last use. */
    ghost predicate Listed(es: seq<HTTPCacheEntry>)
      reads this`partitions, this`begun, this`used, this`clock, begun`active
    {
      Stamped(es, used) && (forall e :: e in es ==> e in begun) &&
      forall e :: e in begun ==>
        e in used && used[e] < clock && e.born <= used[e] && e.cache in partitions && (e.active <==> e in es)
    }

    /** Every partition's index agrees with the set. */
    ghost predicate Indexed(es: seq<HTTPCacheEntry>)
      reads this`partitions, partitions`index
    {
      forall p :: p in partitions ==> AgreesAt(es, p, p.index)
    }

    ghost predicate Sound(es: seq<HTTPCacheEntry>)
      reads this, partitions, begun
    {
      Wired() && Listed(es) && Indexed(es) && size == Total(es)
    }

    lemma SoundFacts()
      requires Sound(entries)
      ensures Stamped(entries, used) && size == Total(entries)
      ensures forall e :: e in entries ==> e in begun
      ensures forall e :: e in begun ==> e.cache in partitions && (e.active <==> e in entries)
    {
    }

    lemma ListsKnown(p: HTTPCachePartition)
      requires Sound(entries) && p in partitions
      ensures p.owner == this && forall url :: url in p.index ==>
        Elements(p.index[url]) == Held(entries, p, {url}) && forall e :: e in p.index[url] ==> e in begun
    {
      hide Elements, Held, Stamped, Total;
      forall url | url in p.index { ListHeld(entries, p, p.index, url); }
    }

    /** The set is over a budget. */
    predicate Exceeds(es: seq<HTTPCacheEntry>)
      reads es`size
    {
      |es| > maxEntries || Total(es) > maxBytes
    }

    ghost predicate Within()
      reads this`entries, entries`size
    {
      !Exceeds(entries) && forall e :: e in entries ==> e.size <= maxEntryBytes
    }

    /** All entries but those named keep body and pending chunks, except that one given up has no chunks any more. */
    twostate predicate Undisturbed(but: set<HTTPCacheEntry>)
      reads this`begun, begun
    {
      forall e :: e in old(begun) && e in begun && e !in but ==>
        e.body == old(e.body) && (e.active ==> old(e.active) && e.chunks == old(e.chunks))
    }

    /** Chunks go with their entry. */
    twostate lemma OnlyLosses(but: set<HTTPCacheEntry>)
      requires old(begun) <= begun
      requires forall e :: e in old(begun) && e !in but ==> e.body == old(e.body) && (e.active ==> old(e.active))
      requires forall e :: e in old(begun) && e !in but ==>
        e.chunks == if old(e.active) && !e.active then [] else old(e.chunks)
      ensures Undisturbed(but)
    {
    }

    method Remove(entry: HTTPCacheEntry)
      requires Sound(entries) && entry in begun
      modifies this`entries, this`size, entry`active, entry`chunks, entry.cache`index
      ensures Sound(entries) && entries == Minus(old(entries), {entry})
      ensures entry !in old(entries) ==> entry.chunks == old(entry.chunks) && entry.active == old(entry.active)
      ensures entry in old(entries) ==> entry.chunks == [] && old(entry.active) && !entry.active
    {
      hide Minus, Unlisted, Total, AgreesAt, Stamped;
      if entry !in entries {
        MinusNone(entries, {entry});
        return;
      }
      TotalMinus(entries, entry, used);
      MinusStamped(entries, {entry}, used);
      forall p | p in partitions
        ensures AgreesAt(Minus(entries, {entry}), p, if entry.cache == p then Unlisted(p.index, entry) else p.index)
      {
        AgreesWithout(entries, p, p.index, entry);
      }
      entries := Minus(entries, {entry});
      size := size - entry.size;
      entry.Discard();
    }

    /** Both byte counts of `reserve`. */
    method Grow(entry: HTTPCacheEntry, bytes: nat)
      requires Sound(entries) && entry in entries
      modifies this`size, entry`size
      ensures Sound(entries) && entry.size == old(entry.size) + bytes
    {
      hide Minus, AgreesAt, Wired, Listed, Indexed, Stamped, Total, Others;
      SoundFacts();
      TotalOthers(entries, entry, used);
      size := size + bytes;
      entry.size := entry.size + bytes;
      TotalOthers(entries, entry, used);
    }

    /** The loop of `reserve`: the oldest entries go until the budgets hold, and no entry more. */
    method Evict() returns (ghost dropped: nat)
      requires Sound(entries) && forall e :: e in entries ==> e.size <= maxEntryBytes
      modifies this`entries, this`size, begun`active, begun`chunks, partitions`index
      ensures Sound(entries) && Within()
      ensures dropped <= |old(entries)| && entries == old(entries)[dropped..]
      ensures forall j :: 0 <= j < dropped ==> Exceeds(old(entries)[j..])
      ensures forall e :: e in begun ==> e.chunks == if old(e.active) && !e.active then [] else old(e.chunks)
      ensures forall e :: e in begun && !old(e.active) ==> !e.active
    {
      hide Sound, Exceeds;
      dropped := 0;
      while |entries| > 0 && (size > maxBytes || |entries| > maxEntries)
        invariant Sound(entries) && dropped <= |old(entries)| && entries == old(entries)[dropped..]
        invariant forall e :: e in begun ==> e.chunks == if old(e.active) && !e.active then [] else old(e.chunks)
        invariant forall e :: e in begun && !old(e.active) ==> !e.active
        invariant forall j :: 0 <= j < dropped ==> Exceeds(old(entries)[j..])
      {
        ExceedsExactly();
        assert old(entries)[dropped..][1..] == old(entries)[dropped + 1..];
        RemoveFirst();
        dropped := dropped + 1;
      }
      ExceedsExactly();
    }

    /** The budgets as the loop tests them. */
    lemma ExceedsExactly()
      requires Sound(entries)
      ensures Exceeds(entries) <==> entries != [] && (size > maxBytes || |entries| > maxEntries)
    {
      TotalNone();
    }

    method RemoveFirst()
      requires Sound(entries) && entries != []
      modifies this`entries, this`size, begun`active, begun`chunks, partitions`index
      ensures Sound(entries) && entries == old(entries)[1..]
      ensures forall e :: e in begun ==> e.chunks == if old(e.active) && !e.active then [] else old(e.chunks)
      ensures forall e :: e in begun && !old(e.active) ==> !e.active
    {
      hide Sound, Minus, Stamped, Total;
      SoundFacts();
      MinusFirst(entries, used);
      Remove(entries[0]);
    }

    /** `reserve` before its loop: the entry joins the set and is charged, unless it alone is too large. */
    method Admit(entry: HTTPCacheEntry, bytes: nat)
      requires entry in begun && entry.active && Sound(Added(entries, entry)) && Within()
      modifies this`entries, this`size, entry`active, entry`chunks, entry`size, entry.cache`index
      ensures Sound(entries) && entry.size == old(entry.size) + bytes
      ensures entry.chunks == if entry.active then old(entry.chunks) else []
      ensures forall e :: e in entries ==> e.size <= maxEntryBytes
      ensures var all := Added(old(entries), entry);
        entries == if entry.size > maxEntryBytes then Minus(all, {entry}) else all
    {
      hide Minus, Total, Stamped, AgreesAt, Wired, Indexed;
      entries := Added(entries, entry);
      Grow(entry, bytes);
      if entry.size > maxEntryBytes { Remove(entry); }
    }

    /** What `reserve` leaves: too large an entry goes, then the oldest as long as a budget is exceeded. */
    ghost predicate Survived(all: seq<HTTPCacheEntry>, entry: HTTPCacheEntry, dropped: nat)
      reads this`entries, entry`size, Elements(all)`size
    {
      var rest := if entry.size > maxEntryBytes then Minus(all, {entry}) else all;
      assert forall e :: e in rest ==> e in all;
      Trimmed(rest, dropped)
    }

    /** The shortest possible run of oldest entries is gone. */
    ghost predicate Trimmed(rest: seq<HTTPCacheEntry>, dropped: nat)
      reads this`entries, Elements(rest)`size
    {
      dropped <= |rest| && entries == rest[dropped..] &&
      forall j :: 0 <= j < dropped ==> |rest| - j > maxEntries || Total(rest[j..]) > maxBytes
    }

    lemma EvictsTrim(rest: seq<HTTPCacheEntry>, dropped: nat)
      requires dropped <= |rest| && entries == rest[dropped..] && forall j :: 0 <= j < dropped ==> Exceeds(rest[j..])
      ensures Trimmed(rest, dropped)
    {
    }

    method Reserve(entry: HTTPCacheEntry, bytes: nat) returns (kept: bool, ghost dropped: nat)
      requires entry in begun && Sound(if entry.active then Added(entries, entry) else entries) && Within()
      modifies this`entries, this`size, begun`active, begun`chunks, entry`size, partitions`index
      ensures Sound(entries) && Within() && kept == entry.active
      ensures !old(entry.active) ==> entries == old(entries)
      ensures entry.size == old(entry.size) + if old(entry.active) then bytes else 0
      ensures forall e :: e in begun ==> e.chunks == if old(e.active) && !e.active then [] else old(e.chunks)
      ensures forall e :: e in begun && e.active ==> old(e.active)
      ensures forall e :: e in entries ==> e in old(entries) || e == entry
      ensures old(entry.active) ==> Survived(Added(old(entries), entry), entry, dropped)
    {
      hide Minus, Total, Stamped, AgreesAt, Wired, Indexed, Exceeds, Trimmed;
      if !entry.active { return false, 0; }
      Admit(entry, bytes);
      ghost var rest := entries;
      dropped := Evict();
      EvictsTrim(rest, dropped);
      kept := entry.active;
    }

    /** No invalidation of an entry's URL, and no clearing, came after its exchange captured the generation. */
    ghost predicate Fenced(es: seq<HTTPCacheEntry>)
      reads this`partitions, partitions`log
    {
      forall p :: p in partitions ==> FencedAt(es, p, p.log)
    }

    lemma FewerFenced(es: seq<HTTPCacheEntry>)
      requires Fenced(es) && forall e :: e in entries ==> e in es
      ensures Fenced(entries)
    {
    }

    twostate lemma StillCharged()
      requires begun == old(begun) && forall e :: e in begun ==> old(e.Charged())
      requires forall e :: e in begun ==> e.size == old(e.size) && e.body == old(e.body) && (e.active ==> old(e.active))
      requires forall e :: e in begun ==> e.chunks == if old(e.active) && !e.active then [] else old(e.chunks)
      ensures forall e :: e in begun ==> e.Charged()
    {
    }

    ghost predicate Valid()
      reads this, partitions, begun
    {
      ValidBut({})
    }

    /** Entries that go take nothing with them. */
    twostate lemma StillSelectable()
      requires old(Selectable({})) && forall e :: e in entries ==> e in old(entries)
      requires forall e :: e in entries ==> e.headers == old(e.headers) && e.vary == old(e.vary)
      ensures Selectable({})
    {
    }

    twostate lemma NewSelectable(entry: HTTPCacheEntry)
      requires old(Selectable({})) && forall e :: e in entries ==> e in old(entries) || e == entry
      requires Some(entry.vary) == ParseVary(FieldText(entry.headers, "Vary"))
      requires forall e :: e in old(entries) ==> e.headers == old(e.headers) && e.vary == old(e.vary)
      ensures Selectable({})
    {
    }

    /** Valid, but for the selecting fields of some entries. */
    ghost predicate ValidBut(but: set<HTTPCacheEntry>)
      reads this, partitions, begun
    {
      Sound(entries) && Within() && Fenced(entries) && Selectable(but) && forall e :: e in begun ==> e.Charged()
    }

    /** The selecting fields an entry remembers are those of its stored Vary field. */
    ghost predicate Selectable(but: set<HTTPCacheEntry>)
      reads this`entries, entries`vary, entries`headers
    {
      forall e :: e in entries && e !in but ==> Some(e.vary) == ParseVary(FieldText(e.headers, "Vary"))
    }

    /** `touch` */
    method Touch(entry: HTTPCacheEntry)
      requires Valid() && entry in begun
      modifies this`entries, this`used, this`clock
      ensures Valid() && clock >= old(clock)
      ensures entry !in old(entries) ==> entries == old(entries) && used == old(used)
      ensures entry in old(entries) ==>
        entries == Minus(old(entries), {entry}) + [entry] && used == old(used)[entry := old(clock)]
    {
      hide Minus, Total, AgreesAt, Stamped, Wired, Selectable;
      if entry !in entries { return; }
      ghost var rest := Minus(entries, {entry});
      MinusStamped(entries, {entry}, used);
      TotalMinus(entries, entry, used);
      StampedMoved(rest, entry, used, clock);
      TotalAppend(rest, [entry]);
      TotalOne(entry);
      MinusLength(entries, entry, used);
      forall p | p in partitions ensures AgreesAt(rest + [entry], p, p.index) {
        AgreesMoved(entries, p, p.index, entry);
      }
      entries := Minus(entries, {entry}) + [entry];
      used := used[entry := clock];
      clock := clock + 1;
      StillSelectable();
    }

    method Drop(entry: HTTPCacheEntry)
      requires Valid() && entry in begun
      modifies this`entries, this`size, entry`active, entry`chunks, entry.cache`index
      ensures Valid() && entries == Minus(old(entries), {entry}) && Undisturbed({})
    {
      hide Sound, Within, Fenced, HTTPCacheEntry.Charged, Minus;
      Reject(entry);
    }

    /** Drop an entry whatever fields select it. */
    method Reject(entry: HTTPCacheEntry)
      requires ValidBut({entry}) && entry in begun
      modifies this`entries, this`size, entry`active, entry`chunks, entry.cache`index
      ensures Valid() && entries == Minus(old(entries), {entry}) && Undisturbed({})
    {
      hide Wired, Stamped, Total, Indexed, Minus, FencedAt, HTTPCacheEntry.Charged;
      ghost var fewer := Minus(entries, {entry});
      MinusTotal(entries, {entry});
      ghost var total := Total(fewer);
      Remove(entry);
      assert entries == fewer && Total(fewer) == total <= maxBytes;
      forall p | p in partitions ensures FencedAt(entries, p, p.log) {
        FencedAfter(old(entries), entries, p, p.log, Cleared);
      }
      entry.StillCharged();
    }

    method DropAll(list: seq<HTTPCacheEntry>)
      requires Valid() && forall e :: e in list ==> e in begun
      modifies this`entries, this`size, begun`active, begun`chunks, partitions`index
      ensures Valid() && entries == Minus(old(entries), Elements(list)) && Undisturbed({})
      ensures forall e :: e in begun && e.active ==> old(e.active)
    {
      hide Wired, Stamped, Total, Within, Indexed, Minus, Elements, HTTPCacheEntry.Charged;
      RemoveAll(list);
      StillCharged();
    }

    /** Removing several entries, one after the other. */
    method RemoveAll(list: seq<HTTPCacheEntry>)
      requires Sound(entries) && Within() && forall e :: e in list ==> e in begun
      modifies this`entries, this`size, begun`active, begun`chunks, partitions`index
      ensures Sound(entries) && Within() && entries == Minus(old(entries), Elements(list))
      ensures forall e :: e in begun && e.active ==> old(e.active)
      ensures forall e :: e in begun ==> e.chunks == if old(e.active) && !e.active then [] else old(e.chunks)
    {
      hide Minus, Total, AgreesAt, Stamped, Wired, Indexed;
      MinusNone(entries, {});
      assert Elements(list[..0]) == {};
      for i := 0 to |list|
        invariant Sound(entries) && entries == Minus(old(entries), Elements(list[..i]))
        invariant forall e :: e in begun ==> e.chunks == if old(e.active) && !e.active then [] else old(e.chunks)
      {
        MinusMinus(old(entries), Elements(list[..i]), {list[i]});
        assert Elements(list[..i + 1]) == Elements(list[..i]) + {list[i]};
        Remove(list[i]);
      }
      assert list[..|list|] == list;
      MinusTotal(old(entries), Elements(list));
    }
  }

  lemma ValidBegun(owner: HTTPCacheStore)
    requires owner.Valid()
    ensures forall e :: e in owner.entries ==> e in owner.begun
    ensures forall e :: e in owner.begun ==> e.cache in owner.partitions && (e.active <==> e in owner.entries)
  {
  }

  lemma ConcatNone()
    ensures Concat<nat>([]) == []
  {
  }

  lemma TotalNone()
    ensures Total([]) == 0
  {
  }

  lemma TotalOne(e: HTTPCacheEntry)
    ensures Total([e]) == e.size
  {
    assert [e][1..] == [];
  }

  lemma {:induction false} MinusTotal(es: seq<HTTPCacheEntry>, gone: set<HTTPCacheEntry>)
    ensures |Minus(es, gone)| <= |es| && 0 <= Total(Minus(es, gone)) <= Total(es)
  {
    if es != [] {
      var rest := Minus(es[1..], gone);
      MinusTotal(es[1..], gone);
      if es[0] in gone {
        assert Minus(es, gone) == rest;
      } else {
        assert Minus(es, gone) == [es[0]] + rest;
        TotalAppend([es[0]], rest);
        TotalOne(es[0]);
      }
    }
  }

  lemma {:induction false} MinusLength<T>(s: seq<T>, x: T, stamps: map<T, nat>)
    requires Stamped(s, stamps) && x in s
    ensures |Minus(s, {x})| == |s| - 1
  {
    if s[0] == x {
      MinusFirst(s, stamps);
    } else {
      assert Stamped(s[1..], stamps);
      MinusLength(s[1..], x, stamps);
    }
  }

  lemma AgreesMoved(es: seq<HTTPCacheEntry>, p: HTTPCachePartition, index: Index, e: HTTPCacheEntry)
    requires AgreesAt(es, p, index) && e in es
    ensures AgreesAt(Minus(es, {e}) + [e], p, index)
  {
  }

  /** A new entry is evicted at once only by a store that holds nothing. */
  lemma Spared(owner: HTTPCacheStore, before: seq<HTTPCacheEntry>, e: HTTPCacheEntry, dropped: nat)
    requires owner.Survived(before + [e], e, dropped) && owner.Within() && e !in before && e.size == 0
    ensures e in owner.entries <==> owner.maxEntries > 0
  {
    var all := before + [e];
    if dropped == |all| {
      assert all[|all| - 1..] == [e];
      TotalOne(e);
    } else {
      assert all[dropped..][|all| - 1 - dropped] == e;
    }
  }

  /** The complete entries of a list that match a request. */
  method CompleteOf(es: seq<HTTPCacheEntry>, request: Request) returns (found: seq<HTTPCacheEntry>)
    requires InOrder(es)
    ensures InOrder(found) && forall e :: e in found ==> e in es && e.body.Some? && e.Matches(request)
    ensures forall e :: e in es && e.body.Some? && e.Matches(request) ==> e in found
  {
    hide HTTPCacheEntry.Matches;
    found := [];
    for i := 0 to |es|
      invariant InOrder(found) && forall e :: e in found ==> e in es[..i] && e.body.Some? && e.Matches(request)
      invariant forall e :: e in es[..i] && e.body.Some? && e.Matches(request) ==> e in found
    {
      assert forall e :: e in es[..i] ==> e.born < es[i].born;
      if es[i].body.Some? && es[i].Matches(request) { found := found + [es[i]]; }
    }
    assert es[..|es|] == es;
  }

  method VariedOf(es: seq<HTTPCacheEntry>) returns (varied: seq<HTTPCacheEntry>)
    requires InOrder(es)
    ensures InOrder(varied) && forall e :: e in varied ==> e in es && e.Varied()
    ensures forall e :: e in es && e.Varied() ==> e in varied
  {
    hide HTTPCacheEntry.Varied;
    varied := [];
    for i := 0 to |es|
      invariant InOrder(varied) && forall e :: e in varied ==> e in es[..i] && e.Varied()
      invariant forall e :: e in es[..i] && e.Varied() ==> e in varied
    {
      assert forall e :: e in es[..i] ==> e.born < es[i].born;
      if es[i].Varied() { varied := varied + [es[i]]; }
    }
    assert es[..|es|] == es;
  }

  /**
   The part of an exchange that deals with the cache. It captures the generation twice: when the cache is asked,
   for the answer, and later when the request goes out, for the headers.
   */
  class CachedExchange {
    const cache: HTTPCachePartition
    const generation: nat
    var sent: Option<nat>
    var entry: Option<HTTPCacheEntry>

    constructor (cache: HTTPCachePartition)
      ensures this.cache == cache && generation == cache.generation && sent == None && entry == None
    {
      this.cache, generation, sent, entry := cache, cache.generation, None, None;
    }

    /** The request goes out: `httpNetworkFetch` starts. */
    method Send()
      modifies this`sent
      ensures sent == Some(cache.generation)
    {
      sent := Some(cache.generation);
    }

    /** Headers arrive, perhaps late: nothing is begun if the partition was invalidated or cleared since. */
    method ReceiveHeaders(request: Request, response: Response, requestTime: real, responseTime: real)
      requires cache.owner.Valid() && cache in cache.owner.partitions && entry == None
      modifies this`entry, cache.owner`entries, cache.owner`size, cache.owner`begun, cache.owner`used
      modifies cache.owner`clock, cache.owner.begun`active, cache.owner.begun`chunks, cache.owner.partitions`index
      ensures cache.owner.Valid()
      ensures old(cache.owner.begun) <= cache.owner.begun && fresh(cache.owner.begun - old(cache.owner.begun))
      ensures cache.owner.Undisturbed({})
      ensures forall e :: e in cache.owner.begun - old(cache.owner.begun) ==>
        e.cache == cache && sent == Some(e.captured) && e.BegunFor(request) && e.body == None && e.chunks == [] &&
        (e.active ==> entry == Some(e))
      ensures entry.Some? <==>
        sent == Some(cache.generation) && Storable(cache.owner.rules, request, response) &&
        cache.owner.maxEntries > 0
      ensures sent != Some(cache.generation) || !Storable(cache.owner.rules, request, response) ==>
        cache.owner.entries == old(cache.owner.entries)
      ensures entry.Some? ==>
        fresh(entry.value) && entry.value in cache.owner.begun && entry.value.cache == cache &&
        entry.value.Records(request, response, requestTime, responseTime) &&
        Some(entry.value.captured) == sent && entry.value.Written() == TC.Writing([])
    {
      hide HTTPCacheStore.Valid, HTTPCacheStore.Survived, Storable, Initial;
      if sent == Some(cache.generation) {
        var started, dropped := cache.Begin(request, response, requestTime, responseTime, sent.value);
        entry := started;
      }
    }

    /** The entry, if there is one, is still this exchange's to write. */
    ghost predicate Holds()
      reads this`entry, this`sent, cache.owner`begun, (if entry.Some? then {entry.value} else {})`body
    {
      entry.Some? ==>
        entry.value in cache.owner.begun && entry.value.cache == cache && sent == Some(entry.value.captured) &&
        entry.value.body == None
    }

    /** The entry that is this exchange's to write. */
    ghost function Own(): set<HTTPCacheEntry>
      reads this`entry
    {
      if entry.Some? then {entry.value} else {}
    }

    /** `cacheEntry?.append(bytes)` */
    method ReceiveBytes(bytes: seq<nat>)
      requires cache.owner.Valid() && Holds()
      modifies cache.owner`entries, cache.owner`size, cache.owner.begun`active, cache.owner.begun`chunks
      modifies cache.owner.begun`size, cache.owner.partitions`index
      ensures cache.owner.Valid() && Holds() && cache.owner.Undisturbed(Own())
      ensures entry.Some? ==>
        entry.value.Written() ==
        if old(entry.value.active) && entry.value.active then TC.Writing(old(Concat(entry.value.chunks)) + bytes)
        else TC.Lost
    {
      hide HTTPCacheStore.Valid;
      if entry.Some? { var _ := entry.value.Append(bytes); }
    }

    /** `cacheEntry?.finish(...)`, after which the entry is no longer this exchange's. */
    method EndResponse()
      requires cache.owner.Valid() && Holds()
      modifies this`entry, cache.owner`entries, cache.owner`size, cache.owner.begun`active, cache.owner.begun`chunks
      modifies cache.owner.begun`body, cache.owner.partitions`index
      ensures cache.owner.Valid() && entry == None
      ensures old(entry).Some? && old(entry.value.active) ==>
        old(entry).value.Written() == TC.Published(old(Concat(entry.value.chunks)))
      ensures cache.owner.Undisturbed(old(Own()))
      ensures old(entry).Some? ==> old(entry).value.active == old(entry.value.active)
      ensures old(entry).Some? && !old(entry.value.active) ==> old(entry).value.body == None
    {
      hide HTTPCacheStore.Valid;
      if entry.Some? { entry.value.Finish(); }
      entry := None;
    }

    /** A failed exchange removes its entry. */
    method Abort()
      requires cache.owner.Valid() && Holds()
      modifies cache.owner`entries, cache.owner`size, cache.owner.begun`active, cache.owner.begun`chunks
      modifies cache.owner.partitions`index
      ensures cache.owner.Valid() && Holds() && cache.owner.Undisturbed({})
      ensures entry.Some? ==> entry.value !in cache.owner.entries && !entry.value.active
    {
      hide HTTPCacheStore.Valid;
      ValidBegun(cache.owner);
      if entry.Some? { cache.owner.Drop(entry.value); }
      ValidBegun(cache.owner);
    }

    /** The stored responses are as they were. */
    twostate predicate Untouched()
      reads cache, cache.owner, cache.owner.begun
    {
      cache.log == old(cache.log) && cache.owner.entries == old(cache.owner.entries) &&
      forall e :: e in old(cache.owner.begun) && e in cache.owner.begun ==> e.Meta() == old(e.Meta())
    }

    /**
     The answer to the exchange, with what its status calls for: nothing happens to the stored responses if the
     partition was invalidated or cleared since the exchange began. `selected`: a stored response was validated.
     */
    method Conclude(request: Request, response: Response, selected: bool, requestTime: real, responseTime: real)
      returns (ghost gone: set<HTTPCacheEntry>)
      requires cache.owner.Valid() && cache in cache.owner.partitions
      modifies cache`generation, cache`log, cache.owner`entries, cache.owner`size, cache.owner.partitions`index
      modifies cache.owner.begun`headers, cache.owner.begun`requestTime, cache.owner.begun`responseTime
      modifies cache.owner.begun`vary, cache.owner.begun`active, cache.owner.begun`chunks
      ensures cache.owner.Valid()
      ensures var stands := old(cache.generation) == generation;
        if stands && ShouldInvalidate(request.method_, response.status) then
          cache.log == old(cache.log) + [Invalidated(request.url)] &&
          cache.owner.entries ==
            Minus(old(cache.owner.entries), Held(old(cache.owner.entries), cache, {request.url})) &&
          forall e :: e in old(cache.owner.begun) && e in cache.owner.begun ==> e.Meta() == old(e.Meta())
        else if stands && !request.noStore && request.method_ == "HEAD" && response.status == 200 then
          cache.log == old(cache.log) && cache.owner.entries == Minus(old(cache.owner.entries), gone) &&
          cache.AllFreshened(request, response, requestTime, responseTime, gone)
        else if stands && selected && response.status == 304 then
          cache.log == old(cache.log) &&
          cache.AllUpdated(old(cache.Targets(request, response)), response, requestTime, responseTime)
        else Untouched()
      ensures cache.owner.Undisturbed({})
    {
      hide HTTPCacheStore.Valid, Minus, HTTPCachePartition.AllFreshened;
      ValidBegun(cache.owner);
      gone := {};
      if generation != cache.generation { return; }
      if ShouldInvalidate(request.method_, response.status) {
        cache.Invalidate(request.url);
        assert forall e :: e in cache.owner.entries ==> !cache.Answers(e, request) && !e.Suits(cache, request);
      }
      if !request.noStore && request.method_ == "HEAD" && response.status == 200 {
        gone := cache.Freshen(request, response, requestTime, responseTime);
      }
      if selected && response.status == 304 {
        ghost var targets, entries := cache.Targets(request, response), cache.owner.entries;
        cache.Revalidate(request, response, requestTime, responseTime);
        if ShouldInvalidate(request.method_, response.status) {
          assert targets == {} && cache.Unstorable({}) == {};
          MinusNone(entries, {});
        }
      }
    }
  }

  /** `newest`: the latest date, and the last of those. */
  method Newest(es: seq<HTTPCacheEntry>) returns (result: Option<HTTPCacheEntry>)
    requires InOrder(es)
    ensures result == None <==> es == []
    ensures result.Some? ==> result.value in es && forall e :: e in es ==> e.RanksBelow(result.value)
  {
    hide HTTPCacheEntry.Date;
    result := None;
    for i := 0 to |es|
      invariant result == None <==> i == 0
      invariant result.Some? ==> result.value in es[..i] && forall e :: e in es[..i] ==> e.RanksBelow(result.value)
    {
      assert forall e :: e in es[..i] ==> e.born < es[i].born;
      assert es[..i + 1] == es[..i] + [es[i]];
      if result == None || es[i].Date() >= result.value.Date() { result := Some(es[i]); }
    }
    assert es[..|es|] == es;
  }

  // ---------------------------------------------------------------------------
  // What validity says about the bytes held
  // ---------------------------------------------------------------------------

  /** The bytes that a set of entries holds, pending or complete. */
  function Bytes(es: seq<HTTPCacheEntry>): int
    reads es
  {
    if es == [] then 0
    else |Concat(es[0].chunks)| + (if es[0].body.Some? then |es[0].body.value| else 0) + Bytes(es[1..])
  }

  lemma {:induction false} BytesTotal(es: seq<HTTPCacheEntry>)
    requires forall e :: e in es ==> e.active && e.Charged()
    ensures Bytes(es) == Total(es)
  {
    if es != [] {
      assert es[0] in es;
      BytesTotal(es[1..]);
    }
  }

  /** The store never holds more bytes or entries than its budgets, and holds nothing outside its set. */
  lemma Retained(store: HTTPCacheStore)
    requires store.Valid()
    ensures Bytes(store.entries) == store.size <= store.maxBytes && |store.entries| <= store.maxEntries
    ensures forall e :: e in store.begun && e !in store.entries ==> e.chunks == []
    ensures forall e :: e in store.begun ==>
      (e.active <==> e.url in e.cache.index && e in e.cache.index[e.url])
  {
    BytesTotal(store.entries);
  }
}
