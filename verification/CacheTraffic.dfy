/**
 Everything that happens to one shared HTTP cache, in any order: partitions are opened, exchanges start and are sent,
 their headers, bytes and ends arrive early or late, requests select, and partitions are invalidated and cleared
 (src/fetch/cache-http.ts; src/fetch/fetch.ts `httpNetworkFetch`, `fetchWithCache`).
 */
module CacheTraffic {
  import opened Prelude
  import opened HeaderList
  import opened StoredHeaders
  import opened HttpCache

  /** One thing that happens; a partition or exchange is named by its place in the order of creation. */
  datatype Step =
    | Open(key: Option<string>)
    | StartExchange(partition: nat)
    | Send(exchange: nat)
    | Headers(exchange: nat, request: Request, response: Response, requestTime: real, responseTime: real)
    | Chunk(exchange: nat, bytes: seq<nat>)
    | End(exchange: nat)
    | Failure(exchange: nat)
    | Answer(exchange: nat, request: Request, response: Response, selected: bool, requestTime: real, responseTime: real)
    | Selection(partition: nat, request: Request)
    | Invalidation(partition: nat, url: string)
    | Clearing(partition: nat)
    | ClearingAll

  /** How far the transport is with an exchange: headers come once, then bytes, then the end or a failure. */
  datatype Phase =
    | Idle
    | Waiting
    | Receiving(request: Request, bytes: seq<nat>)
    | Ended(request: Request, bytes: seq<nat>)
    | Failed
  {
    /** What a step makes of exchange `i`; one that does not come in this phase is not delivered. */
    function After(step: Step, i: nat): Phase
    {
      match step
      case Send(j) => if j == i && Idle? then Waiting else this
      case Headers(j, request, _, _, _) => if j == i && Waiting? then Receiving(request, []) else this
      case Chunk(j, more) => if j == i && Receiving? then More(more) else this
      case End(j) => if j == i && Receiving? then Whole() else this
      case Failure(j) => if j == i && (Waiting? || Receiving?) then Failed else this
      case _ => this
    }

    function More(more: seq<nat>): Phase
      requires Receiving?
    {
      Receiving(request, bytes + more)
    }

    /** The exchange has begun its entry, if it was to have one. */
    predicate Begun() { !Idle? && !Waiting? }

    /** What an entry of the exchange is while it lasts. */
    function Entry(): TC.Entry
    {
      match this
      case Receiving(_, bytes) => TC.Writing(bytes)
      case Ended(_, bytes) => TC.Published(bytes)
      case _ => TC.Lost
    }

    function Whole(): Phase
      requires Receiving?
    {
      Ended(request, bytes)
    }
  }

  /** The phase of exchange `i`, which the first `birth` steps of the history have started. */
  function PhaseOf(history: seq<Step>, i: nat, birth: nat): Phase
    decreases |history|
  {
    if |history| <= birth then Idle
    else PhaseOf(history[..|history| - 1], i, birth).After(history[|history| - 1], i)
  }

  function Moved(phases: seq<Phase>, step: Step): (r: seq<Phase>)
    ensures |r| == |phases| && forall i :: 0 <= i < |r| ==> r[i] == phases[i].After(step, i)
  {
    seq(|phases|, i requires 0 <= i < |phases| => phases[i].After(step, i))
  }

  /** An entry as the exchange that began it sees it. */
  ghost function Seen(e: HTTPCacheEntry): TC.Entry
    reads e`active, e`body, e`chunks
  {
    if !e.active then TC.Lost
    else if e.body.Some? then TC.Published(e.body.value)
    else TC.Writing(Concat(e.chunks))
  }

  /** What an entry holds of the exchange that writes it. */
  ghost predicate Tells(e: HTTPCacheEntry, x: CachedExchange, phase: Phase)
    reads e`body, e`active, e`chunks, x`entry, x`sent
  {
    e.cache == x.cache && x.sent == Some(e.captured) &&
    match phase
    case Idle => false
    case Waiting => false
    case Receiving(request, bytes) =>
      e.BegunFor(request) && e.body == None && (e.active ==> x.entry == Some(e) && Concat(e.chunks) == bytes)
    case Ended(request, bytes) =>
      e.BegunFor(request) && (e.body == Some(bytes) || (e.body == None && !e.active))
    case Failed => e.body == None && !e.active
  }

  /** What a step does of itself to an entry of exchange `i`: append the chunk, publish it, or drop it. */
  function Effect(entry: TC.Entry, step: Step, i: nat): TC.Entry
  {
    match step
    case Chunk(j, bytes) => if j == i && entry.Writing? then TC.Writing(entry.bytes + bytes) else entry
    case End(j) => if j == i && entry.Writing? then TC.Published(entry.bytes) else entry
    case Failure(j) => if j == i && entry.Writing? then TC.Lost else entry
    case _ => entry
  }

  predicate Moves(before: TC.Entry, after: TC.Entry, step: Step, i: nat)
  {
    after == Effect(before, step, i) || after == TC.Lost
  }

  ghost predicate SeenIn(e: HTTPCacheEntry, phase: Phase)
    reads e`active, e`body, e`chunks
  {
    phase.Begun() && Seen(e) == if e.active then phase.Entry() else TC.Lost
  }

  lemma PhaseStarts(phase: Phase, step: Step)
    requires phase.Waiting? && step.Headers?
    ensures phase.After(step, step.exchange).Entry() == TC.Writing([])
  {
  }

  lemma PhaseMoves(phase: Phase, step: Step, i: nat)
    requires phase.Begun()
    ensures phase.After(step, i).Entry() == Effect(phase.Entry(), step, i)
  {
  }

  class Traffic {
    const store: HTTPCacheStore
    var exchanges: seq<CachedExchange>
    var phases: seq<Phase>
    /** What was there at first, all that has happened since, and where in it each exchange was started. */
    ghost const known: set<HTTPCacheEntry>
    ghost var history: seq<Step>
    ghost var births: seq<nat>
    /** The exchange that began an entry. */
    ghost var writer: map<HTTPCacheEntry, nat>

    /** Every exchange belongs to a partition of the store, and captured generations that have been. */
    ghost predicate Captured()
      reads this`exchanges, exchanges`sent, store`partitions, store.partitions`log
    {
      forall x :: x in exchanges ==>
        x.cache in store.partitions && x.cache.owner == store && x.generation <= |x.cache.log| &&
        (x.sent.Some? ==> x.sent.value <= |x.cache.log|)
    }

    ghost predicate Paired()
      reads this`exchanges, this`phases, this`births
    {
      |phases| == |exchanges| == |births| && forall i, j :: 0 <= i < j < |exchanges| ==> exchanges[i] != exchanges[j]
    }

    /** The entry an exchange holds is its own to write. */
    ghost predicate Holding()
      reads this`exchanges, this`phases, this`births, this`writer, exchanges`entry
    {
      Paired() && forall i :: 0 <= i < |exchanges| ==>
        if exchanges[i].entry.Some? then
          exchanges[i].entry.value in writer && writer[exchanges[i].entry.value] == i &&
          (phases[i].Receiving? || phases[i].Failed?)
        else true
    }

    /** Every entry begun here holds what its exchange was given. */
    ghost predicate Teed()
      reads this`exchanges, this`phases, this`births, this`writer, exchanges, store`begun, store.begun
    {
      Paired() && (forall e :: e in store.begun ==> e in known || e in writer) &&
      forall e :: e in writer ==>
        e in store.begun && writer[e] < |exchanges| && Tells(e, exchanges[writer[e]], phases[writer[e]])
    }

    ghost predicate Wired()
      reads this`exchanges, this`phases, this`births, this`writer, store`partitions, store.partitions`log, exchanges
      reads store`begun, store.begun
    {
      Paired() && Captured() && Holding() && Teed()
    }

    /** The phases are those of the history. */
    ghost predicate Traced()
      reads this`phases, this`history, this`births
    {
      |phases| == |births| && (forall i :: 0 <= i < |births| ==> TracedAt(i)) &&
      forall i, j :: 0 <= i < j < |births| ==> births[i] < births[j]
    }

    ghost predicate TracedAt(i: nat)
      requires i < |births| == |phases|
      reads this`phases, this`history, this`births
    {
      0 < births[i] <= |history| && history[births[i] - 1].StartExchange? &&
      phases[i] == PhaseOf(history, i, births[i])
    }

    ghost predicate Valid()
      reads this, store, store.partitions, store.begun, exchanges
    {
      store.Valid() && Wired() && Traced()
    }

    constructor (store: HTTPCacheStore)
      requires store.Valid()
      ensures Valid() && this.store == store && exchanges == [] && history == [] && known == store.begun
    {
      this.store, exchanges, phases, known := store, [], [], store.begun;
      history, births, writer := [], [], map[];
    }

    /** Nothing that is known is forgotten or comes back, and every log goes on from where it was. */
    twostate predicate Grows()
      reads this, store, store.partitions, store.begun
    {
      old(store.partitions) <= store.partitions && old(exchanges) <= exchanges && old(store.begun) <= store.begun &&
      old(births) <= births && old(history) <= history &&
      (forall e :: e in old(writer) ==> e in writer && writer[e] == old(writer)[e]) &&
      (forall e :: e in old(store.begun) && e in store.begun && e.active ==> old(e.active)) &&
      (forall i :: 0 <= i < |store.partitions| ==>
        store.partitions[i] in old(store.partitions) || fresh(store.partitions[i])) &&
      (forall i :: 0 <= i < |exchanges| ==> exchanges[i] in old(exchanges) || fresh(exchanges[i])) &&
      (forall e :: e in store.begun ==> e in old(store.begun) || fresh(e)) &&
      forall p :: p in old(store.partitions) ==> old(p.log) <= p.log
    }

    /** Entries are begun by the headers of their exchange, and by nothing else. */
    twostate predicate Begins(step: Step)
      reads this
    {
      forall e :: e in writer && e !in old(writer) ==>
        step.Headers? && writer[e] == step.exchange < |old(phases)| && old(phases)[step.exchange].Waiting?
    }

    /** One step; one that names nothing there is, or comes in the wrong phase, does nothing. */
    method Do(step: Step)
      requires Valid()
      modifies this, store, store.partitions, store.begun, exchanges
      ensures Valid() && Grows() && Begins(step) && SeenMoves(step) && history == old(history) + [step]
      ensures |phases| >= |old(phases)|
      ensures forall i :: 0 <= i < |old(phases)| ==> phases[i] == old(phases)[i].After(step, i)
    {
      hide HTTPCacheStore.Valid, Wired, AllSeen, SeenMoves;
      WiredSeen();
      Perform(step);
      WiredSeen();
      history := history + [step];
      Retraced(step);
      TellsMove(step);
    }

    /** To each exchange a step leaves its entry alone, has its own effect on it, or gives it up; a new one is empty. */
    twostate predicate SeenMoves(step: Step)
      reads this, store`begun, store.begun
    {
      forall e :: e in writer && e in store.begun ==>
        if e in old(writer) && e in old(store.begun) then Moves(old(Seen(e)), Seen(e), step, writer[e])
        else Seen(e) == TC.Writing([]) || Seen(e) == TC.Lost
    }

    ghost predicate AllSeen()
      reads this`phases, this`writer, store`begun, store.begun
    {
      forall e :: e in writer ==> e in store.begun && writer[e] < |phases| && SeenIn(e, phases[writer[e]])
    }

    lemma WiredSeen()
      requires Wired()
      ensures AllSeen()
    {
      hide Captured, Holding;
      forall e | e in writer ensures SeenIn(e, phases[writer[e]]) {
        assert Tells(e, exchanges[writer[e]], phases[writer[e]]);
      }
    }

    twostate lemma TellsMove(step: Step)
      requires old(AllSeen()) && AllSeen() && Grows() && Begins(step) && |phases| >= |old(phases)|
      requires forall i :: 0 <= i < |old(phases)| ==> phases[i] == old(phases)[i].After(step, i)
      ensures SeenMoves(step)
    {
      hide Effect, Phase.After, Phase.Entry, Seen;
      forall e | e in writer && e in store.begun
        ensures if e in old(writer) && e in old(store.begun) then Moves(old(Seen(e)), Seen(e), step, writer[e])
          else Seen(e) == TC.Writing([]) || Seen(e) == TC.Lost
      {
        if e in old(writer) {
          PhaseMoves(old(phases)[writer[e]], step, writer[e]);
        } else {
          PhaseStarts(old(phases)[writer[e]], step);
        }
      }
    }

    /** The phases after one more step are those of the longer history. */
    twostate lemma Retraced(step: Step)
      requires old(Traced()) && history == old(history) + [step]
      requires (phases == Moved(old(phases), step) && births == old(births)) ||
        (phases == old(phases) + [Idle] && births == old(births) + [|history|] && step.StartExchange?)
      ensures Traced()
    {
      assert history[..|history| - 1] == old(history);
      forall i | 0 <= i < |old(births)| ensures old(births)[i] < |history| { assert old(TracedAt(i)); }
      forall i | 0 <= i < |births| ensures TracedAt(i) {
        if i < |old(births)| {
          assert old(TracedAt(i));
          assert births[i] == old(births)[i] && history[births[i] - 1] == old(history)[births[i] - 1];
          assert PhaseOf(history, i, births[i]) == PhaseOf(old(history), i, births[i]).After(step, i);
        }
      }
    }

    method Perform(step: Step)
      requires store.Valid() && Wired()
      modifies this`exchanges, this`phases, this`births, this`writer, store, store.partitions, store.begun, exchanges
      ensures store.Valid() && Wired() && Grows() && Begins(step)
      ensures (phases == Moved(old(phases), step) && births == old(births)) ||
        (phases == old(phases) + [Idle] && births == old(births) + [|history| + 1] && step.StartExchange?)
    {
      hide HTTPCacheStore.Valid, Wired;
      WiredPaired();
      match step {
        case Open(key) => OpenPartition(key);
        case StartExchange(i) => if i < |store.partitions| { Start(store.partitions[i]); }
        case Selection(i, request) =>
          if i < |store.partitions| { var _ := SelectFrom(store.partitions[i], request); }
        case Invalidation(i, url) => if i < |store.partitions| { InvalidateIn(store.partitions[i], url); }
        case Clearing(i) => if i < |store.partitions| { ClearOne(store.partitions[i]); }
        case ClearingAll => ClearAll();
        case _ => Pass(step);
      }
      assert !step.StartExchange? ==> phases == Moved(old(phases), step);
      assert |phases| == |old(phases)| ==> Moved(old(phases), step) == phases;
    }

    /** What the transport, or the fetch that awaits it, does for one exchange. */
    method Pass(step: Step)
      requires store.Valid() && Wired()
      modifies this`phases, this`writer, store, store.partitions, store.begun, exchanges
      ensures store.Valid() && Wired() && Grows() && Begins(step) && phases == Moved(old(phases), step)
    {
      hide HTTPCacheStore.Valid, Wired;
      WiredPaired();
      match step {
        case Send(i) => if i < |exchanges| && phases[i].Idle? { PassRequest(i, exchanges[i]); }
        case Headers(i, request, response, requestTime, responseTime) =>
          if i < |exchanges| && phases[i].Waiting? {
            PassHeaders(i, exchanges[i], request, response, requestTime, responseTime);
          }
        case Chunk(i, bytes) => if i < |exchanges| && phases[i].Receiving? { PassChunk(i, exchanges[i], bytes); }
        case End(i) => if i < |exchanges| && phases[i].Receiving? { PassEnd(i, exchanges[i]); }
        case Failure(i) =>
          if i < |exchanges| && (phases[i].Waiting? || phases[i].Receiving?) { PassFailure(i, exchanges[i]); }
        case Answer(i, request, response, selected, requestTime, responseTime) =>
          if i < |exchanges| { PassAnswer(i, exchanges[i], request, response, selected, requestTime, responseTime); }
        case _ =>
      }
      assert phases == Moved(old(phases), step);
    }

    lemma WiredPaired()
      requires Wired()
      ensures |phases| == |exchanges| == |births| && forall e :: e in writer ==> e in store.begun
    {
    }

    // The steps

    method OpenPartition(key: Option<string>)
      requires store.Valid() && Wired()
      modifies store`partitions
      ensures store.Valid() && Wired() && Grows()
    {
      hide HTTPCacheStore.Valid, Holding, Teed;
      var _ := store.Determine(key);
    }

    method Start(p: HTTPCachePartition)
      requires store.Valid() && Wired() && p in store.partitions
      modifies this`exchanges, this`phases, this`births
      ensures store.Valid() && Wired() && Grows()
      ensures phases == old(phases) + [Idle] && births == old(births) + [|history| + 1]
    {
      hide HTTPCacheStore.Valid, Wired;
      PartitionFacts(p);
      var x := new CachedExchange(p);
      exchanges, phases, births := exchanges + [x], phases + [Idle], births + [|history| + 1];
      OneMore();
    }

    /** A new exchange that has not been sent yet. */
    twostate lemma OneMore()
      requires old(Wired()) && |exchanges| == |old(exchanges)| + 1 && exchanges[..|old(exchanges)|] == old(exchanges)
      requires phases == old(phases) + [Idle] && |births| == |old(births)| + 1 && writer == old(writer)
      requires var x := exchanges[|old(exchanges)|];
        x !in old(exchanges) && x.entry == None && x.sent == None &&
        x.cache in store.partitions && x.cache.owner == store && x.generation <= |x.cache.log|
      requires forall x :: x in old(exchanges) ==> x.entry == old(x.entry) && x.sent == old(x.sent)
      requires store.partitions == old(store.partitions) && store.begun == old(store.begun)
      requires forall p :: p in store.partitions ==> p.log == old(p.log)
      requires forall e :: e in store.begun ==>
        e.body == old(e.body) && e.active == old(e.active) && e.chunks == old(e.chunks)
      ensures Wired()
    {
      var n := |old(exchanges)|;
      assert forall i :: 0 <= i < n ==> exchanges[i] == exchanges[..n][i] == old(exchanges)[i];
      forall e | e in writer
        ensures e in store.begun && writer[e] < |exchanges| && Tells(e, exchanges[writer[e]], phases[writer[e]])
      {
        assert old(Tells(e, exchanges[writer[e]], phases[writer[e]]));
      }
    }

    lemma PartitionFacts(p: HTTPCachePartition)
      requires store.Valid() && p in store.partitions
      ensures p.owner == store && p.generation == |p.log|
    {
    }

    /** What is known of one exchange. */
    lemma Facts(i: nat)
      requires Wired() && (i < |exchanges| || i < |phases|)
      ensures i < |phases| == |exchanges| == |births|
      ensures exchanges[i].cache in store.partitions && exchanges[i].cache.owner == store
      ensures exchanges[i].sent.Some? ==> exchanges[i].sent.value <= |exchanges[i].cache.log|
      ensures forall j :: 0 <= j < |exchanges| && j != i ==> exchanges[j] != exchanges[i]
      ensures exchanges[i].entry.Some? ==>
        exchanges[i].entry.value in writer && writer[exchanges[i].entry.value] == i &&
        (phases[i].Receiving? || phases[i].Failed?)
      ensures forall e :: e in writer ==> e in store.begun
      ensures forall e :: e in writer && writer[e] == i ==> Tells(e, exchanges[i], phases[i])
    {
    }

    /** The other exchanges are as they were. */
    twostate predicate Aside(i: nat)
      reads this, exchanges
    {
      exchanges == old(exchanges) && births == old(births) && history == old(history) &&
      |phases| == |old(phases)| == |exchanges| &&
      forall j :: 0 <= j < |exchanges| && j != i ==>
        phases[j] == old(phases)[j] && exchanges[j].entry == old(exchanges[j].entry) &&
        exchanges[j].sent == old(exchanges[j].sent)
    }

    /** So is what they write; new entries are exchange `i`'s. */
    twostate predicate OthersKept(i: nat)
      reads this, store, store.partitions, store.begun
    {
      store.partitions == old(store.partitions) && old(store.begun) <= store.begun &&
      fresh(store.begun - old(store.begun)) &&
      (forall p :: p in store.partitions ==> old(p.log) <= p.log) &&
      (forall e :: e in old(writer) ==> e in writer && writer[e] == old(writer)[e]) &&
      (forall e :: e in writer && e !in old(writer) ==> writer[e] == i < |exchanges| && e in store.begun) &&
      (forall e :: e in store.begun && e !in old(store.begun) ==> e in writer) &&
      (forall e :: e in old(store.begun) && e in store.begun && e.active ==> old(e.active)) &&
      forall e :: e in old(writer) && e in old(store.begun) && old(writer)[e] != i ==>
        e.body == old(e.body) && (e.active ==> old(e.active) && e.chunks == old(e.chunks))
    }

    /** The exchange agrees with a phase and with what it writes. */
    ghost predicate Agrees(i: nat, phase: Phase)
      requires i < |exchanges|
      reads this, exchanges, store`begun, store.begun, exchanges[i].cache`log
    {
      var x := exchanges[i];
      (x.sent.Some? ==> x.sent.value <= |x.cache.log|) &&
      (x.entry.Some? ==>
        x.entry.value in writer && writer[x.entry.value] == i && (phase.Receiving? || phase.Failed?)) &&
      forall e :: e in writer && writer[e] == i && e in store.begun ==> Tells(e, x, phase)
    }

    /** So it is enough to look at one exchange. */
    twostate lemma StillWired(i: nat)
      requires old(Wired()) && Aside(i) && OthersKept(i) && (i < |exchanges| ==> Agrees(i, phases[i]))
      ensures Wired() && Grows()
    {
      hide Holding, Teed, Grows, Tells;
      StillHolding(i);
      StillTeed(i);
      StillGrowing(i);
    }

    twostate lemma StillGrowing(i: nat)
      requires Aside(i) && OthersKept(i)
      ensures Grows()
    {
    }

    twostate lemma StillTeed(i: nat)
      requires old(Teed()) && Aside(i) && OthersKept(i) && (i < |exchanges| ==> Agrees(i, phases[i]))
      ensures Teed()
    {
      forall e | e in writer
        ensures e in store.begun && writer[e] < |exchanges| && Tells(e, exchanges[writer[e]], phases[writer[e]])
      {
        if e in old(writer) && writer[e] != i {
          assert old(Tells(e, exchanges[writer[e]], phases[writer[e]]));
        }
      }
    }

    twostate lemma StillHolding(i: nat)
      requires old(Holding()) && Aside(i) && OthersKept(i) && (i < |exchanges| ==> Agrees(i, phases[i]))
      ensures Holding()
    {
    }

    method PassRequest(i: nat, x: CachedExchange)
      requires store.Valid() && Wired() && i < |exchanges| && x == exchanges[i] && phases[i].Idle?
      modifies this`phases, x`sent
      ensures store.Valid() && Wired() && Grows() && phases == old(phases)[i := Waiting]
    {
      hide HTTPCacheStore.Valid, Wired, Grows, Concat;
      Facts(i);
      PartitionFacts(x.cache);
      x.Send();
      phases := phases[i := Waiting];
      StillWired(i);
    }

    method PassHeaders(
      i: nat, x: CachedExchange, request: Request, response: Response, requestTime: real, responseTime: real)
      requires store.Valid() && Wired() && i < |exchanges| && x == exchanges[i] && phases[i].Waiting?
      modifies this`phases, this`writer, x`entry, store`entries, store`size, store`begun, store`used
      modifies store`clock, store.begun`active, store.begun`chunks, store.partitions`index
      ensures store.Valid() && Wired() && Grows() && phases == old(phases)[i := Receiving(request, [])]
      ensures forall e :: e in writer && e !in old(writer) ==> writer[e] == i
    {
      hide HTTPCacheStore.Valid, Wired, Grows, Tells;
      Facts(i);
      BeginAt(i, x, request, response, requestTime, responseTime);
      phases := phases[i := Receiving(request, [])];
      StillWired(i);
    }

    method BeginAt(
      i: nat, x: CachedExchange, request: Request, response: Response, requestTime: real, responseTime: real)
      requires store.Valid() && Wired() && i < |exchanges| && x == exchanges[i] && phases[i].Waiting?
      modifies this`writer, x`entry, store`entries, store`size, store`begun, store`used
      modifies store`clock, store.begun`active, store.begun`chunks, store.partitions`index
      ensures store.Valid() && OthersKept(i) && Agrees(i, Receiving(request, []))
    {
      hide HTTPCacheStore.Valid, HTTPCacheStore.Undisturbed, OthersKept, Wired, Tells;
      Facts(i);
      NothingWritten(i);
      BeginEntry(x, request, response, requestTime, responseTime);
      writer := writer + map e | e in store.begun - old(store.begun) :: i;
      NewAreOwn(i);
    }

    twostate lemma NewAreOwn(i: nat)
      requires i < |exchanges| && store.partitions == old(store.partitions) && store.Undisturbed({})
      requires old(store.begun) <= store.begun && fresh(store.begun - old(store.begun))
      requires forall p :: p in store.partitions ==> p.log == old(p.log)
      requires forall e :: e in old(writer) ==> e in old(store.begun)
      requires writer == old(writer) + map e | e in store.begun - old(store.begun) :: i
      ensures OthersKept(i)
    {
    }

    method BeginEntry(x: CachedExchange, request: Request, response: Response, requestTime: real, responseTime: real)
      requires store.Valid() && x.cache in store.partitions && x.cache.owner == store && x.entry == None
      modifies x`entry, store`entries, store`size, store`begun, store`used
      modifies store`clock, store.begun`active, store.begun`chunks, store.partitions`index
      ensures store.Valid() && old(store.begun) <= store.begun && fresh(store.begun - old(store.begun))
      ensures store.Undisturbed({})
      ensures forall e :: e in store.begun - old(store.begun) ==> Tells(e, x, Receiving(request, []))
      ensures x.entry.Some? ==> x.entry.value in store.begun - old(store.begun)
    {
      hide HTTPCacheStore.Valid, HTTPCacheStore.Undisturbed, Tells, Storable;
      hide HTTPCacheEntry.Written, HTTPCacheEntry.Records;
      x.ReceiveHeaders(request, response, requestTime, responseTime);
      forall e | e in store.begun - old(store.begun) ensures Tells(e, x, Receiving(request, [])) {
        StartsEmpty(e, x, request);
      }
    }

    lemma NothingWritten(i: nat)
      requires Wired() && i < |phases| && phases[i].Waiting?
      ensures forall e :: e in writer ==> writer[e] != i
    {
    }

    lemma StartsEmpty(e: HTTPCacheEntry, x: CachedExchange, request: Request)
      requires e.BegunFor(request) && e.cache == x.cache && x.sent == Some(e.captured)
      requires e.body == None && e.chunks == []
      requires e.active ==> x.entry == Some(e)
      ensures Tells(e, x, Receiving(request, []))
    {
    }

    method PassChunk(i: nat, x: CachedExchange, bytes: seq<nat>)
      requires store.Valid() && Wired() && i < |exchanges| && x == exchanges[i]
      requires i < |phases| && phases[i].Receiving?
      modifies this`phases, store`entries, store`size, store.begun`active, store.begun`chunks, store.begun`size
      modifies store.partitions`index
      ensures store.Valid() && Wired() && Grows()
      ensures phases == old(phases)[i := old(phases)[i].More(bytes)]
    {
      hide HTTPCacheStore.Valid, Wired, Grows, Tells;
      Facts(i);
      AppendAt(i, x, bytes);
      phases := phases[i := phases[i].More(bytes)];
      StillWired(i);
    }

    method AppendAt(i: nat, x: CachedExchange, bytes: seq<nat>)
      requires store.Valid() && Wired() && i < |exchanges| && x == exchanges[i]
      requires i < |phases| && phases[i].Receiving?
      modifies store`entries, store`size, store.begun`active, store.begun`chunks, store.begun`size
      modifies store.partitions`index
      ensures store.Valid() && OthersKept(i) && Agrees(i, phases[i].More(bytes))
    {
      hide HTTPCacheStore.Valid, Wired, Concat;
      Facts(i);
      x.ReceiveBytes(bytes);
    }

    method PassEnd(i: nat, x: CachedExchange)
      requires store.Valid() && Wired() && i < |exchanges| && x == exchanges[i]
      requires i < |phases| && phases[i].Receiving?
      modifies this`phases, x`entry, store`entries, store`size, store.begun`active
      modifies store.begun`chunks, store.begun`body, store.partitions`index
      ensures store.Valid() && Wired() && Grows()
      ensures phases == old(phases)[i := old(phases)[i].Whole()]
    {
      hide HTTPCacheStore.Valid, Wired, Grows, Tells;
      Facts(i);
      FinishAt(i, x);
      phases := phases[i := phases[i].Whole()];
      StillWired(i);
    }

    method FinishAt(i: nat, x: CachedExchange)
      requires store.Valid() && Wired() && i < |exchanges| && x == exchanges[i]
      requires i < |phases| && phases[i].Receiving?
      modifies x`entry, store`entries, store`size, store.begun`active
      modifies store.begun`chunks, store.begun`body, store.partitions`index
      ensures store.Valid() && OthersKept(i) && Agrees(i, phases[i].Whole())
    {
      hide HTTPCacheStore.Valid, Wired, Concat;
      Facts(i);
      x.EndResponse();
    }

    method PassFailure(i: nat, x: CachedExchange)
      requires store.Valid() && Wired() && i < |exchanges| && x == exchanges[i]
      requires i < |phases| && (phases[i].Waiting? || phases[i].Receiving?)
      modifies this`phases, store`entries, store`size, store.begun`active, store.begun`chunks
      modifies store.partitions`index
      ensures store.Valid() && Wired() && Grows() && phases == old(phases)[i := Failed]
    {
      hide HTTPCacheStore.Valid, Wired, Grows, Tells;
      Facts(i);
      AbortAt(i, x);
      phases := phases[i := Failed];
      StillWired(i);
    }

    method AbortAt(i: nat, x: CachedExchange)
      requires store.Valid() && Wired() && i < |exchanges| && x == exchanges[i]
      requires i < |phases| && (phases[i].Waiting? || phases[i].Receiving?)
      modifies store`entries, store`size, store.begun`active, store.begun`chunks, store.partitions`index
      ensures store.Valid() && OthersKept(i) && Agrees(i, Failed)
    {
      hide HTTPCacheStore.Valid, Wired, Concat;
      Facts(i);
      x.Abort();
    }

    method PassAnswer(
      i: nat, x: CachedExchange, request: Request, response: Response, selected: bool, requestTime: real,
      responseTime: real)
      requires store.Valid() && Wired() && i < |exchanges| && x == exchanges[i]
      modifies store, store.begun, store.partitions
      ensures store.Valid() && Wired() && Grows()
    {
      hide HTTPCacheStore.Valid, Wired, Grows;
      Facts(i);
      ConcludeAt(i, x, request, response, selected, requestTime, responseTime);
      StillWired(|exchanges|);
    }

    method ConcludeAt(
      i: nat, x: CachedExchange, request: Request, response: Response, selected: bool, requestTime: real,
      responseTime: real)
      requires store.Valid() && Wired() && i < |exchanges| && x == exchanges[i]
      modifies store, store.begun, store.partitions
      ensures store.Valid() && OthersKept(|exchanges|)
    {
      hide HTTPCachePartition.AllFreshened, HTTPCachePartition.AllUpdated;
      hide HTTPCacheStore.Valid, Wired, Minus, Held;
      Facts(i);
      var _ := x.Conclude(request, response, selected, requestTime, responseTime);
    }

    method SelectFrom(p: HTTPCachePartition, request: Request) returns (selected: Option<HTTPCacheEntry>)
      requires store.Valid() && Wired() && p in store.partitions
      modifies store
      ensures store.Valid() && Wired() && Grows()
      ensures selected.Some? ==> forall i :: selected.value.captured <= i < |p.log| ==> !p.log[i].Hits(request.url)
      ensures selected.Some? ==> selected.value in store.begun && selected.value in store.entries
      ensures selected.Some? ==> p.Answers(selected.value, request)
      ensures forall e :: e in store.entries && p.Answers(e, request) ==> selected.Some? && p.Before(e, selected.value)
    {
      hide HTTPCacheStore.Valid, Holding, Teed, HTTPCachePartition.Answers, HTTPCachePartition.Before;
      PartitionFacts(p);
      ValidBegun(store);
      selected := p.Select(request);
    }

    method InvalidateIn(p: HTTPCachePartition, url: string)
      requires store.Valid() && Wired() && p in store.partitions
      modifies p`generation, p`log
      modifies store`entries, store`size, store.begun`active, store.begun`chunks, store.partitions`index
      ensures store.Valid() && Wired() && Grows() && p.log == old(p.log) + [Invalidated(url)]
    {
      hide HTTPCacheStore.Valid, Holding, Minus, Held;
      PartitionFacts(p);
      p.Invalidate(url);
    }

    method ClearOne(p: HTTPCachePartition)
      requires store.Valid() && Wired() && p in store.partitions
      modifies p`generation, p`log
      modifies store`entries, store`size, store.begun`active, store.begun`chunks, store.partitions`index
      ensures store.Valid() && Wired() && Grows() && p.log == old(p.log) + [Cleared]
    {
      hide HTTPCacheStore.Valid, Holding, Minus, Owned;
      PartitionFacts(p);
      p.Clear();
    }

    method ClearAll()
      requires store.Valid() && Wired()
      modifies store.partitions`generation, store.partitions`log
      modifies store`entries, store`size, store.begun`active, store.begun`chunks, store.partitions`index
      ensures store.Valid() && Wired() && Grows()
    {
      hide HTTPCacheStore.Valid, Wired, Grows;
      WiredPaired();
      store.ClearAll();
      StillWired(|exchanges|);
    }

    method Run(steps: seq<Step>)
      requires Valid()
      modifies this, store, store.partitions, store.begun, exchanges
      ensures Valid() && Grows() && history == old(history) + steps
    {
      hide HTTPCacheStore.Valid, Wired, Traced;
      for i := 0 to |steps|
        invariant Valid() && Grows() && history == old(history) + steps[..i]
      {
        Do(steps[i]);
      }
    }

    // What every run keeps

    /** The exchange that began the entry, for this request, has ended, and the entry holds all that it was given. */
    ghost predicate Delivered(e: HTTPCacheEntry)
      reads this, exchanges, e`body
    {
      e in writer && writer[e] < |exchanges| && writer[e] < |births| &&
      exchanges[writer[e]].cache == e.cache && exchanges[writer[e]].sent == Some(e.captured) &&
      var phase := PhaseOf(history, writer[e], births[writer[e]]);
      phase.Ended? && e.BegunFor(phase.request) && e.body == Some(phase.bytes)
    }

    /**
     The exchange that began the entry sent a request for the same URL, with the method asked for or GET when HEAD is
     asked for, and with the same value, or none, under every name in the stored Vary field.
     */
    ghost predicate SentAsAsked(e: HTTPCacheEntry, asked: Request)
      reads this`history, this`births, this`writer, e`headers
    {
      e in writer && writer[e] < |births| &&
      var phase, names := PhaseOf(history, writer[e], births[writer[e]]), ParseVary(FieldText(e.headers, "Vary"));
      phase.Ended? && names.Some? && phase.request.url == asked.url &&
      (phase.request.method_ == asked.method_ || (phase.request.method_ == "GET" && asked.method_ == "HEAD")) &&
      forall name :: name in names.value ==> Get(phase.request.headers, name) == Get(asked.headers, name)
    }

    /**
     Whatever happens, to any exchanges of any partitions: a selected response that was not there at first is one that
     its exchange asked for as it is asked for now, and has the body that the exchange was given between its headers
     and its end. A response is selected if the cache holds one that answers the request, and then the foremost one.
     */
    method RunThenSelect(p: HTTPCachePartition, steps: seq<Step>, request: Request)
      returns (selected: Option<HTTPCacheEntry>)
      requires Valid() && p in store.partitions
      modifies this, store, store.partitions, store.begun, exchanges
      ensures Valid() && Grows() && history == old(history) + steps
      ensures selected.Some? ==> selected.value in store.entries && p.Answers(selected.value, request)
      ensures selected.Some? && selected.value !in known ==>
        Delivered(selected.value) && SentAsAsked(selected.value, request)
      ensures forall e :: e in store.entries && p.Answers(e, request) ==> selected.Some? && p.Before(e, selected.value)
    {
      hide HTTPCacheStore.Valid, Wired, Traced, HTTPCachePartition.Answers, HTTPCachePartition.Before;
      Run(steps);
      selected := SelectFrom(p, request);
      if selected.Some? { CompleteIsDelivered(p, selected.value, request); }
    }

    lemma CompleteIsDelivered(p: HTTPCachePartition, e: HTTPCacheEntry, request: Request)
      requires Valid() && e in store.begun && p.Answers(e, request)
      ensures e !in known ==> Delivered(e) && SentAsAsked(e, request)
    {
      hide HTTPCacheStore.Valid, ParseVary, FieldText, Get;
      if e !in known { assert TracedAt(writer[e]); }
    }

    /**
     Whatever happens after an invalidation, and whatever had been under way before it: a response selected for
     that URL belongs to an exchange that was sent after the invalidation.
     */
    method InvalidateThenSelect(p: HTTPCachePartition, steps: seq<Step>, request: Request)
      returns (selected: Option<HTTPCacheEntry>)
      requires Valid() && p in store.partitions
      modifies this, store, store.partitions, store.begun, exchanges
      ensures Valid() && Grows()
      ensures selected.Some? ==> selected.value.captured > |old(p.log)|
    {
      hide HTTPCacheStore.Valid, Wired, Traced;
      InvalidateIn(p, request.url);
      ghost var log := p.log;
      Run(steps);
      assert p.log[|log| - 1] == log[|log| - 1] == Invalidated(request.url);
      selected := SelectFrom(p, request);
    }

    /** The same for a clearing, and any URL. */
    method ClearThenSelect(p: HTTPCachePartition, steps: seq<Step>, request: Request)
      returns (selected: Option<HTTPCacheEntry>)
      requires Valid() && p in store.partitions
      modifies this, store, store.partitions, store.begun, exchanges
      ensures Valid() && Grows()
      ensures selected.Some? ==> selected.value.captured > |old(p.log)|
    {
      hide HTTPCacheStore.Valid, Wired, Traced;
      ClearOne(p);
      ghost var log := p.log;
      Run(steps);
      assert p.log[|log| - 1] == log[|log| - 1] == Cleared;
      selected := SelectFrom(p, request);
    }
  }
}
