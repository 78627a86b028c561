/**
 The shared cache is what a wire exchange takes its cache for: whatever all other exchanges do, what happens to the
 entry of one exchange could happen to it in `ExchangeRun` (src/fetch/fetch.ts `httpNetworkFetch`,
 src/fetch/cache-http.ts).
 */
module SharedTee {
  import opened HttpCache
  import opened CacheTraffic
  import ER = ExchangeRun

  /** An exchange whose content is not coded, as it stands inside dispatch, is in this phase and sees this entry. */
  ghost predicate Stands(x: ER.Exchange, phase: Phase, entry: TC.Entry)
  {
    x.flow.entry == entry && x.dispatching && x.flow.decoder.Absent? && !x.pump.finished &&
    match phase
    case Idle => x == ER.FRESH
    case Waiting => x == ER.FRESH
    case Receiving(_, bytes) =>
      !x.Stopped() && x.registered && !x.responded && !x.pump.failed && x.flow.held && x.decoded == bytes &&
      (entry == TC.Writing(bytes) || entry == TC.Lost)
    case Ended(_, bytes) =>
      x.responded && x.decoded == bytes && (entry == TC.Published(bytes) || entry == TC.Lost)
    case Failed => entry == TC.Lost
  }

  lemma {:induction false} LeadsOn(x: ER.Exchange, a: seq<ER.Step>, y: ER.Exchange, b: seq<ER.Step>, z: ER.Exchange)
    requires ER.Leads(x, a, y) && ER.Leads(y, b, z)
    ensures ER.Leads(x, a + b, z)
    decreases |a|
  {
    if a == [] {
      assert a + b == b;
    } else {
      assert (a + b)[1..] == a[1..] + b;
      LeadsOn(ER.After(x, a[0]), a[1..], y, b, z);
    }
  }

  lemma LeadsOne(x: ER.Exchange, s: ER.Step)
    requires ER.Possible(x, s)
    ensures ER.Leads(x, [s], ER.After(x, s))
  {
    assert [s][1..] == [];
  }

  /** The entry is given up: the cache evicted it. */
  lemma Evicting(x: ER.Exchange, phase: Phase, entry: TC.Entry) returns (steps: seq<ER.Step>, y: ER.Exchange)
    requires Stands(x, phase, entry) && phase.Begun()
    ensures ER.Leads(x, steps, y) && Stands(y, phase, TC.Lost)
  {
    steps, y := [ER.Evicted], ER.After(x, ER.Evicted);
    LeadsOne(x, ER.Evicted);
  }

  /** The headers begin an entry. */
  lemma Begins(step: Step, entry: TC.Entry) returns (steps: seq<ER.Step>, y: ER.Exchange)
    requires step.Headers? && (entry == TC.Writing([]) || entry == TC.Lost)
    ensures ER.Leads(ER.FRESH, steps, y) && Stands(y, Receiving(step.request, []), entry)
  {
    var headers := ER.Headers(false, true);
    var x := ER.After(ER.FRESH, headers);
    LeadsOne(ER.FRESH, headers);
    steps, y := [headers], x;
    if entry == TC.Lost {
      var more;
      more, y := Evicting(x, Receiving(step.request, []), x.flow.entry);
      LeadsOn(ER.FRESH, [headers], x, more, y);
      steps := [headers] + more;
    }
  }

  /** What a step does of itself to the entry, the exchange does. */
  lemma Effects(x: ER.Exchange, phase: Phase, entry: TC.Entry, step: Step, i: nat)
    returns (steps: seq<ER.Step>, y: ER.Exchange)
    requires Stands(x, phase, entry) && phase.Begun()
    ensures ER.Leads(x, steps, y) && Stands(y, phase.After(step, i), Effect(entry, step, i))
  {
    var own := match step
      case Chunk(j, bytes) => if j == i && phase.Receiving? then [ER.WireData(bytes, true, entry.Writing?)] else []
      case End(j) => if j == i && phase.Receiving? then [ER.WireEnd] else []
      case Failure(j) => if j == i && phase.Receiving? then [ER.Step.Failed] else []
      case _ => [];
    steps, y := own, if own == [] then x else ER.After(x, own[0]);
    if own != [] { LeadsOne(x, own[0]); }
  }

  /** So every step of the traffic, seen from an exchange, is some of what can happen to it alone. */
  lemma StepJoins(x: ER.Exchange, phase: Phase, before: TC.Entry, step: Step, i: nat, after: TC.Entry)
    returns (steps: seq<ER.Step>, y: ER.Exchange)
    requires Stands(x, phase, before) && phase.Begun() && Moves(before, after, step, i)
    ensures ER.Leads(x, steps, y) && Stands(y, phase.After(step, i), after)
  {
    steps, y := Effects(x, phase, before, step, i);
    if after != Effect(before, step, i) {
      var z, more := y, [];
      more, y := Evicting(z, phase.After(step, i), z.flow.entry);
      LeadsOn(x, steps, z, more, y);
      steps := steps + more;
    }
  }

  /**
   Whatever happens to the store in a run, to an entry begun before it happens what could happen in a run of its
   exchange: so all that is proved of such runs holds of the shared store, the agreement of entry and body included.
   */
  method RunBeside(t: Traffic, e: HTTPCacheEntry, steps: seq<Step>, ghost x: ER.Exchange)
    returns (ghost own: seq<ER.Step>, ghost y: ER.Exchange)
    requires t.Valid() && e in t.store.begun && e in t.writer && t.writer[e] < |t.phases|
    requires Stands(x, t.phases[t.writer[e]], Seen(e))
    modifies t, t.store, t.store.partitions, t.store.begun, t.exchanges
    ensures t.Valid() && t.Grows() && t.history == old(t.history) + steps && e in t.store.begun
    ensures e in t.writer && t.writer[e] == old(t.writer)[e] < |t.phases|
    ensures ER.Leads(x, own, y) && Stands(y, t.phases[t.writer[e]], Seen(e))
  {
    hide Traffic.Valid, Stands, Seen;
    own, y := [], x;
    for k := 0 to |steps|
      invariant t.Valid() && t.Grows() && t.history == old(t.history) + steps[..k]
      invariant e in t.store.begun && e in t.writer && t.writer[e] == old(t.writer)[e] < |t.phases|
      invariant ER.Leads(x, own, y) && Stands(y, t.phases[t.writer[e]], Seen(e))
    {
      ghost var z, more := y, [];
      more, y := StepBeside(t, e, steps[k], z);
      LeadsOn(x, own, z, more, y);
      own := own + more;
    }
  }

  method StepBeside(t: Traffic, e: HTTPCacheEntry, step: Step, ghost x: ER.Exchange)
    returns (ghost own: seq<ER.Step>, ghost y: ER.Exchange)
    requires t.Valid() && e in t.writer && t.writer[e] < |t.phases|
    requires Stands(x, t.phases[t.writer[e]], Seen(e))
    modifies t, t.store, t.store.partitions, t.store.begun, t.exchanges
    ensures t.Valid() && t.Grows() && t.history == old(t.history) + [step] && e in t.store.begun
    ensures e in t.writer && t.writer[e] == old(t.writer)[e] < |t.phases|
    ensures ER.Leads(x, own, y) && Stands(y, t.phases[t.writer[e]], Seen(e))
  {
    hide Traffic.Valid, Stands, Seen, Moves;
    ghost var i, phase, before := t.writer[e], t.phases[t.writer[e]], Seen(e);
    BegunByNow(t, e);
    t.Do(step);
    BegunByNow(t, e);
    own, y := StepJoins(x, phase, before, step, i, Seen(e));
  }

  /** Some run of an exchange from its start stands like this. */
  ghost predicate Simulated(phase: Phase, entry: TC.Entry)
  {
    exists steps, x :: ER.Leads(ER.FRESH, steps, x) && Stands(x, phase, entry)
  }

  lemma StepSimulated(phase: Phase, before: TC.Entry, step: Step, i: nat, after: TC.Entry)
    requires Simulated(phase, before) && phase.Begun() && Moves(before, after, step, i)
    ensures Simulated(phase.After(step, i), after)
  {
    var own, x :| ER.Leads(ER.FRESH, own, x) && Stands(x, phase, before);
    var more, y := StepJoins(x, phase, before, step, i, after);
    LeadsOn(ER.FRESH, own, x, more, y);
  }

  lemma StartSimulated(phase: Phase, step: Step, entry: TC.Entry)
    requires phase.Waiting? && step.Headers? && (entry == TC.Writing([]) || entry == TC.Lost)
    ensures Simulated(phase.After(step, step.exchange), entry)
  {
    var own, y := Begins(step, entry);
  }

  ghost predicate AllSimulated(t: Traffic)
    reads t, t.store`begun, t.store.begun
  {
    forall e :: e in t.writer && e in t.store.begun && t.writer[e] < |t.phases| ==>
      Simulated(t.phases[t.writer[e]], Seen(e))
  }

  /** In every run of the traffic every entry is as a run of its own exchange would have left it. */
  method RunSimulated(t: Traffic, steps: seq<Step>)
    requires t.Valid() && AllSimulated(t)
    modifies t, t.store, t.store.partitions, t.store.begun, t.exchanges
    ensures t.Valid() && t.Grows() && t.history == old(t.history) + steps && AllSimulated(t)
  {
    hide Traffic.Valid, AllSimulated;
    for k := 0 to |steps|
      invariant t.Valid() && t.Grows() && t.history == old(t.history) + steps[..k] && AllSimulated(t)
    {
      StepAllSimulated(t, steps[k]);
    }
  }

  method StepAllSimulated(t: Traffic, step: Step)
    requires t.Valid() && AllSimulated(t)
    modifies t, t.store, t.store.partitions, t.store.begun, t.exchanges
    ensures t.Valid() && t.Grows() && t.history == old(t.history) + [step] && AllSimulated(t)
  {
    hide Traffic.Valid, Simulated, Seen, Moves;
    forall e | e in t.writer ensures t.writer[e] < |t.phases| && t.phases[t.writer[e]].Begun() { BegunByNow(t, e); }
    t.Do(step);
    forall e | e in t.writer && e in t.store.begun ensures Simulated(t.phases[t.writer[e]], Seen(e)) {
      BegunByNow(t, e);
      var i := t.writer[e];
      if e in old(t.writer) {
        StepSimulated(old(t.phases)[i], old(Seen(e)), step, i, Seen(e));
      } else {
        StartSimulated(old(t.phases)[i], step, Seen(e));
      }
    }
  }

  lemma BegunByNow(t: Traffic, e: HTTPCacheEntry)
    requires t.Valid() && e in t.writer
    ensures e in t.store.begun && t.writer[e] < |t.phases| && t.phases[t.writer[e]].Begun()
  {
    assert Tells(e, t.exchanges[t.writer[e]], t.phases[t.writer[e]]);
  }
}
