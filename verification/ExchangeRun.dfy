/**
 One wire exchange of `httpNetworkFetch` (src/fetch/fetch.ts) as a transition system: the transport,
 the content decoder, the response stream, the cache and the fetch's owner act in any order.
 */
module ExchangeRun {
  import opened BodyPump
  import opened TransportControl

  datatype Exchange = Exchange(
    pump: Pump, flow: Flow,
    canceled: bool, discarded: bool, registered: bool, dispatching: bool,
    decoded: seq<nat>, responded: bool)
  {
    predicate Stopped() { canceled || discarded }

    /** The transport may call back: it was dispatched and did not throw. */
    predicate Wired() { dispatching || flow.control.Live? }

    /** `body.fail`, and what it tells the transport and the cache. */
    function FailBody(): Exchange
    {
      var (p, signal) := pump.Fail();
      this.(pump := p, flow := flow.Apply(signal))
    }

    /** A body that has just finished unregisters the exchange from its controller. */
    function Unregister(): Exchange
    {
      if pump.finished then this.(registered := false) else this
    }

    /** `receiveDecoded`: the cache copies the chunk if it grants the space, then the body gets it. */
    function ReceiveDecoded(bytes: seq<nat>, granted: bool): Exchange
    {
      if Stopped() then this else
        var entry := if !flow.held || !flow.entry.Writing? then flow.entry
                     else if granted then Writing(flow.entry.bytes + bytes) else Lost;
        var (p, signal) := pump.Receive(bytes);
        this.(decoded := decoded + bytes, pump := p, flow := flow.(entry := entry).Apply(signal))
    }

    /** `endResponse`: publish the entry, give it up, and end the body. */
    function EndResponse(): Exchange
    {
      if Stopped() then this else
        var entry := if flow.held && flow.entry.Writing? then Published(flow.entry.bytes) else flow.entry;
        this.(responded := true, flow := flow.(entry := entry, held := false), pump := pump.End())
    }

    function Cancel(): Exchange
    {
      var c := this.(canceled := true);
      if registered then c.(registered := false).FailBody() else c
    }

    /** `synchronizeControl`, when dispatch returns its control. */
    function Connect(): Exchange
    {
      var live := flow.(control := Live(false, false));
      this.(dispatching := false, flow :=
        if Stopped() then live.(control := live.control.Abort())
        else if flow.decoderBlocked || flow.outputPaused then live.(control := live.control.Pause())
        else live)
    }
  }

  const FRESH: Exchange := Exchange(NEW, IDLE, false, false, true, true, [], false)

  /**
   What can happen. `storable` is whether the response got a cache entry, `granted` whether the cache
   kept the entry when space was reserved, `accepted` whether the decoder took more input at once.
   */
  datatype Step =
    | Headers(coded: bool, storable: bool)
    | WireData(bytes: seq<nat>, accepted: bool, granted: bool)
    | Decoded(bytes: seq<nat>, granted: bool)
    | WireEnd
    | DecodedEnd
    | Drain
    | Failed
    | Canceled
    | Discarded
    | PullStep
    | TaskStep(n: nat)
    | Evicted
    | Dispatched
    | DispatchFailed

  /**
   The protocol of the transport, decoder and stream; everything else may happen at any time.
   Dispatch runs in one task, so no delivery task runs inside it.
   */
  predicate Possible(x: Exchange, s: Step)
  {
    match s
    case Headers(_, _) =>
      x.Wired() && x.flow.entry.NoEntry? && x.flow.decoder.Absent? && x.decoded == [] && !x.responded
    case WireData(_, _, _) => x.Wired() && !x.responded
    case Decoded(_, _) => x.Wired() && x.flow.decoder.Live? && !x.responded
    case WireEnd => x.Wired() && !x.responded
    case DecodedEnd => x.Wired() && x.flow.decoder.Live? && !x.responded
    case Drain => x.Wired()
    case Failed => x.Wired()
    case Discarded => !x.pump.finished
    case PullStep => Allowed(x.pump, PullRequest)
    case TaskStep(n) => !x.dispatching && Allowed(x.pump, Task(n))
    case Dispatched => x.dispatching
    case DispatchFailed => x.dispatching
    case _ => true
  }

  function After(x: Exchange, s: Step): Exchange
    requires Possible(x, s)
  {
    match s
    case Headers(coded, storable) =>
      if x.Stopped() then x else
        x.(flow := x.flow.(decoder := if coded then Live(false, false) else Absent,
                           entry := if storable then Writing([]) else NoEntry, held := storable))
    case WireData(bytes, accepted, granted) =>
      if x.Stopped() then x
      else if x.flow.decoder.Absent? then x.ReceiveDecoded(bytes, granted)
      else if accepted then x
      else x.(flow := x.flow.(decoderBlocked := true, control := x.flow.control.Pause()))
    case Decoded(bytes, granted) => x.ReceiveDecoded(bytes, granted)
    case WireEnd => if x.flow.decoder.Live? then x else x.EndResponse()
    case DecodedEnd => x.EndResponse()
    case Drain =>
      x.(flow := x.flow.(decoderBlocked := false,
                         control := if x.flow.outputPaused || x.Stopped() then x.flow.control
                                    else x.flow.control.Resume()))
    case Failed => if x.Stopped() then x else x.Cancel()
    case Canceled => x.Cancel()
    case Discarded => x.(discarded := true).FailBody()
    case PullStep => x.(pump := x.pump.Pull())
    case TaskStep(n) =>
      var (p, signal) := x.pump.Deliver(n);
      x.(pump := p, flow := x.flow.Apply(signal)).Unregister()
    case Evicted =>
      if x.flow.entry.Writing? || x.flow.entry.Published? then x.(flow := x.flow.(entry := Lost)) else x
    case Dispatched => x.Connect()
    case DispatchFailed => x.(registered := false, dispatching := false).FailBody()
  }

  /** The exchange was given up before its response ended. */
  predicate GivenUp(x: Exchange) { (x.Stopped() || x.pump.failed) && !x.responded }

  /** The cache entry and the response stream are fed the same bytes. */
  ghost predicate Tee(x: Exchange)
  {
    && (!x.pump.failed ==> x.pump.received == x.decoded)
    && (x.responded <==> x.pump.ended)
    && (x.flow.held ==> !x.responded && (x.flow.entry.Writing? || x.flow.entry.Lost?))
    && (x.flow.entry.Writing? ==> x.flow.held && !x.pump.failed && x.flow.entry.bytes == x.decoded)
    && (x.flow.entry.Published? ==> x.responded && x.flow.entry.bytes == x.decoded)
  }

  ghost predicate Control(x: Exchange)
  {
    && x.flow.outputPaused == x.pump.paused
    && (x.flow.decoder.Live? ==> x.flow.decoder == Live(x.pump.paused, x.pump.failed))
    && (x.flow.control.Live? ==> !x.dispatching)
    && (x.flow.control.Live? && !x.Stopped() ==>
          x.flow.control.paused == (x.flow.outputPaused || x.flow.decoderBlocked))
    && (x.flow.control.Live? && x.pump.failed ==> x.flow.control.aborted)
    && (x.flow.control.Live? && x.flow.control.aborted ==> x.pump.failed || x.Stopped())
  }

  /** A fetch that was given up fails the body, unless the body had finished by then. */
  ghost predicate Ownership(x: Exchange)
  {
    && (x.registered ==> !x.pump.finished)
    && (x.Stopped() ==> x.pump.failed || x.pump.finished)
    && (!x.dispatching && !x.pump.failed ==> x.flow.control.Live?)
    && (x.dispatching ==> !x.pump.finished && (!x.Stopped() ==> !x.pump.failed))
    && (!x.registered && !x.Stopped() ==> x.pump.failed || x.pump.finished)
    && (x.pump.failed && !x.Stopped() ==> !x.Wired())
  }

  ghost predicate ExchangeInv(x: Exchange)
  {
    Inv(x.pump) && Tee(x) && Control(x) && Ownership(x)
  }

  lemma ReceiveKeepsInv(x: Exchange, bytes: seq<nat>, granted: bool)
    requires ExchangeInv(x) && !x.responded
    ensures ExchangeInv(x.ReceiveDecoded(bytes, granted))
  {
    NextKeepsInv(x.pump, Data(bytes));
    assert x.decoded + [] == x.decoded;
  }

  lemma EndKeepsInv(x: Exchange)
    requires ExchangeInv(x) && !x.responded
    ensures ExchangeInv(x.EndResponse())
  {
    NextKeepsInv(x.pump, EndOfData);
  }

  lemma FailKeepsInv(x: Exchange)
    requires Inv(x.pump) && Tee(x) && Control(x)
    ensures var y := x.FailBody();
      Inv(y.pump) && Tee(y) && Control(y) && (y.pump.failed || y.pump.finished) && y.pump.finished == x.pump.finished
  {
    NextKeepsInv(x.pump, Failure);
  }

  lemma TaskKeepsInv(x: Exchange, n: nat)
    requires ExchangeInv(x) && Possible(x, TaskStep(n))
    ensures ExchangeInv(After(x, TaskStep(n)))
  {
    NextKeepsInv(x.pump, Task(n));
  }

  lemma StepKeepsInv(x: Exchange, s: Step)
    requires ExchangeInv(x) && Possible(x, s)
    ensures ExchangeInv(After(x, s))
  {
    match s
    case WireData(bytes, _, granted) => ReceiveKeepsInv(x, bytes, granted);
    case Decoded(bytes, granted) => ReceiveKeepsInv(x, bytes, granted);
    case WireEnd => EndKeepsInv(x);
    case DecodedEnd => EndKeepsInv(x);
    case Failed => FailKeepsInv(x.(canceled := true, registered := false));
    case Canceled => FailKeepsInv(x.(canceled := true, registered := false));
    case Discarded => FailKeepsInv(x.(discarded := true));
    case DispatchFailed => FailKeepsInv(x.(registered := false, dispatching := false));
    case PullStep => NextKeepsInv(x.pump, PullRequest);
    case TaskStep(n) => TaskKeepsInv(x, n);
    case _ =>
  }

  // ---------------------------------------------------------------------------
  // Whole runs
  // ---------------------------------------------------------------------------

  /** `steps` leads from `x` to `y`. */
  ghost predicate Leads(x: Exchange, steps: seq<Step>, y: Exchange)
    decreases |steps|
  {
    if steps == [] then y == x else
      Possible(x, steps[0]) && Leads(After(x, steps[0]), steps[1..], y)
  }

  lemma {:induction false} LeadsKeepsInv(x: Exchange, steps: seq<Step>, y: Exchange)
    requires ExchangeInv(x) && Leads(x, steps, y)
    ensures ExchangeInv(y)
    decreases |steps|
  {
    if steps != [] {
      StepKeepsInv(x, steps[0]);
      LeadsKeepsInv(After(x, steps[0]), steps[1..], y);
    }
  }

  /**
   A published entry holds everything decoded; the stream is given a prefix of it, and all of it
   by the time it closes.
   */
  lemma TeeAgreement(steps: seq<Step>, x: Exchange)
    requires Leads(FRESH, steps, x)
    ensures x.flow.entry.Published? ==> x.flow.entry.bytes == x.decoded
    ensures !x.pump.failed ==> x.pump.delivered <= x.decoded
    ensures x.pump.stream == Closed ==> x.pump.delivered == x.decoded
    ensures x.pump.stream == Closed && x.flow.entry.Published? ==> x.flow.entry.bytes == x.pump.delivered
  {
    LeadsKeepsInv(FRESH, steps, x);
    if x.pump.stream == Closed { assert x.pump.delivered + [] == x.pump.delivered; }
  }

  /** An exchange cancelled, discarded or failed before its response ended never publishes. */
  lemma {:induction false} GivenUpPublishesNothing(x: Exchange, steps: seq<Step>, y: Exchange)
    requires ExchangeInv(x) && GivenUp(x) && Leads(x, steps, y)
    ensures GivenUp(y) && !y.flow.entry.Published?
    decreases |steps|
  {
    if steps != [] {
      StepKeepsInv(x, steps[0]);
      assert GivenUp(After(x, steps[0]));
      GivenUpPublishesNothing(After(x, steps[0]), steps[1..], y);
    }
  }

  /** An entry refused space, evicted or removed even once is never published afterwards. */
  lemma {:induction false} LostIsFinal(x: Exchange, steps: seq<Step>, y: Exchange)
    requires x.flow.entry.Lost? && Leads(x, steps, y)
    ensures y.flow.entry.Lost?
    decreases |steps|
  {
    if steps != [] {
      LostStep(x, steps[0]);
      LostIsFinal(After(x, steps[0]), steps[1..], y);
    }
  }

  lemma LostStep(x: Exchange, s: Step)
    requires x.flow.entry.Lost? && Possible(x, s)
    ensures After(x, s).flow.entry.Lost?
  {
    match s
    case TaskStep(n) => var signal := x.pump.Deliver(n).1; assert x.flow.Apply(signal).entry.Lost?;
    case _ =>
  }

  /** Once published, an entry is out of this exchange's hands: only the cache can remove it. */
  lemma {:induction false} PublicationStays(x: Exchange, steps: seq<Step>, y: Exchange)
    requires ExchangeInv(x) && x.flow.entry.Published? && Leads(x, steps, y)
    requires forall s :: s in steps ==> !s.Evicted?
    ensures y.flow.entry == x.flow.entry
    decreases |steps|
  {
    if steps != [] {
      StepKeepsInv(x, steps[0]);
      assert steps[0] in steps;
      PublicationStays(After(x, steps[0]), steps[1..], y);
    }
  }

  /**
   From the moment dispatch returns, the transport of a live exchange is paused exactly when the
   body buffer or the decoder is blocking, whatever happened before there was a control.
   */
  lemma PausedExactlyWhenBlocked(steps: seq<Step>, x: Exchange)
    requires Leads(FRESH, steps, x) && !x.dispatching && !x.Stopped() && !x.pump.failed
    ensures x.flow.control == Live(x.pump.paused || x.flow.decoderBlocked, false)
  {
    LeadsKeepsInv(FRESH, steps, x);
  }

  /** The decoder, once there is one, is paused exactly while the body is, and aborted exactly when the body fails. */
  lemma DecoderFollows(steps: seq<Step>, x: Exchange)
    requires Leads(FRESH, steps, x)
    ensures x.flow.decoder.Live? ==> x.flow.decoder == Live(x.pump.paused, x.pump.failed)
  {
    LeadsKeepsInv(FRESH, steps, x);
  }

  /** A failed body's transport is told to stop as soon as it can be. */
  lemma FailureAborts(steps: seq<Step>, x: Exchange)
    requires Leads(FRESH, steps, x) && x.pump.failed
    ensures x.flow.control.Live? ==> x.flow.control.aborted
    ensures !x.flow.entry.Writing?
  {
    LeadsKeepsInv(FRESH, steps, x);
  }

  /** The decoder has refused input and not drained since. */
  function Refused(x: Exchange, steps: seq<Step>, was: bool): bool
    decreases |steps|
  {
    if steps == [] || !Possible(x, steps[0]) then was
    else Refused(After(x, steps[0]), steps[1..], Refuses(x, steps[0], was))
  }

  function Refuses(x: Exchange, s: Step, was: bool): bool
  {
    match s
    case WireData(_, accepted, _) => was || (!accepted && x.flow.decoder != Absent && !x.canceled && !x.discarded)
    case Drain => false
    case _ => was
  }

  lemma BlocksRefusing(x: Exchange, s: Step)
    requires Possible(x, s)
    ensures After(x, s).flow.decoderBlocked == Refuses(x, s, x.flow.decoderBlocked)
  {
    hide Pump.Receive, Pump.End, Pump.Fail, Pump.Pull, Pump.Deliver, Link.Resume, Link.Pause, Link.Abort;
    match s
    case WireData(bytes, _, granted) => ReceiveKeeps(x, bytes, granted);
    case Decoded(bytes, granted) => ReceiveKeeps(x, bytes, granted);
    case _ =>
  }

  lemma ReceiveKeeps(x: Exchange, bytes: seq<nat>, granted: bool)
    ensures x.ReceiveDecoded(bytes, granted).flow.decoderBlocked == x.flow.decoderBlocked
  {
  }

  /** That is exactly when it counts as blocked. */
  lemma {:induction false} BlockedExactly(x: Exchange, steps: seq<Step>, y: Exchange)
    requires Leads(x, steps, y)
    ensures y.flow.decoderBlocked == Refused(x, steps, x.flow.decoderBlocked)
    decreases |steps|
  {
    hide After, Possible, Refuses;
    if steps != [] {
      BlocksRefusing(x, steps[0]);
      BlockedExactly(After(x, steps[0]), steps[1..], y);
    }
  }

  /** Giving up takes effect at once, as do connecting and ending. */
  lemma StepsTakeEffect(x: Exchange, s: Step)
    requires ExchangeInv(x) && Possible(x, s)
    ensures var y := After(x, s);
      (s.Canceled? ==> y.canceled && !y.registered && (x.registered ==> y.pump.failed)) &&
      (s.Failed? ==> y.canceled || y.discarded) &&
      (s.Discarded? ==> y.discarded && y.pump.failed) &&
      (s.Dispatched? ==> !y.dispatching && y.flow.control.Live?) &&
      (s.DispatchFailed? ==> !y.dispatching && !y.registered && y.pump.failed) &&
      (s.DecodedEnd? || (s.WireEnd? && x.flow.decoder.Absent?) ==> y.responded || y.canceled || y.discarded)
  {
  }

  // ---------------------------------------------------------------------------
  // What a run receives, and what it publishes
  // ---------------------------------------------------------------------------

  /** The bytes that a step gives the consumers: decoded ones, or those of a response that needs no decoding. */
  function Taken(x: Exchange, s: Step): seq<nat>
  {
    match s
    case WireData(bytes, _, _) => if x.canceled || x.discarded || x.flow.decoder != Absent then [] else bytes
    case Decoded(bytes, _) => if x.canceled || x.discarded then [] else bytes
    case _ => []
  }

  function Received(x: Exchange, steps: seq<Step>): seq<nat>
    decreases |steps|
  {
    if steps == [] || !Possible(x, steps[0]) then []
    else Taken(x, steps[0]) + Received(After(x, steps[0]), steps[1..])
  }

  lemma DecodesTaken(x: Exchange, s: Step)
    requires Possible(x, s)
    ensures After(x, s).decoded == x.decoded + Taken(x, s)
  {
    assert x.decoded + [] == x.decoded;
  }

  /** What counts as decoded is all that was taken, in order. */
  lemma {:induction false} DecodesReceived(x: Exchange, steps: seq<Step>, y: Exchange)
    requires Leads(x, steps, y)
    ensures y.decoded == x.decoded + Received(x, steps)
    decreases |steps|
  {
    hide After, Possible, Taken;
    if steps == [] {
      assert x.decoded + [] == x.decoded;
    } else {
      var next := After(x, steps[0]);
      DecodesTaken(x, steps[0]);
      DecodesReceived(next, steps[1..], y);
      var first, rest := Taken(x, steps[0]), Received(next, steps[1..]);
      assert x.decoded + first + rest == x.decoded + (first + rest);
    }
  }

  /** The cache neither evicts the entry nor refuses it space. */
  predicate Spared(s: Step)
  {
    match s
    case WireData(_, _, granted) => granted
    case Decoded(_, granted) => granted
    case Evicted => false
    case _ => true
  }

  /** The entry has been lost to the cache only. */
  ghost predicate Entered(x: Exchange)
  {
    !x.Stopped() && !x.pump.failed && !x.flow.entry.NoEntry? ==> x.flow.entry.Published? || x.flow.entry.Writing?
  }

  lemma EnteredStep(x: Exchange, s: Step)
    requires ExchangeInv(x) && Possible(x, s) && Entered(x) && Spared(s)
    ensures Entered(After(x, s))
    ensures !x.flow.entry.NoEntry? || (s.Headers? && s.storable && !x.Stopped()) ==> !After(x, s).flow.entry.NoEntry?
    ensures x.Stopped() ==> After(x, s).Stopped()
    ensures !After(x, s).flow.entry.NoEntry? ==> !x.flow.entry.NoEntry? || (s.Headers? && s.storable)
  {
    StepKeepsInv(x, s);
  }

  /** Spared by the cache, a response that may be stored is published whole when it ends, unless it is given up. */
  lemma {:induction false} PublishesSpared(x: Exchange, steps: seq<Step>, y: Exchange)
    requires ExchangeInv(x) && Entered(x) && Leads(x, steps, y) && forall s :: s in steps ==> Spared(s)
    requires !y.Stopped() && !y.pump.failed
    requires !x.flow.entry.NoEntry? || exists s :: s in steps && s.Headers? && s.storable
    ensures y.flow.entry == if y.responded then Published(y.decoded) else Writing(y.decoded)
    decreases |steps|
  {
    hide After, Possible;
    if steps == [] {
      assert y == x;
    } else {
      assert steps[0] in steps && steps == [steps[0]] + steps[1..];
      StepKeepsInv(x, steps[0]);
      EnteredStep(x, steps[0]);
      if After(x, steps[0]).Stopped() { StoppedStays(After(x, steps[0]), steps[1..], y); }
      PublishesSpared(After(x, steps[0]), steps[1..], y);
    }
  }

  lemma {:induction false} StoppedStays(x: Exchange, steps: seq<Step>, y: Exchange)
    requires x.Stopped() && Leads(x, steps, y)
    ensures y.Stopped()
    decreases |steps|
  {
    if steps != [] { StoppedStays(After(x, steps[0]), steps[1..], y); }
  }

  /** From the start. */
  lemma RunPublishes(steps: seq<Step>, x: Exchange)
    requires Leads(FRESH, steps, x) && !x.Stopped() && !x.pump.failed
    requires (forall s :: s in steps ==> Spared(s)) && exists s :: s in steps && s.Headers? && s.storable
    ensures x.flow.entry == if x.responded then Published(Received(FRESH, steps)) else Writing(Received(FRESH, steps))
  {
    PublishesSpared(FRESH, steps, x);
    DecodesReceived(FRESH, steps, x);
    assert [] + Received(FRESH, steps) == Received(FRESH, steps);
  }
}
