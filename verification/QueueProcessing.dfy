/**
 Suspended queue processing (src/encoding/io-queue.ts `processQueue`, src/encoding/encodings.ts
 `decodeQueue`) as a transition system: the producer pushes chunks and the end marker, and the
 runtime runs the reaction of a settled promise, in any order.
 */
module QueueProcessing {
  import opened Prelude
  import opened QueueSpec
  import opened Codec

  type Encoding = string

  /** The byte order marks of section 6.1 of the Encoding Standard. */
  function DetectBOM(bytes: seq<nat>): Option<Encoding>
  {
    if |bytes| >= 3 && bytes[0] == 0xEF && bytes[1] == 0xBB && bytes[2] == 0xBF then Some("UTF-8")
    else if |bytes| >= 2 && bytes[0] == 0xFE && bytes[1] == 0xFF then Some("UTF-16BE")
    else if |bytes| >= 2 && bytes[0] == 0xFF && bytes[1] == 0xFE then Some("UTF-16LE")
    else None
  }

  function BOMLength(bom: Option<Encoding>): nat
  {
    match bom
    case None => 0
    case Some(encoding) => if encoding == "UTF-8" then 3 else 2
  }

  /** The mark that counts: only the decoding operations look for one. */
  function Mark(sniff: bool, bytes: seq<nat>): (bom: Option<Encoding>)
    ensures BOMLength(bom) <= |bytes|
  {
    if sniff then DetectBOM(bytes) else None
  }

  function Select(bom: Option<Encoding>, fallback: Encoding): Encoding
  {
    if bom.Some? then bom.value else fallback
  }

  /** `decode`, or without sniffing `encode`: complete input, a byte order mark overriding the fallback. */
  function Complete<S>(sniff: bool, codecs: Encoding -> Codec<S>, input: seq<nat>, fallback: Encoding): Call<S>
  {
    var bom := Mark(sniff, input);
    Whole(codecs(Select(bom, fallback)), input[BOMLength(bom)..])
  }

  datatype Status<!S> =
    | Sniffing(wait: Option<nat>)
    | Awaiting(codec: Codec<S>, state: S, id: nat)
    | Done(outcome: Outcome)

  datatype Event = Push(chunk: seq<nat>) | End | Turn

  /** A decode or encode under way: what is left to read, what is written, and what it waits for. */
  datatype Process<!S> = Process(
    queue: QueueState, output: seq<nat>, status: Status<S>,
    sniff: bool, fallback: Encoding, codecs: Encoding -> Codec<S>)
  {
    /** Call the codec on whatever is available; a waiting codec awaits one more item. */
    function Drain(codec: Codec<S>, state: S): Process<S>
    {
      var call := Run(codec, state, queue.items, queue.ended);
      var left := queue.(items := []).Restore(call.unread);
      if call.outcome == Suspended then
        this.(queue := left.Wait(1), output := output + call.output, status := Awaiting(codec, call.state, left.nextId))
      else
        this.(queue := left, output := output + call.output, status := Done(call.outcome))
    }

    /** The reaction the runtime may run now. */
    predicate Enabled()
    {
      match status
      case Sniffing(None) => true
      case Sniffing(Some(id)) => id in queue.resolved
      case Awaiting(_, _, id) => id in queue.resolved
      case Done(_) => false
    }

    function React(): Process<S>
      requires Enabled()
    {
      match status
      case Sniffing(_) =>
        var bom := match queue.Peek(3) case None => None case Some(bytes) => DetectBOM(bytes);
        var codec := codecs(Select(bom, fallback));
        this.(queue := queue.Drop(BOMLength(bom))).Drain(codec, codec.start)
      case Awaiting(codec, state, _) => Drain(codec, state)
    }

    function Next(event: Event): Process<S>
    {
      match event
      case Push(chunk) => this.(queue := queue.Push(chunk))
      case End => this.(queue := queue.PushEnd())
      case Turn => if Enabled() then React() else this
    }
  }

  /** `decodeQueue`: wait for a byte order mark. */
  function StartSniffing<S>(input: QueueState, fallback: Encoding, codecs: Encoding -> Codec<S>): Process<S>
  {
    var wait := if input.CanRead(3) then None else Some(input.nextId);
    Process(input.Wait(3), [], Sniffing(wait), true, fallback, codecs)
  }

  /** `processQueue` and the operations built on it alone: call the codec at once. */
  function StartCodec<S>(input: QueueState, fallback: Encoding, codecs: Encoding -> Codec<S>): Process<S>
  {
    Process(input, [], Sniffing(None), false, fallback, codecs).Drain(codecs(fallback), codecs(fallback).start)
  }

  function Start<S>(sniff: bool, input: QueueState, fallback: Encoding, codecs: Encoding -> Codec<S>): Process<S>
  {
    if sniff then StartSniffing(input, fallback, codecs) else StartCodec(input, fallback, codecs)
  }

  function After<S>(p: Process<S>, events: seq<Event>): Process<S>
    decreases |events|
  {
    if events == [] then p else After(p, events[..|events| - 1]).Next(events[|events| - 1])
  }

  /** All items pushed, in order: the joined input. */
  function Joined(input: seq<nat>, events: seq<Event>): seq<nat>
    decreases |events|
  {
    if events == [] then input else
      var before := Joined(input, events[..|events| - 1]);
      var last := events[|events| - 1];
      if last.Push? then before + last.chunk else before
  }

  /** Over: a reaction has been possible since the end; without sniffing the first one is immediate. */
  predicate Over(sniff: bool, ended: bool, events: seq<Event>)
    decreases |events|
  {
    if events == [] then ended && !sniff
    else
      var before, last := events[..|events| - 1], events[|events| - 1];
      Over(sniff, ended, before) || (last.Turn? && EndSeen(ended, before))
  }

  predicate EndSeen(ended: bool, events: seq<Event>) { ended || End in events }

  /** The items pushed before it was over, and those that came too late. */
  function Arrived(sniff: bool, input: QueueState, events: seq<Event>): (seq<nat>, seq<nat>)
    decreases |events|
  {
    if events == [] then (input.items, []) else
      var before, last := events[..|events| - 1], events[|events| - 1];
      var (taken, late) := Arrived(sniff, input, before);
      if !last.Push? then (taken, late)
      else if Over(sniff, input.ended, before) then (taken, late + last.chunk)
      else (taken + last.chunk, late)
  }

  /** A producer that says nothing after the end. */
  ghost predicate Orderly(ended: bool, events: seq<Event>)
  {
    && (ended ==> forall e :: e in events ==> !e.Push?)
    && forall i, j :: 0 <= i < j < |events| && events[i].End? ==> !events[j].Push?
  }

  lemma {:induction false} OverEnded(sniff: bool, ended: bool, events: seq<Event>)
    ensures Over(sniff, ended, events) ==> EndSeen(ended, events)
    decreases |events|
  {
    if events != [] {
      OverEnded(sniff, ended, events[..|events| - 1]);
      assert events == events[..|events| - 1] + [events[|events| - 1]];
    }
  }

  /** From an orderly producer everything arrives in time. */
  lemma {:induction false} NothingLate(sniff: bool, input: QueueState, events: seq<Event>)
    requires Orderly(input.ended, events)
    ensures Arrived(sniff, input, events) == (Joined(input.items, events), [])
    decreases |events|
  {
    if events != [] {
      var n := |events| - 1;
      NothingLate(sniff, input, events[..n]);
      OverEnded(sniff, input.ended, events[..n]);
      if End in events[..n] { var i :| 0 <= i < n && events[..n][i] == End; assert events[i].End?; }
      assert events[n] in events;
    }
  }

  function Chosen<S>(p: Process<S>, received: seq<nat>): Codec<S>
  {
    p.codecs(Select(Mark(p.sniff, received), p.fallback))
  }

  /** What the chosen codec has to process. */
  function Payload(sniff: bool, received: seq<nat>): seq<nat>
  {
    received[BOMLength(Mark(sniff, received))..]
  }

  /** The promise `id` is settled, or still waited on for `count` items. */
  ghost predicate Listening(queue: QueueState, id: nat, count: nat)
  {
    if id in queue.resolved then queue.CanRead(count) else Waiter(id, count) in queue.waiters
  }

  /** More input cannot change the mark any more. */
  predicate Decided(sniff: bool, received: seq<nat>) { sniff ==> |received| >= 3 }

  /** The codec meets an error before the end of `items`. */
  predicate StoppedBy<S>(codec: Codec<S>, items: seq<nat>)
  {
    Feed(codec, codec.start, items).Stopped?
  }

  ghost predicate Inv<S>(p: Process<S>, received: seq<nat>, late: seq<nat>, over: bool)
  {
    && p.queue.Fair() && (over ==> p.queue.ended && p.status.Done?) && (!over ==> late == [])
    && match p.status
       case Sniffing(wait) =>
         && p.sniff && p.output == [] && p.queue.items == received
         && (match wait case None => p.queue.CanRead(3) case Some(id) => Listening(p.queue, id, 3))
       case Awaiting(codec, state, id) =>
         && Decided(p.sniff, received) && codec == Chosen(p, received)
         && Listening(p.queue, id, 1)
         && Remaining(codec, state, p.output, Payload(p.sniff, received), p.queue.items)
       case Done(outcome) =>
         var whole := Complete(p.sniff, p.codecs, received, p.fallback);
         && outcome == whole.outcome && p.output == whole.output && p.queue.items == whole.unread + late
         && outcome != Suspended
         && (!over ==> Decided(p.sniff, received) && StoppedBy(Chosen(p, received), Payload(p.sniff, received)))
  }

  /** The codec has read all of the payload but the items. */
  ghost predicate Remaining<S>(codec: Codec<S>, state: S, output: seq<nat>, payload: seq<nat>, items: seq<nat>)
  {
    |items| <= |payload| && items == payload[|payload| - |items|..] &&
    Feed(codec, codec.start, payload[..|payload| - |items|]) == Drained(state, output)
  }

  // ---------------------------------------------------------------------------
  // Every step keeps the invariant
  // ---------------------------------------------------------------------------

  /** Waking never loses a waiter: it is settled, or still there. */
  lemma WakeListens(queue: QueueState, id: nat, count: nat)
    requires queue.Settled()
    requires id in queue.resolved ==> queue.CanRead(count)
    requires id !in queue.resolved ==> Waiter(id, count) in queue.waiters
    ensures queue.Wake().Fair() && Listening(queue.Wake(), id, count)
  {
    queue.WakeIsFair();
    queue.WakeParts(queue.waiters);
    if id !in queue.resolved {
      var w := Waiter(id, count);
      if !queue.CanRead(count) {
        assert w in queue.Unready(queue.waiters);
        assert id !in queue.ReadyIds(queue.waiters);
      }
    }
  }

  lemma FeedsListen(queue: QueueState, chunk: seq<nat>, id: nat, count: nat)
    requires queue.Fair() && Listening(queue, id, count)
    ensures queue.Push(chunk).Fair() && Listening(queue.Push(chunk), id, count)
    ensures queue.PushEnd().Fair() && Listening(queue.PushEnd(), id, count)
  {
    WakeListens(queue.(items := queue.items + chunk), id, count);
    WakeListens(queue.(ended := true), id, count);
  }

  lemma FeedsFair(queue: QueueState, chunk: seq<nat>)
    requires queue.Fair()
    ensures queue.Push(chunk).Fair() && queue.PushEnd().Fair()
  {
    queue.(items := queue.items + chunk).WakeIsFair();
    queue.(ended := true).WakeIsFair();
  }

  lemma WaitIsFair(queue: QueueState, count: nat)
    requires queue.Fair()
    ensures queue.Wait(count).Fair()
    ensures !queue.CanRead(count) ==> Listening(queue.Wait(count), queue.nextId, count)
  {
  }

  lemma BOMStable(sniff: bool, bytes: seq<nat>, more: seq<nat>)
    requires Decided(sniff, bytes)
    ensures Mark(sniff, bytes + more) == Mark(sniff, bytes)
    ensures sniff ==> DetectBOM(bytes) == DetectBOM(bytes[..3])
    ensures Payload(sniff, bytes + more) == Payload(sniff, bytes) + more
  {
    var n := BOMLength(Mark(sniff, bytes));
    assert (bytes + more)[n..] == bytes[n..] + more;
  }

  /** Draining what is left of the payload gives what the complete input gives. */
  lemma DrainKeepsInv<S>(p: Process<S>, received: seq<nat>, codec: Codec<S>, state: S, n: nat)
    requires p.queue.Fair() && codec == Chosen(p, received) && (p.queue.ended || Decided(p.sniff, received))
    requires n <= |Payload(p.sniff, received)| && p.queue.items == Payload(p.sniff, received)[n..]
    requires Feed(codec, codec.start, Payload(p.sniff, received)[..n]) == Drained(state, p.output)
    ensures Inv(p.Drain(codec, state), received, [], p.queue.ended)
  {
    hide Run, Feed, QueueState.Fair;
    var payload := Payload(p.sniff, received);
    RunOfRest(codec, payload, n, state, p.output, p.queue.ended);
    var call := Run(codec, state, p.queue.items, p.queue.ended);
    RestoreAll(p.queue, call.unread);
    if call.outcome == Suspended {
      WaitIsFair(p.queue.(items := []).Restore([]), 1);
      assert payload[..|payload|] == payload;
    }
  }

  /** With `n` items of the payload read, a call on the others completes the call on all of it. */
  lemma RunOfRest<S>(codec: Codec<S>, payload: seq<nat>, n: nat, state: S, output: seq<nat>, ended: bool)
    requires n <= |payload| && Feed(codec, codec.start, payload[..n]) == Drained(state, output)
    ensures var call := Run(codec, state, payload[n..], ended);
      if call.outcome == Suspended then
        !ended && call.unread == [] && Feed(codec, codec.start, payload) == Drained(call.state, output + call.output)
      else
        Whole(codec, payload) == call.(output := output + call.output) && (!ended ==> StoppedBy(codec, payload))
  {
    assert payload == payload[..n] + payload[n..];
    RunSplit(codec, codec.start, payload[..n], payload[n..], true);
    FeedSplit(codec, codec.start, payload[..n], payload[n..]);
  }

  lemma RestoreAll(queue: QueueState, unread: seq<nat>)
    requires queue.Fair()
    ensures queue.(items := []).Restore(unread).Fair() && queue.(items := []).Restore(unread).items == unread
  {
    queue.(items := unread).WakeIsFair();
    assert unread + [] == unread;
  }

  lemma NextKeepsInv<S>(p: Process<S>, received: seq<nat>, late: seq<nat>, over: bool, event: Event)
    requires Inv(p, received, late, over)
    ensures var taken := if event.Push? && !over then received + event.chunk else received;
      var missed := if event.Push? && over then late + event.chunk else late;
      Inv(p.Next(event), taken, missed, over || (event.Turn? && p.queue.ended))
  {
    match event
    case Push(chunk) => if over { PushTooLate(p, received, late, chunk); } else { PushKeepsInv(p, received, chunk); }
    case End => EndKeepsInv(p, received, late, over);
    case Turn => if p.Enabled() { ReactKeepsInv(p, received); }
  }

  lemma EndKeepsInv<S>(p: Process<S>, received: seq<nat>, late: seq<nat>, over: bool)
    requires Inv(p, received, late, over)
    ensures Inv(p.Next(End), received, late, over)
  {
    FeedsFair(p.queue, []);
    match p.status
    case Sniffing(Some(id)) => FeedsListen(p.queue, [], id, 3);
    case Awaiting(_, _, id) => FeedsListen(p.queue, [], id, 1);
    case _ =>
  }

  lemma PushTooLate<S>(p: Process<S>, received: seq<nat>, late: seq<nat>, chunk: seq<nat>)
    requires Inv(p, received, late, true)
    ensures Inv(p.Next(Push(chunk)), received, late + chunk, true)
  {
    hide Complete;
    FeedsFair(p.queue, chunk);
    var unread := Complete(p.sniff, p.codecs, received, p.fallback).unread;
    assert unread + late + chunk == unread + (late + chunk) && late + [] == late;
  }

  lemma PushKeepsInv<S>(p: Process<S>, received: seq<nat>, chunk: seq<nat>)
    requires Inv(p, received, [], false)
    ensures Inv(p.Next(Push(chunk)), received + chunk, [], false)
  {
    FeedsFair(p.queue, chunk);
    assert received + [] == received;
    match p.status
    case Sniffing(Some(id)) => FeedsListen(p.queue, chunk, id, 3);
    case Sniffing(None) =>
    case Awaiting(_, _, _) => PushWhileAwaiting(p, received, chunk);
    case Done(outcome) => PushAfterStop(p, received, chunk);
  }

  lemma PushWhileAwaiting<S>(p: Process<S>, received: seq<nat>, chunk: seq<nat>)
    requires Inv(p, received, [], false) && p.status.Awaiting?
    ensures Inv(p.Next(Push(chunk)), received + chunk, [], false)
  {
    hide Remaining, Payload, Mark;
    FeedsListen(p.queue, chunk, p.status.id, 1);
    BOMStable(p.sniff, received, chunk);
    RemainingMore(p.status.codec, p.status.state, p.output, Payload(p.sniff, received), p.queue.items, chunk);
    assert p.queue.items + [] == p.queue.items;
  }

  lemma RemainingMore<S>(
    codec: Codec<S>, state: S, output: seq<nat>, payload: seq<nat>, items: seq<nat>, chunk: seq<nat>)
    requires Remaining(codec, state, output, payload, items)
    ensures Remaining(codec, state, output, payload + chunk, items + chunk)
  {
    hide Feed;
    var q := |payload| - |items|;
    assert (payload + chunk)[..q] == payload[..q] && (payload + chunk)[q..] == payload[q..] + chunk;
  }

  lemma PushAfterStop<S>(p: Process<S>, received: seq<nat>, chunk: seq<nat>)
    requires Inv(p, received, [], false) && p.status.Done?
    ensures Inv(p.Next(Push(chunk)), received + chunk, [], false)
  {
    hide Run, Feed;
    FeedsFair(p.queue, chunk);
    BOMStable(p.sniff, received, chunk);
    var codec := Chosen(p, received);
    RunStopped(codec, codec.start, Payload(p.sniff, received), chunk, true);
    FeedSplit(codec, codec.start, Payload(p.sniff, received), chunk);
  }

  lemma ReactKeepsInv<S>(p: Process<S>, received: seq<nat>)
    requires Inv(p, received, [], false) && p.Enabled()
    ensures Inv(p.React(), received, [], p.queue.ended)
  {
    match p.status
    case Sniffing(_) =>
      var codec, n := Chosen(p, received), BOMLength(Mark(true, received));
      if |received| >= 3 {
        BOMStable(p.sniff, received, []);
        assert received + [] == received;
      }
      assert p.queue.Peek(3).Some? && DetectBOM(p.queue.Peek(3).value) == DetectBOM(received);
      var sniffed := p.(queue := p.queue.Drop(n));
      assert Payload(p.sniff, received)[0..] == Payload(p.sniff, received) && Payload(p.sniff, received)[..0] == [];
      DrainKeepsInv(sniffed, received, codec, codec.start, 0);
    case Awaiting(codec, state, id) =>
      DrainKeepsInv(p, received, codec, state, |Payload(p.sniff, received)| - |p.queue.items|);
  }

  // ---------------------------------------------------------------------------
  // Whole runs
  // ---------------------------------------------------------------------------

  lemma NextFrame<S>(p: Process<S>, event: Event)
    ensures p.Next(event).queue.ended == (p.queue.ended || event.End?)
    ensures p.Next(event).fallback == p.fallback && p.Next(event).codecs == p.codecs && p.Next(event).sniff == p.sniff
  {
  }

  lemma {:induction false} EndedAfter<S>(p: Process<S>, events: seq<Event>)
    ensures After(p, events).queue.ended == EndSeen(p.queue.ended, events)
    ensures After(p, events).fallback == p.fallback && After(p, events).codecs == p.codecs
    ensures After(p, events).sniff == p.sniff
  {
    if events != [] {
      var n := |events| - 1;
      EndedAfter(p, events[..n]);
      assert events == events[..n] + [events[n]];
      NextFrame(After(p, events[..n]), events[n]);
    }
  }

  lemma StartInv<S>(sniff: bool, input: QueueState, fallback: Encoding, codecs: Encoding -> Codec<S>)
    requires input.Fair()
    ensures Inv(Start(sniff, input, fallback, codecs), input.items, [], input.ended && !sniff)
    ensures Start(sniff, input, fallback, codecs).queue.ended == input.ended
  {
    if sniff { WaitIsFair(input, 3); } else { StartCodecInv(input, fallback, codecs); }
  }

  lemma StartCodecInv<S>(input: QueueState, fallback: Encoding, codecs: Encoding -> Codec<S>)
    requires input.Fair()
    ensures Inv(StartCodec(input, fallback, codecs), input.items, [], input.ended)
    ensures StartCodec(input, fallback, codecs).queue.ended == input.ended
  {
    var p: Process<S> := Process(input, [], Sniffing(None), false, fallback, codecs);
    var payload := Payload(false, input.items);
    assert payload == input.items && payload[..0] == [] && payload[0..] == payload;
    DrainKeepsInv(p, input.items, codecs(fallback), codecs(fallback).start, 0);
  }

  lemma {:induction false} RunKeepsInv<S>(
    sniff: bool, input: QueueState, fallback: Encoding, codecs: Encoding -> Codec<S>, events: seq<Event>)
    requires input.Fair()
    ensures var (taken, late) := Arrived(sniff, input, events);
            Inv(After(Start(sniff, input, fallback, codecs), events), taken, late, Over(sniff, input.ended, events))
    decreases |events|
  {
    hide Inv, Process.Next;
    var p := Start(sniff, input, fallback, codecs);
    StartInv(sniff, input, fallback, codecs);
    if events != [] {
      var n := |events| - 1;
      var before := events[..n];
      var (taken, late) := Arrived(sniff, input, before);
      RunKeepsInv(sniff, input, fallback, codecs, before);
      EndedAfter(p, before);
      NextKeepsInv(After(p, before), taken, late, Over(sniff, input.ended, before), events[n]);
    }
  }

  /** No wake-up is lost: whenever enough input is there, the reaction can run. */
  lemma NeverStuck<S>(
    sniff: bool, input: QueueState, fallback: Encoding, codecs: Encoding -> Codec<S>, events: seq<Event>)
    requires input.Fair()
    ensures var p := After(Start(sniff, input, fallback, codecs), events);
            match p.status
            case Sniffing(_) => p.Enabled() <==> p.queue.ended || |p.queue.items| >= 3
            case Awaiting(_, _, _) => p.Enabled() <==> p.queue.ended || p.queue.items != []
            case Done(_) => true
  {
    hide After, Start, Remaining, Payload;
    RunKeepsInv(sniff, input, fallback, codecs, events);
  }

  /**
   However the input is split into pushes, and however the runtime schedules reactions, one reaction after
   the end leaves what decoding everything that arrived before it gives; what comes later stays unread.
   */
  lemma SplitIndependent<S>(
    sniff: bool, input: QueueState, fallback: Encoding, codecs: Encoding -> Codec<S>, events: seq<Event>)
    requires input.Fair() && EndSeen(input.ended, events)
    ensures var p := After(Start(sniff, input, fallback, codecs), events + [Turn]);
            var (taken, late) := Arrived(sniff, input, events);
            var whole := Complete(sniff, codecs, taken, fallback);
            p.status == Done(whole.outcome) && p.output == whole.output && p.queue.items == whole.unread + late
  {
    hide Complete, Process.Next, Remaining, Payload;
    var start, all := Start(sniff, input, fallback, codecs), events + [Turn];
    assert all[..|events|] == events;
    RunKeepsInv(sniff, input, fallback, codecs, all);
    StartFrame(sniff, input, fallback, codecs);
    EndedAfter(start, all);
  }

  /** From a producer that says nothing after the end, the result is that of the joined input. */
  lemma OrderlyInput<S>(
    sniff: bool, input: QueueState, fallback: Encoding, codecs: Encoding -> Codec<S>, events: seq<Event>)
    requires input.Fair() && EndSeen(input.ended, events) && Orderly(input.ended, events)
    ensures var p := After(Start(sniff, input, fallback, codecs), events + [Turn]);
            var whole := Complete(sniff, codecs, Joined(input.items, events), fallback);
            p.status == Done(whole.outcome) && p.output == whole.output && p.queue.items == whole.unread
  {
    hide Complete, After, Start;
    SplitIndependent(sniff, input, fallback, codecs, events);
    NothingLate(sniff, input, events);
    var whole := Complete(sniff, codecs, Joined(input.items, events), fallback);
    assert whole.unread + [] == whole.unread;
  }

  /** An outcome, once reached, is already the outcome of everything that arrives in time. */
  lemma DoneIsFinal<S>(
    sniff: bool, input: QueueState, fallback: Encoding, codecs: Encoding -> Codec<S>, events: seq<Event>)
    requires input.Fair()
    ensures var p := After(Start(sniff, input, fallback, codecs), events);
            var whole := Complete(sniff, codecs, Arrived(sniff, input, events).0, fallback);
            p.status.Done? ==> p.status == Done(whole.outcome) && p.output == whole.output
  {
    hide Complete, After, Start, Remaining, Payload;
    RunKeepsInv(sniff, input, fallback, codecs, events);
    StartFrame(sniff, input, fallback, codecs);
    EndedAfter(Start(sniff, input, fallback, codecs), events);
  }

  lemma StartFrame<S>(sniff: bool, input: QueueState, fallback: Encoding, codecs: Encoding -> Codec<S>)
    ensures var p := Start(sniff, input, fallback, codecs);
      p.fallback == fallback && p.codecs == codecs && p.sniff == sniff && p.queue.ended == input.ended
  {
  }
}
