/**
 The network body of src/fetch/fetch.ts (`NetworkBody`) seen from outside: bytes received, buffered
 and delivered, the outstanding pull, the queued delivery tasks, and the pause state of the transport.
 */
module BodyPump {
  const UPPER: nat := 64 * 1024
  const LOWER: nat := 32 * 1024

  datatype Stream = Readable | Closed | Errored

  /** What the body tells the transport control. */
  datatype Signal = Quiet | PauseSignal | ResumeSignal | AbortSignal

  datatype Pump = Pump(
    received: seq<nat>, delivered: seq<nat>, buffered: seq<nat>,
    paused: bool, ended: bool, finished: bool, failed: bool,
    pulling: bool, tasks: nat, stream: Stream)
  {
    /** Delivery has something to do. */
    predicate Ready()
    {
      failed || (ended && buffered == []) || (pulling && buffered != [])
    }

    function Schedule(): Pump
    {
      if finished || tasks > 0 || !Ready() then this else this.(tasks := 1)
    }

    function Receive(bytes: seq<nat>): (Pump, Signal)
    {
      if finished || failed || bytes == [] then (this, Quiet) else
        var p := this.(received := received + bytes, buffered := buffered + bytes);
        var full := !paused && |p.buffered| >= UPPER;
        (p.(paused := paused || full).Schedule(), if full then PauseSignal else Quiet)
    }

    function End(): Pump { this.(ended := true).Schedule() }

    function Fail(): (Pump, Signal)
    {
      if finished || failed then (this, Quiet)
      else (this.(failed := true, buffered := []).Schedule(), AbortSignal)
    }

    function Pull(): Pump { this.(pulling := true).Schedule() }

    /** A queued task runs; the stream takes `n` bytes if it asked for some. */
    function Deliver(n: nat): (Pump, Signal)
      requires tasks > 0
      requires Takes() ==> n <= |buffered|
    {
      var run := this.(tasks := tasks - 1);
      if finished then (run, Quiet)
      else if failed then (run.(pulling := false, finished := true, stream := Errored), Quiet)
      else (if Takes() then run.Take(n) else run.(pulling := false)).Settle()
    }

    /** The stream takes `n` bytes, which answers its pull. */
    function Take(n: nat): Pump
      requires n <= |buffered|
    {
      this.(delivered := delivered + buffered[..n], buffered := buffered[n..], pulling := false)
    }

    /** Close the stream after the last byte, or let the transport go on when there is room. */
    function Settle(): (Pump, Signal)
    {
      if ended && buffered == [] then (this.(finished := true, stream := Closed), Quiet)
      else if paused && |buffered| < LOWER then (this.(paused := false), ResumeSignal)
      else (this, Quiet)
    }

    predicate Takes() { !finished && !failed && pulling && buffered != [] }
  }

  const NEW: Pump := Pump([], [], [], false, false, false, false, false, 0, Readable)

  datatype Event = Data(bytes: seq<nat>) | EndOfData | Failure | PullRequest | Task(n: nat)

  /** What the environment may do: no data after the end, one pull at a time, at least one byte per pull. */
  predicate Allowed(p: Pump, e: Event)
  {
    match e
    case Data(_) => !p.ended
    case EndOfData => true
    case Failure => true
    case PullRequest => !p.pulling && p.stream == Readable
    case Task(n) => p.tasks > 0 && (p.Takes() ==> 1 <= n <= |p.buffered|)
  }

  function Next(p: Pump, e: Event): Pump
    requires Allowed(p, e)
  {
    match e
    case Data(bytes) => p.Receive(bytes).0
    case EndOfData => p.End()
    case Failure => p.Fail().0
    case PullRequest => p.Pull()
    case Task(n) => p.Deliver(n).0
  }

  /** `events` leads from `p` to `q`. */
  ghost predicate Leads(p: Pump, events: seq<Event>, q: Pump)
    decreases |events|
  {
    if events == [] then q == p else Allowed(p, events[0]) && Leads(Next(p, events[0]), events[1..], q)
  }

  ghost predicate Inv(p: Pump)
  {
    // conservation
    && (!p.failed ==> p.received == p.delivered + p.buffered)
    // wake-up: a task is queued exactly when there is something to deliver
    && p.tasks == (if !p.finished && p.Ready() then 1 else 0)
    // hysteresis
    && (!p.failed && !p.finished ==> if p.paused then |p.buffered| >= LOWER else |p.buffered| < UPPER)
    // the stream is closed after everything, errored after a failure
    && (p.finished <==> p.stream != Readable)
    && (p.finished ==> (p.failed <==> p.stream == Errored))
    && (p.failed ==> p.buffered == [])
    && (p.stream == Closed ==> p.ended && p.buffered == [])
  }

  lemma NextKeepsInv(p: Pump, e: Event)
    requires Inv(p) && Allowed(p, e)
    ensures Inv(Next(p, e))
  {
    match e
    case Data(bytes) => assert p.delivered + p.buffered + bytes == p.delivered + (p.buffered + bytes);
    case Task(n) =>
      if p.Takes() {
        assert p.delivered + p.buffered[..n] + p.buffered[n..] == p.delivered + p.buffered;
      }
    case _ =>
  }

  lemma {:induction false} LeadsKeepsInv(p: Pump, events: seq<Event>, q: Pump)
    requires Inv(p) && Leads(p, events, q)
    ensures Inv(q)
    decreases |events|
  {
    if events != [] {
      NextKeepsInv(p, events[0]);
      LeadsKeepsInv(Next(p, events[0]), events[1..], q);
    }
  }

  /** Over any run: nothing is lost or made up, and a closed stream has received everything. */
  lemma Conservation(events: seq<Event>, p: Pump)
    requires Leads(NEW, events, p)
    ensures !p.failed ==> p.received == p.delivered + p.buffered
    ensures p.stream == Closed ==> p.delivered == p.received && p.ended
  {
    LeadsKeepsInv(NEW, events, p);
    if p.stream == Closed { assert p.delivered + [] == p.delivered; }
  }

  /** Over any run: a delivery task is queued exactly when it has something to do when it runs. */
  lemma WakeUp(events: seq<Event>, p: Pump)
    requires Leads(NEW, events, p)
    ensures p.tasks <= 1
    ensures !p.finished ==>
      (p.tasks == 1 <==> p.failed || (p.ended && p.buffered == []) || (p.pulling && p.buffered != []))
    ensures p.finished ==> p.tasks == 0
  {
    LeadsKeepsInv(NEW, events, p);
  }

  /**
   Over any run: the transport is let go only under 64 KiB; stopped, it has 32 KiB or more buffered exactly
   as long as the body has neither failed nor finished.
   */
  lemma Hysteresis(events: seq<Event>, p: Pump)
    requires Leads(NEW, events, p)
    ensures !p.paused ==> |p.buffered| < 65536
    ensures p.paused ==> (|p.buffered| >= 32768 <==> !p.failed && !p.finished)
  {
    LeadsKeepsInv(NEW, events, p);
  }

  /**
   Over any run: the transport is stopped by the chunk that makes 64 KiB, and let go by the delivery that leaves
   less than 32 KiB of an unfinished body, and by nothing else.
   */
  lemma Switches(events: seq<Event>, p: Pump, e: Event)
    requires Leads(NEW, events, p) && Allowed(p, e)
    ensures !p.paused && Next(p, e).paused <==>
      !p.paused && e.Data? && !p.failed && !p.finished && |p.buffered| + |e.bytes| >= 65536
    ensures p.paused && !Next(p, e).paused <==>
      p.paused && e.Task? && !p.failed && !p.finished &&
      var left := |p.buffered| - (if p.pulling && p.buffered != [] then e.n else 0);
      left < 32768 && !(p.ended && left == 0)
  {
    LeadsKeepsInv(NEW, events, p);
  }

  /** All chunks that came before any failure. */
  function Given(p: Pump, events: seq<Event>): seq<nat>
    decreases |events|
  {
    if events == [] || !Allowed(p, events[0]) then []
    else Taken(p, events[0]) + Given(Next(p, events[0]), events[1..])
  }

  function Taken(p: Pump, e: Event): seq<nat> { if e.Data? && !p.failed then e.bytes else [] }

  lemma ReceivesTaken(p: Pump, e: Event)
    requires Inv(p) && Allowed(p, e)
    ensures Next(p, e).received == p.received + Taken(p, e)
  {
    assert p.received + [] == p.received;
  }

  /** They are what the body has received. */
  lemma {:induction false} ReceivesGiven(p: Pump, events: seq<Event>, q: Pump)
    requires Inv(p) && Leads(p, events, q)
    ensures q.received == p.received + Given(p, events)
    decreases |events|
  {
    hide Inv, Next, Allowed, Taken;
    if events == [] {
      assert p.received + [] == p.received;
    } else {
      var next := Next(p, events[0]);
      NextKeepsInv(p, events[0]);
      ReceivesGiven(next, events[1..], q);
      ReceivesTaken(p, events[0]);
      var first, rest := Taken(p, events[0]), Given(next, events[1..]);
      assert p.received + first + rest == p.received + (first + rest);
    }
  }

  /** A failed body errors its stream with the task that is queued then, and delivers nothing more. */
  lemma FailedErrors(events: seq<Event>, p: Pump, n: nat)
    requires Leads(NEW, events, p) && p.failed && !p.finished
    ensures p.buffered == [] && p.stream == Readable && p.tasks == 1
    ensures var q := Next(p, Task(n)); q.stream == Errored && q.delivered == p.delivered && q.tasks == 0
  {
    LeadsKeepsInv(NEW, events, p);
  }


  /** A body that closed while paused stays paused with nothing buffered. */
  lemma FinishedMayStayPaused(bytes: seq<nat>)
    requires |bytes| == 65536
    ensures exists p :: Leads(NEW, [Data(bytes), EndOfData, PullRequest, Task(65536)], p)
                        && p.paused && p.buffered == [] && !p.failed
  {
    var p1 := Pump(bytes, [], bytes, true, false, false, false, false, 0, Readable);
    var p2 := p1.(ended := true);
    var p3 := p2.(pulling := true, tasks := 1);
    var p4 := Pump(bytes, bytes, [], true, true, true, false, false, 0, Closed);
    assert [] + bytes == bytes && bytes[..UPPER] == bytes && bytes[UPPER..] == [];
    assert Next(NEW, Data(bytes)) == p1 && Next(p1, EndOfData) == p2;
    assert Next(p2, PullRequest) == p3 && Next(p3, Task(UPPER)) == p4;
    LeadsCons(p3, Task(UPPER), [], p4);
    LeadsCons(p2, PullRequest, [Task(UPPER)], p4);
    LeadsCons(p1, EndOfData, [PullRequest, Task(UPPER)], p4);
    LeadsCons(NEW, Data(bytes), [EndOfData, PullRequest, Task(UPPER)], p4);
  }

  lemma LeadsCons(p: Pump, e: Event, rest: seq<Event>, q: Pump)
    requires Allowed(p, e) && Leads(Next(p, e), rest, q)
    ensures Leads(p, [e] + rest, q)
  {
    assert ([e] + rest)[1..] == rest;
  }

  // ---------------------------------------------------------------------------
  // Back-pressure
  // ---------------------------------------------------------------------------

  /** Every chunk of the run arrives while the transport is not paused, and is at most `chunk` long. */
  ghost predicate Polite(p: Pump, events: seq<Event>, chunk: nat)
    decreases |events|
  {
    events == [] ||
    (&& Allowed(p, events[0])
     && (events[0].Data? ==> !p.paused && |events[0].bytes| <= chunk)
     && Polite(Next(p, events[0]), events[1..], chunk))
  }

  /** A transport that honours pauses never makes the buffer grow past 64 KiB and one chunk. */
  lemma {:induction false} BufferBound(p: Pump, events: seq<Event>, q: Pump, chunk: nat)
    requires Inv(p) && |p.buffered| < 65536 + chunk
    requires Polite(p, events, chunk) && Leads(p, events, q)
    ensures |q.buffered| < 65536 + chunk
    decreases |events|
  {
    if events != [] {
      BoundStep(p, events[0], chunk);
      NextKeepsInv(p, events[0]);
      BufferBound(Next(p, events[0]), events[1..], q, chunk);
    }
  }

  lemma BoundStep(q: Pump, e: Event, chunk: nat)
    requires Inv(q) && |q.buffered| < UPPER + chunk && Allowed(q, e)
    requires e.Data? ==> !q.paused && |e.bytes| <= chunk
    ensures |Next(q, e).buffered| < UPPER + chunk
  {
  }

  /** One pull and the delivery it causes. */
  function Round(p: Pump, n: nat): Pump
    requires Serves(p, n)
  {
    Next(Next(p, PullRequest), Task(n))
  }

  predicate Serves(p: Pump, n: nat)
  {
    && Allowed(p, PullRequest) && Next(p, PullRequest).tasks == 1
    && 1 <= n <= |p.buffered| && Allowed(Next(p, PullRequest), Task(n))
  }

  /** A paused body serves a pull at once, and buffers strictly less after it. */
  lemma PausedServes(p: Pump, n: nat)
    requires Inv(p) && !p.failed && !p.finished && !p.pulling && p.paused && 1 <= n <= |p.buffered|
    ensures Serves(p, n) && |Round(p, n).buffered| == |p.buffered| - n
    ensures Inv(Round(p, n)) && !Round(p, n).pulling
    ensures Round(p, n).delivered == p.delivered + p.buffered[..n]
    ensures Round(p, n).paused == (|p.buffered| - n >= 32768 || (p.ended && n == |p.buffered|))
  {
    NextKeepsInv(p, PullRequest);
    NextKeepsInv(Next(p, PullRequest), Task(n));
  }

  /** Whatever the stream takes each time, finitely many pulls let the transport go on, or finish. */
  lemma {:induction false} PullsResume(p: Pump, take: nat -> nat) returns (rounds: nat, q: Pump)
    requires Inv(p) && !p.failed && !p.finished && !p.pulling && p.paused
    requires forall size :: 1 <= size ==> 1 <= take(size) <= size
    ensures AfterRounds(p, take, rounds, q) && (!q.paused || q.finished)
    ensures rounds <= |p.buffered|
    decreases |p.buffered|
  {
    var n := take(|p.buffered|);
    PausedServes(p, n);
    var next := Round(p, n);
    if !next.paused || next.finished {
      rounds, q := 1, next;
      assert AfterRounds(next, take, 0, next);
    } else {
      rounds, q := PullsResume(next, take);
      rounds := rounds + 1;
    }
  }

  ghost predicate AfterRounds(p: Pump, take: nat -> nat, rounds: nat, q: Pump)
    decreases rounds
  {
    if rounds == 0 then q == p else
      Serves(p, take(|p.buffered|)) && AfterRounds(Round(p, take(|p.buffered|)), take, rounds - 1, q)
  }

  // ---------------------------------------------------------------------------
  // Closing
  // ---------------------------------------------------------------------------

  /** The stream asks for bytes if it has not yet and there are any, and the queued task runs. */
  function Delivery(p: Pump, n: nat): Pump
    requires CanDeliver(p, n)
  {
    Next(Asked(p), Task(n))
  }

  function Asked(p: Pump): Pump
    requires !p.pulling && p.buffered != [] ==> Allowed(p, PullRequest)
  {
    if !p.pulling && p.buffered != [] then Next(p, PullRequest) else p
  }

  predicate CanDeliver(p: Pump, n: nat)
  {
    (!p.pulling && p.buffered != [] ==> Allowed(p, PullRequest)) && Allowed(Asked(p), Task(n))
  }

  lemma EndedDelivers(p: Pump, n: nat)
    requires Inv(p) && p.ended && !p.failed && !p.finished && (p.buffered != [] ==> 1 <= n <= |p.buffered|)
    ensures CanDeliver(p, n)
    ensures var q := Delivery(p, n);
      Inv(q) && q.ended && !q.failed && q.received == p.received &&
      (q.finished <==> p.buffered == [] || n == |p.buffered|) &&
      (p.buffered != [] ==> |q.buffered| == |p.buffered| - n)
  {
    if !p.pulling && p.buffered != [] { NextKeepsInv(p, PullRequest); }
    NextKeepsInv(Asked(p), Task(n));
  }

  /**
   A body that has ended and not failed closes after finitely many deliveries, whatever the stream takes each
   time: at most one for each byte left, and one if none is. The stream then has received everything.
   */
  lemma {:induction false} EndedCloses(p: Pump, take: nat -> nat) returns (deliveries: nat, q: Pump)
    requires Inv(p) && p.ended && !p.failed && !p.finished
    requires forall size :: 1 <= size ==> 1 <= take(size) <= size
    ensures AfterDeliveries(p, take, deliveries, q) && deliveries <= if p.buffered == [] then 1 else |p.buffered|
    ensures q.stream == Closed && q.finished && q.delivered == q.received == p.received
    decreases |p.buffered|
  {
    var n := take(|p.buffered|);
    EndedDelivers(p, n);
    var next := Delivery(p, n);
    if next.finished {
      deliveries, q := 1, next;
      assert AfterDeliveries(next, take, 0, next);
      assert next.delivered + [] == next.delivered;
    } else {
      deliveries, q := EndedCloses(next, take);
      deliveries := deliveries + 1;
    }
  }

  ghost predicate AfterDeliveries(p: Pump, take: nat -> nat, deliveries: nat, q: Pump)
    decreases deliveries
  {
    if deliveries == 0 then q == p else
      CanDeliver(p, take(|p.buffered|)) &&
      AfterDeliveries(Delivery(p, take(|p.buffered|)), take, deliveries - 1, q)
  }

  /** So in every run: from each state that has ended and not failed the rest of the body can be had. */
  lemma RunCloses(events: seq<Event>, p: Pump, take: nat -> nat) returns (deliveries: nat, q: Pump)
    requires Leads(NEW, events, p) && p.ended && !p.failed && !p.finished
    requires forall size :: 1 <= size ==> 1 <= take(size) <= size
    ensures AfterDeliveries(p, take, deliveries, q) && deliveries <= if p.buffered == [] then 1 else |p.buffered|
    ensures q.stream == Closed && q.delivered == q.received == p.received
  {
    LeadsKeepsInv(NEW, events, p);
    deliveries, q := EndedCloses(p, take);
  }
}
