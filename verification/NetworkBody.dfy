/**
 The network byte buffer itself (src/fetch/fetch.ts `NetworkBody`): an array of chunks with a
 head index and an offset into the head chunk, compacted now and then. It refines `BodyPump`.
 */
module NetworkBody {
  import opened Prelude
  import opened BodyPump
  import opened TransportControl

  type Slot = Option<seq<nat>>

  /** The bytes of the slots from `k` on; a consumed slot is empty. */
  function BytesFrom(chunks: seq<Slot>, k: nat): seq<nat>
    decreases |chunks| - k
  {
    if k >= |chunks| then [] else
      (match chunks[k] case None => [] case Some(bytes) => bytes) + BytesFrom(chunks, k + 1)
  }

  lemma {:induction false} BytesSnoc(chunks: seq<Slot>, k: nat, bytes: seq<nat>)
    requires k <= |chunks|
    ensures BytesFrom(chunks + [Some(bytes)], k) == BytesFrom(chunks, k) + bytes
    decreases |chunks| - k
  {
    if k == |chunks| {
      assert BytesFrom(chunks + [Some(bytes)], k) == bytes + BytesFrom(chunks + [Some(bytes)], k + 1) == bytes + [];
    } else {
      BytesSnoc(chunks, k + 1, bytes);
    }
  }

  lemma {:induction false} BytesSlice(chunks: seq<Slot>, head: nat, k: nat)
    requires head <= |chunks|
    ensures BytesFrom(chunks[head..], k) == BytesFrom(chunks, head + k)
    decreases |chunks| - head - k
  {
    if head + k < |chunks| { BytesSlice(chunks, head, k + 1); }
  }

  lemma {:induction false} BytesUpdate(chunks: seq<Slot>, at: nat, slot: Slot, k: nat)
    requires at < k && at < |chunks|
    ensures BytesFrom(chunks[at := slot], k) == BytesFrom(chunks, k)
    decreases |chunks| - k
  {
    if k < |chunks| { BytesUpdate(chunks, at, slot, k + 1); }
  }

  lemma FirstBytes(chunks: seq<Slot>, head: nat)
    requires head < |chunks| ==> chunks[head].Some?
    ensures head < |chunks| ==> chunks[head].value <= BytesFrom(chunks, head)
  {
  }

  lemma HeadBytes(chunks: seq<Slot>, head: nat)
    requires head < |chunks| && chunks[head].Some?
    ensures BytesFrom(chunks, head) == chunks[head].value + BytesFrom(chunks, head + 1)
  {
  }

  /** Taking from the first of two byte strings. */
  lemma TakeFrom(bytes: seq<nat>, rest: seq<nat>, offset: nat, take: nat)
    requires offset + take <= |bytes|
    ensures var all := bytes + rest;
      && all[offset..][..take] == bytes[offset..offset + take]
      && all[offset..][take..] == all[offset + take..]
      && all[|bytes|..] == rest
  {
    var all := bytes + rest;
    assert all[offset..][..take] == all[offset..offset + take];
  }

  class NetworkBody {
    var control: FlowControl?
    var chunks: seq<Slot>
    var head: nat
    var offset: nat
    var size: nat
    var paused: bool
    var ended: bool
    var finished: bool
    var failure: bool
    var pull: bool
    var taskQueued: bool
    /** Delivery tasks in the event loop. */
    var tasks: nat
    var stream: Stream
    /** Everything the stream was given. */
    var delivered: seq<nat>

    ghost var received: seq<nat>
    /** Chunks consumed by deliveries, and slots copied by compactions. */
    ghost var consumed: nat
    ghost var copied: nat

    ghost function Buffered(): seq<nat>
      reads `chunks, `head, `offset
    {
      var all := BytesFrom(chunks, head);
      if offset <= |all| then all[offset..] else []
    }

    ghost function State(): Pump
      reads this
    {
      Pump(received, delivered, Buffered(), paused, ended, finished, failure, pull, tasks, stream)
    }

    /** The chunk array: consumed slots, then nonempty chunks, the first one read up to `offset`. */
    ghost predicate BufferOk()
      reads `chunks, `head, `offset, `size, `consumed, `copied
    {
      && head <= |chunks|
      && (forall i :: head <= i < |chunks| ==> chunks[i].Some? && chunks[i].value != [])
      && (if head < |chunks| then offset < |chunks[head].value| else offset == 0)
      && size == |Buffered()|
      && copied + head <= consumed
    }

    /** Bytes of the head chunk not delivered yet. */
    ghost function HeadLeft(): nat
      reads `chunks, `head, `offset, `size, `consumed, `copied
      requires BufferOk()
    {
      if head < |chunks| then |chunks[head].value| - offset else 0
    }

    ghost predicate Valid()
      reads this
    {
      BufferOk() && tasks == (if taskQueued then 1 else 0)
    }

    constructor ()
      ensures Valid() && State() == NEW && control == null && copied == consumed == 0
    {
      control, chunks, head, offset, size := null, [], 0, 0, 0;
      paused, ended, finished, failure, pull, taskQueued := false, false, false, false, false, false;
      tasks, stream, delivered, received, consumed, copied := 0, Readable, [], [], 0, 0;
    }

    method ScheduleDelivery()
      requires tasks == (if taskQueued then 1 else 0) && size == |Buffered()|
      modifies `taskQueued, `tasks
      ensures tasks == (if taskQueued then 1 else 0)
      ensures State() == old(State()).Schedule()
    {
      if finished || taskQueued { return; }
      if !failure && !(ended && size == 0) && !(pull && size > 0) { return; }
      taskQueued := true;
      tasks := tasks + 1;
    }

    /** `setControl`: catch up with what happened before. */
    method SetControl(flow: FlowControl)
      requires Valid()
      modifies `control, flow
      ensures Valid() && State() == old(State()) && control == flow
      ensures flow.State() == old(flow.State()).Apply(
        if failure then AbortSignal else if paused then PauseSignal else Quiet)
    {
      control := flow;
      if failure { flow.Abort(); } else if paused { flow.Pause(); }
    }

    /** The state of the control after it was told `signal`. */
    twostate predicate Told(signal: Signal)
      reads this, control
    {
      control == old(control) && (control != null ==> control.State() == old(control.State()).Apply(signal))
    }

    method Enqueue(bytes: seq<nat>)
      requires BufferOk() && bytes != []
      modifies `chunks, `received, `size
      ensures BufferOk() && received == old(received) + bytes && Buffered() == old(Buffered()) + bytes
    {
      BytesSnoc(chunks, head, bytes);
      FirstBytes(chunks, head);
      chunks := chunks + [Some(bytes)];
      received := received + bytes;
      size := size + |bytes|;
    }

    method Receive(bytes: seq<nat>)
      requires Valid()
      modifies this, control
      ensures Valid() && State() == old(State()).Receive(bytes).0 && Told(old(State()).Receive(bytes).1)
      ensures copied == old(copied) && consumed == old(consumed)
    {
      hide Buffered, FlowControl.State;
      if finished || failure || bytes == [] { return; }
      Enqueue(bytes);
      if !paused && size >= UPPER {
        paused := true;
        if control != null { control.Pause(); }
      }
      ScheduleDelivery();
    }

    method End()
      requires Valid()
      modifies this
      ensures Valid() && State() == old(State()).End() && control == old(control)
      ensures copied == old(copied) && consumed == old(consumed)
    {
      ended := true;
      ScheduleDelivery();
    }

    method DropAll()
      requires BufferOk()
      modifies `chunks, `head, `offset, `size
      ensures BufferOk() && Buffered() == [] && size == 0
    {
      chunks := [];
      head, offset, size := 0, 0, 0;
    }

    method Fail()
      requires Valid()
      modifies this, control
      ensures Valid() && State() == old(State()).Fail().0 && Told(old(State()).Fail().1)
      ensures copied == old(copied) && consumed == old(consumed)
    {
      hide FlowControl.State;
      if finished || failure { return; }
      failure := true;
      DropAll();
      if control != null { control.Abort(); }
      ScheduleDelivery();
    }

    /** The stream asks for bytes. */
    method Pull()
      requires Valid() && Allowed(State(), PullRequest)
      modifies this
      ensures Valid() && State() == old(State()).Pull() && control == old(control)
      ensures copied == old(copied) && consumed == old(consumed)
    {
      pull := true;
      ScheduleDelivery();
    }

    /** Leave the head chunk behind; forget the consumed slots when they are many. */
    method Advance()
      requires head < |chunks| && forall i :: head <= i < |chunks| ==> chunks[i].Some? && chunks[i].value != []
      requires copied + head <= consumed
      modifies `chunks, `head, `offset, `consumed, `copied
      ensures head <= |chunks| && forall i :: head <= i < |chunks| ==> chunks[i].Some? && chunks[i].value != []
      ensures offset == 0 && copied + head <= consumed == old(consumed) + 1
      ensures BytesFrom(chunks, head) == BytesFrom(old(chunks), old(head) + 1)
    {
      BytesUpdate(chunks, head, None, head + 1);
      chunks, head, offset := chunks[head := None], head + 1, 0;
      consumed := consumed + 1;
      if head == |chunks| {
        chunks, head := [], 0;
      } else if head >= 64 && head * 2 >= |chunks| {
        BytesSlice(chunks, head, 0);
        copied := copied + (|chunks| - head);
        chunks, head := chunks[head..], 0;
      }
    }

    /** `pullFromBytes` on the head chunk: the stream takes `take` of the bytes left in it. */
    method TakeHead(take: nat)
      requires BufferOk() && 1 <= take <= HeadLeft()
      modifies `chunks, `head, `offset, `size, `delivered, `consumed, `copied
      ensures BufferOk() && take <= |old(Buffered())|
      ensures delivered == old(delivered) + old(Buffered())[..take] && Buffered() == old(Buffered())[take..]
      ensures consumed == old(consumed) + (if take == old(HeadLeft()) then 1 else 0)
    {
      hide BytesFrom;
      var bytes := chunks[head].value;
      HeadBytes(chunks, head);
      TakeFrom(bytes, BytesFrom(chunks, head + 1), offset, take);
      delivered := delivered + bytes[offset..offset + take];
      size := size - take;
      offset := offset + take;
      if offset == |bytes| { Advance(); }
    }

    /** The end of `#deliver`: close after the last byte, or resume the transport. */
    method Settle()
      requires BufferOk()
      modifies `stream, `finished, `paused, control
      ensures BufferOk() && State() == old(State()).Settle().0 && Told(old(State()).Settle().1)
    {
      if ended && size == 0 {
        stream := Closed;
        finished := true;
      } else if paused && size < LOWER {
        paused := false;
        if control != null { control.Resume(); }
      }
    }

    /** Answer a pull, whose promise is already taken, then close or resume. */
    method Proceed(pulled: bool, take: nat)
      requires BufferOk() && !pull && (pulled && Buffered() != [] ==> 1 <= take <= HeadLeft())
      modifies `chunks, `head, `offset, `size, `delivered, `consumed, `copied, `stream, `finished, `paused, control
      ensures BufferOk() && old(pulled && Buffered() != [] ==> take <= |Buffered()|)
      ensures var served := if pulled && old(Buffered()) != [] then old(State()).Take(take) else old(State());
              State() == served.Settle().0 && Told(served.Settle().1)
    {
      hide Buffered, HeadLeft, FlowControl.State;
      if pulled && size > 0 { TakeHead(take); }
      Settle();
    }

    /** `#deliver` */
    method Deliver(take: nat)
      requires BufferOk() && (State().Takes() ==> 1 <= take <= HeadLeft())
      modifies this, control
      ensures BufferOk() && taskQueued == old(taskQueued) && old(State().Takes() ==> take <= |Buffered()|)
      ensures var (p, signal) := old(State().(tasks := tasks + 1)).Deliver(take);
              State() == p && Told(signal)
    {
      hide Buffered, HeadLeft, FlowControl.State;
      if finished { return; }
      var pulled := pull;
      pull := false;
      if failure {
        stream := Errored;
        finished := true;
      } else {
        assert State() == old(State()).(pulling := false);
        Proceed(pulled, take);
      }
    }

    /** A queued task runs. */
    method RunTask(take: nat)
      requires Valid() && tasks > 0
      requires State().Takes() ==> 1 <= take <= HeadLeft()
      modifies this, control
      ensures Valid() && old(State().Takes() ==> take <= |Buffered()|)
      ensures State() == old(State()).Deliver(take).0 && Told(old(State()).Deliver(take).1)
    {
      HeadFits();
      tasks := tasks - 1;
      taskQueued := false;
      Deliver(take);
    }

    lemma HeadFits()
      requires BufferOk()
      ensures HeadLeft() <= |Buffered()| && (HeadLeft() == 0 <==> Buffered() == [])
    {
      FirstBytes(chunks, head);
    }
  }
}
