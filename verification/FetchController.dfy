/**
 The cancellation side of a fetch controller (src/fetch/controller.ts). Steps are numbered, and may
 be registered again; `ran` records the steps that were called.
 */
module FetchController {
  datatype Phase = Ongoing | Terminated | Aborted

  datatype Event = Register(id: nat) | Remove(id: nat) | Abort | Terminate
  {
    predicate Cancels() { Abort? || Terminate? }
  }

  function Dropped(steps: seq<nat>, id: nat): seq<nat>
  {
    if steps == [] then [] else (if steps[0] == id then [] else [steps[0]]) + Dropped(steps[1..], id)
  }

  datatype State = State(phase: Phase, steps: seq<nat>, ran: seq<nat>)
  {
    function After(event: Event): State
    {
      match event
      case Register(id) =>
        if phase != Ongoing then this.(ran := ran + [id])
        else if id in steps then this
        else this.(steps := steps + [id])
      case Remove(id) => this.(steps := Dropped(steps, id))
      case Abort => State(Aborted, [], ran + steps)
      case Terminate => State(Terminated, [], ran + steps)
    }
  }

  function Run(events: seq<Event>): State
  {
    if events == [] then State(Ongoing, [], []) else Run(events[..|events| - 1]).After(events[|events| - 1])
  }

  /** No steps are registered twice. */
  predicate Fresh(events: seq<Event>)
  {
    forall i, j :: 0 <= i < j < |events| && events[i].Register? && events[j].Register? ==> events[i].id != events[j].id
  }

  predicate Canceled(events: seq<Event>) { exists i :: 0 <= i < |events| && events[i].Cancels() }

  /** Registered at i, and not removed before j. */
  predicate Held(events: seq<Event>, id: nat, i: nat, j: nat)
  {
    i < |events| && events[i] == Register(id) && forall m :: i < m < j && m < |events| ==> events[m] != Remove(id)
  }

  /** Registered and then still there at a cancellation, or registered after one. */
  predicate Due(events: seq<Event>, id: nat)
  {
    (exists i, j :: 0 <= i < j < |events| && events[j].Cancels() && Held(events, id, i, j)) ||
    (exists i, j :: 0 <= j < i < |events| && events[j].Cancels() && events[i] == Register(id))
  }

  /** Registered and then still there at the first cancellation. */
  predicate Caught(events: seq<Event>, id: nat)
  {
    exists i, j :: 0 <= i < j < |events| && FirstCancel(events, j) && Held(events, id, i, j)
  }

  predicate FirstCancel(events: seq<Event>, j: nat)
  {
    j < |events| && events[j].Cancels() && forall m :: 0 <= m < j ==> !events[m].Cancels()
  }

  /** How often the steps were registered after a cancellation. */
  function Late(events: seq<Event>, id: nat): nat
  {
    if events == [] then 0 else
      var before, last := events[..|events| - 1], events[|events| - 1];
      Late(before, id) + Bit(last == Register(id) && Canceled(before))
  }

  predicate Waiting(events: seq<Event>, id: nat)
  {
    !Canceled(events) && exists i :: 0 <= i < |events| && Held(events, id, i, |events|)
  }

  lemma {:induction false} DroppedCount(steps: seq<nat>, id: nat, other: nat)
    ensures multiset(Dropped(steps, id))[other] == if other == id then 0 else multiset(steps)[other]
  {
    if steps != [] {
      assert steps == [steps[0]] + steps[1..];
      DroppedCount(steps[1..], id, other);
    }
  }

  function Bit(b: bool): nat { if b then 1 else 0 }

  lemma CanceledSnoc(events: seq<Event>, last: Event)
    ensures Canceled(events + [last]) <==> Canceled(events) || last.Cancels()
  {
    var all := events + [last];
    if Canceled(events) {
      var i :| 0 <= i < |events| && events[i].Cancels();
      assert all[i].Cancels();
    }
    if last.Cancels() { assert all[|events|].Cancels(); }
  }

  lemma WaitingSnoc(events: seq<Event>, last: Event, id: nat)
    ensures Waiting(events + [last], id) <==>
      !last.Cancels() && !Canceled(events) && (last == Register(id) || (Waiting(events, id) && last != Remove(id)))
  {
    var all := events + [last];
    CanceledSnoc(events, last);
    if Waiting(all, id) {
      var i :| 0 <= i < |all| && Held(all, id, i, |all|);
      if i < |events| {
        assert Held(events, id, i, |events|) by { assert forall m :: i < m < |events| ==> all[m] == events[m]; }
        assert all[|events|] == last;
      }
    }
    if last == Register(id) { assert Held(all, id, |events|, |all|); }
    if Waiting(events, id) && last != Remove(id) {
      var i :| 0 <= i < |events| && Held(events, id, i, |events|);
      assert Held(all, id, i, |all|);
    }
  }

  lemma DueSnoc(events: seq<Event>, last: Event, id: nat)
    ensures Due(events + [last], id) <==>
      Due(events, id) || (last == Register(id) && Canceled(events)) ||
      (last.Cancels() && (Waiting(events, id) || Due(events, id)))
  {
    var all := events + [last];
    assert forall m :: 0 <= m < |events| ==> all[m] == events[m];
    if i, j :| 0 <= i < j < |all| && all[j].Cancels() && Held(all, id, i, j) {
      assert Held(events, id, i, j);
      if j == |events| && Canceled(events) {
        var k :| 0 <= k < |events| && events[k].Cancels();
        if i < k { assert Held(events, id, i, k); } else { assert events[i] == Register(id); }
      } else if j == |events| {
        assert Held(events, id, i, |events|);
      }
    }
    if i, j :| 0 <= j < i < |all| && all[j].Cancels() && all[i] == Register(id) {
      if i == |events| { assert events[j].Cancels(); } else { assert events[j].Cancels() && events[i] == Register(id); }
    }
    if Due(events, id) {
      if i, j :| 0 <= i < j < |events| && events[j].Cancels() && Held(events, id, i, j) {
        assert all[j].Cancels() && Held(all, id, i, j);
      } else {
        var i, j :| 0 <= j < i < |events| && events[j].Cancels() && events[i] == Register(id);
        assert all[j].Cancels() && all[i] == Register(id);
      }
    }
    if last == Register(id) && Canceled(events) {
      var j :| 0 <= j < |events| && events[j].Cancels();
      assert all[j].Cancels() && all[|events|] == Register(id);
    }
    if last.Cancels() && Waiting(events, id) {
      var i :| 0 <= i < |events| && Held(events, id, i, |events|);
      assert all[|events|].Cancels() && Held(all, id, i, |events|);
    }
  }

  lemma CaughtSnoc(events: seq<Event>, last: Event, id: nat)
    ensures Caught(events + [last], id) <==> Caught(events, id) || (last.Cancels() && Waiting(events, id))
    ensures Caught(events, id) ==> Canceled(events)
    ensures Late(events + [last], id) == Late(events, id) + Bit(last == Register(id) && Canceled(events))
  {
    var all := events + [last];
    assert all[..|events|] == events && forall m :: 0 <= m < |events| ==> all[m] == events[m];
    if i, j :| 0 <= i < j < |all| && FirstCancel(all, j) && Held(all, id, i, j) {
      assert Held(events, id, i, j);
      if j < |events| { assert FirstCancel(events, j); } else { assert Held(events, id, i, |events|); }
    }
    if i, j :| 0 <= i < j < |events| && FirstCancel(events, j) && Held(events, id, i, j) {
      assert FirstCancel(all, j) && Held(all, id, i, j);
    }
    if last.Cancels() && Waiting(events, id) {
      var i :| 0 <= i < |events| && Held(events, id, i, |events|);
      assert FirstCancel(all, |events|) && Held(all, id, i, |events|);
    }
  }

  /**
   Steps are called once if they are registered at the first cancellation, and once for every registration after
   it; a canceled fetch stays so, and nothing waits in it.
   */
  lemma {:induction false} RunsExactly(events: seq<Event>, id: nat)
    ensures multiset(Run(events).ran)[id] == Bit(Caught(events, id)) + Late(events, id)
    ensures multiset(Run(events).steps)[id] == Bit(Waiting(events, id))
    ensures Run(events).phase == Ongoing <==> !Canceled(events)
  {
    if events != [] {
      var before, last := events[..|events| - 1], events[|events| - 1];
      assert events == before + [last];
      RunsExactly(before, id);
      CanceledSnoc(before, last);
      WaitingSnoc(before, last, id);
      CaughtSnoc(before, last, id);
      AfterCount(Run(before), last, id);
      LastRun(events);
    }
  }

  /** The last cancellation says how the fetch ended. */
  lemma {:induction false} LastCancelCounts(events: seq<Event>, j: nat)
    requires j < |events| && events[j].Cancels() && forall m :: j < m < |events| ==> !events[m].Cancels()
    ensures Run(events).phase == if events[j].Abort? then Aborted else Terminated
  {
    if j < |events| - 1 { LastCancelCounts(events[..|events| - 1], j); }
  }

  /** So steps that are registered once run exactly once when they are due, and never otherwise. */
  lemma RunsOnce(events: seq<Event>, id: nat)
    requires Fresh(events)
    ensures multiset(Run(events).ran)[id] == Bit(Due(events, id))
  {
    RunsExactly(events, id);
    DueOnce(events, id);
  }

  lemma {:induction false} DueOnce(events: seq<Event>, id: nat)
    requires Fresh(events)
    ensures Bit(Caught(events, id)) + Late(events, id) == Bit(Due(events, id))
  {
    if events != [] {
      var before, last := events[..|events| - 1], events[|events| - 1];
      assert events == before + [last];
      assert Fresh(before);
      DueOnce(before, id);
      CaughtSnoc(before, last, id);
      WaitingSnoc(before, last, id);
      DueSnoc(before, last, id);
      Unregistered(before, last, id);
    }
  }

  lemma LastRun(events: seq<Event>)
    requires events != []
    ensures Run(events) == Run(events[..|events| - 1]).After(events[|events| - 1])
  {
  }

  /** How one event changes what waits and what has run. */
  lemma AfterCount(s: State, event: Event, id: nat)
    ensures var next := s.After(event);
      var waiting, ran := multiset(s.steps)[id], multiset(s.ran)[id];
      multiset(next.ran)[id] ==
        ran + (if event.Cancels() then waiting else if event == Register(id) && s.phase != Ongoing then 1 else 0) &&
      multiset(next.steps)[id] ==
        (if event.Cancels() || event == Remove(id) then 0
         else if event == Register(id) && s.phase == Ongoing && waiting == 0 then 1
         else waiting) &&
      (next.phase == Ongoing <==> s.phase == Ongoing && !event.Cancels())
  {
    if event.Remove? { DroppedCount(s.steps, event.id, id); }
    assert id in s.steps <==> multiset(s.steps)[id] > 0;
  }

  /** Steps registered now were not registered before, so neither waited nor ran; waiting steps have not run. */
  lemma Unregistered(events: seq<Event>, last: Event, id: nat)
    requires Fresh(events + [last])
    ensures last == Register(id) ==> !Due(events, id) && !Waiting(events, id)
    ensures Waiting(events, id) ==> !Due(events, id)
  {
    var all := events + [last];
    assert all[|events|] == last && forall m :: 0 <= m < |events| ==> all[m] == events[m];
    if Due(events, id) { assert exists i :: 0 <= i < |events| && events[i] == Register(id); }
  }

  // ---------------------------------------------------------------------------
  // The object
  // ---------------------------------------------------------------------------

  class Controller {
    var phase: Phase
    var cancellationSteps: seq<nat>
    var ran: seq<nat>

    function Current(): State reads this { State(phase, cancellationSteps, ran) }

    constructor ()
      ensures Current() == Run([])
    {
      phase, cancellationSteps, ran := Ongoing, [], [];
    }

    method AddCancellationSteps(id: nat)
      modifies this
      ensures Current() == old(Current()).After(Register(id))
    {
      if phase != Ongoing {
        ran := ran + [id];
      } else if id !in cancellationSteps {
        cancellationSteps := cancellationSteps + [id];
      }
    }

    /** The function that `addCancellationSteps` returns. */
    method RemoveSteps(id: nat)
      modifies this
      ensures Current() == old(Current()).After(Remove(id))
    {
      cancellationSteps := Dropped(cancellationSteps, id);
    }

    method Abort()
      modifies this
      ensures Current() == old(Current()).After(Event.Abort)
    {
      phase := Aborted;
      CancelOperations();
    }

    method Terminate()
      modifies this
      ensures Current() == old(Current()).After(Event.Terminate)
    {
      phase := Terminated;
      CancelOperations();
    }

    method CancelOperations()
      modifies this`cancellationSteps, this`ran
      ensures cancellationSteps == [] && ran == old(ran) + old(cancellationSteps)
    {
      var steps := cancellationSteps;
      cancellationSteps := [];
      for i := 0 to |steps|
        invariant cancellationSteps == [] && ran == old(ran) + steps[..i]
      {
        ran := ran + [steps[i]];
      }
    }
  }
}
