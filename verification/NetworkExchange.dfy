/** The callbacks of one `httpNetworkFetch` exchange (src/fetch/fetch.ts), refining `ExchangeRun`. */
module NetworkExchange {
  import opened TransportControl
  import NB = NetworkBody
  import opened ExchangeRun

  class NetworkExchange {
    const body: NB.NetworkBody
    const flow: FlowControl
    /** The fetch controller is no longer ongoing. */
    var canceled: bool
    var discarded: bool
    /** The cancellation steps are still registered with the controller. */
    var registered: bool
    var dispatching: bool
    ghost var decoded: seq<nat>
    ghost var responded: bool

    ghost predicate Valid()
      reads this, body, flow
    {
      body.Valid() && body.control == flow
    }

    ghost function State(): Exchange
      reads this, body, flow
    {
      Exchange(body.State(), flow.State(), canceled, discarded, registered, dispatching, decoded, responded)
    }

    constructor ()
      ensures Valid() && State() == FRESH && fresh(body) && fresh(flow)
    {
      var b := new NB.NetworkBody();
      var f := new FlowControl();
      body, flow := b, f;
      canceled, discarded, registered, dispatching, decoded, responded := false, false, true, true, [], false;
      new;
      body.SetControl(flow);
    }

    /** `onHeaders` of a final response. */
    method OnHeaders(coded: bool, storable: bool)
      requires Valid() && Possible(State(), Headers(coded, storable))
      modifies flow
      ensures Valid() && State() == After(old(State()), Headers(coded, storable))
    {
      if canceled || discarded { return; }
      flow.decoder := if coded then Live(false, false) else Absent;
      flow.entry, flow.held := if storable then Writing([]) else NoEntry, storable;
    }

    /** `onData`: through the decoder, or straight to the body. */
    method OnData(bytes: seq<nat>, accepted: bool, granted: bool)
      requires Valid() && Possible(State(), WireData(bytes, accepted, granted))
      modifies this, body, flow
      ensures Valid() && State() == After(old(State()), WireData(bytes, accepted, granted))
    {
      if canceled || discarded { return; }
      if flow.decoder.Live? {
        if !accepted {
          flow.decoderBlocked := true;
          flow.control := flow.control.Pause();
        }
      } else {
        ReceiveDecoded(bytes, granted);
      }
    }

    method ReceiveDecoded(bytes: seq<nat>, granted: bool)
      requires Valid()
      modifies this, body, flow
      ensures Valid() && State() == old(State()).ReceiveDecoded(bytes, granted)
    {
      if canceled || discarded { return; }
      decoded := decoded + bytes;
      if flow.held { AppendToEntry(bytes, granted); }
      body.Receive(bytes);
    }

    /** `HTTPCacheEntry.append`, for an entry that may have been removed. */
    method AppendToEntry(bytes: seq<nat>, granted: bool)
      requires flow.held
      modifies flow`entry
      ensures flow.entry == if !old(flow.entry).Writing? then old(flow.entry)
                            else if granted then Writing(old(flow.entry).bytes + bytes) else Lost
    {
      if flow.entry.Writing? {
        flow.entry := if granted then Writing(flow.entry.bytes + bytes) else Lost;
      }
    }

    /** `onEnd` */
    method OnEnd()
      requires Valid() && Possible(State(), WireEnd)
      modifies this, body, flow
      ensures Valid() && State() == After(old(State()), WireEnd)
    {
      if !flow.decoder.Live? { EndResponse(); }
    }

    method EndResponse()
      requires Valid()
      modifies this, body, flow
      ensures Valid() && State() == old(State()).EndResponse()
    {
      if canceled || discarded { return; }
      if flow.held && flow.entry.Writing? { flow.entry := Published(flow.entry.bytes); }
      flow.held := false;
      responded := true;
      body.End();
    }

    /** The decoder's `onDrain`. */
    method OnDrain()
      requires Valid()
      modifies flow
      ensures Valid() && State() == old(State()).(flow := State().flow)
      ensures Possible(old(State()), Drain) ==> State() == After(old(State()), Drain)
    {
      flow.decoderBlocked := false;
      if !flow.outputPaused && !canceled && !discarded { flow.control := flow.control.Resume(); }
    }

    /** `onError`: terminate the controller. */
    method OnError()
      requires Valid() && Possible(State(), Failed)
      modifies this, body, flow
      ensures Valid() && State() == After(old(State()), Failed)
    {
      if !canceled && !discarded { Cancel(); }
    }

    /** The controller is aborted or terminated; the registered steps fail the body. */
    method Cancel()
      requires Valid()
      modifies this, body, flow
      ensures Valid() && State() == old(State()).Cancel()
    {
      canceled := true;
      if registered {
        registered := false;
        body.Fail();
      }
    }

    /** `response.discardBody` */
    method Discard()
      requires Valid() && Possible(State(), Discarded)
      modifies this, body, flow
      ensures Valid() && State() == After(old(State()), Discarded)
    {
      discarded := true;
      body.Fail();
    }

    /** The response stream pulls. */
    method Pull()
      requires Valid() && Possible(State(), PullStep)
      modifies body
      ensures Valid() && State() == After(old(State()), PullStep)
    {
      body.Pull();
    }

    /** A delivery task runs; a finished body unregisters the cancellation steps. */
    method RunTask(take: nat)
      requires Valid() && !dispatching && body.tasks > 0
      requires body.State().Takes() ==> 1 <= take <= body.HeadLeft()
      modifies this, body, flow
      ensures Valid() && Possible(old(State()), TaskStep(take))
      ensures State() == After(old(State()), TaskStep(take))
    {
      body.HeadFits();
      ghost var before := State();
      assert Possible(before, TaskStep(take));
      body.RunTask(take);
      assert body.State() == before.pump.Deliver(take).0;
      if body.finished { registered := false; }
    }

    /** `synchronizeControl` */
    method SynchronizeControl()
      requires Valid() && dispatching
      modifies this, flow
      ensures Valid() && State() == After(old(State()), Dispatched)
    {
      dispatching := false;
      flow.control := Live(false, false);
      if canceled || discarded {
        flow.control := flow.control.Abort();
      } else if flow.decoderBlocked || flow.outputPaused {
        flow.control := flow.control.Pause();
      }
    }

    /** Dispatch threw. */
    method DispatchThrew()
      requires Valid() && dispatching
      modifies this, body, flow
      ensures Valid() && State() == After(old(State()), DispatchFailed)
    {
      dispatching, registered := false, false;
      body.Fail();
    }
  }
}
