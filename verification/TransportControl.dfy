/**
 The flow-control closure of `httpNetworkFetch` (src/fetch/fetch.ts): the body buffer and the
 content decoder can each hold the transport back, and the transport's own control exists only
 once dispatch has returned.
 */
module TransportControl {
  import opened BodyPump

  /** A decoder or transport: absent, or present and steered through pause, resume and abort. */
  datatype Link = Absent | Live(paused: bool, aborted: bool)
  {
    function Pause(): Link { if Live? then this.(paused := true) else this }

    function Resume(): Link { if Live? then this.(paused := false) else this }

    function Abort(): Link { if Live? then this.(aborted := true) else this }
  }

  /** The exchange's own cache entry, as far as its writer can tell. */
  datatype Entry = NoEntry | Writing(bytes: seq<nat>) | Lost | Published(bytes: seq<nat>)

  /** `held` is the variable `cacheEntry`: the entry still belongs to this exchange. */
  datatype Flow = Flow(
    outputPaused: bool, decoderBlocked: bool, decoder: Link, control: Link, entry: Entry, held: bool)
  {
    /** The object handed to `NetworkBody.setControl`. */
    function Apply(signal: Signal): Flow
    {
      match signal
      case Quiet => this
      case PauseSignal => this.(outputPaused := true, decoder := decoder.Pause(), control := control.Pause())
      case ResumeSignal =>
        this.(outputPaused := false, decoder := decoder.Resume(),
              control := if decoderBlocked then control else control.Resume())
      case AbortSignal =>
        this.(entry := if held then Lost else entry, decoder := decoder.Abort(), control := control.Abort())
    }
  }

  const IDLE: Flow := Flow(false, false, Absent, Absent, NoEntry, false)

  class FlowControl {
    var outputPaused: bool
    var decoderBlocked: bool
    var decoder: Link
    var control: Link
    var entry: Entry
    var held: bool

    function State(): Flow
      reads this
    {
      Flow(outputPaused, decoderBlocked, decoder, control, entry, held)
    }

    constructor ()
      ensures State() == IDLE
    {
      outputPaused, decoderBlocked, decoder, control, entry, held := false, false, Absent, Absent, NoEntry, false;
    }

    method Pause()
      modifies this
      ensures State() == old(State()).Apply(PauseSignal)
    {
      outputPaused := true;
      decoder := decoder.Pause();
      control := control.Pause();
    }

    method Resume()
      modifies this
      ensures State() == old(State()).Apply(ResumeSignal)
    {
      outputPaused := false;
      decoder := decoder.Resume();
      if !decoderBlocked { control := control.Resume(); }
    }

    method Abort()
      modifies this
      ensures State() == old(State()).Apply(AbortSignal)
    {
      if held { entry := Lost; }
      decoder := decoder.Abort();
      control := control.Abort();
    }
  }
}
