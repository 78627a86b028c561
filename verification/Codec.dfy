/**
 A codec as the queue operations of src/encoding see it: a deterministic fold over
 items with retained state, which may stop at an error and give items back.
 */
module Codec {
  datatype Step<S> =
    | Emit(state: S, output: seq<nat>)
    | Fail(state: S, output: seq<nat>, restored: seq<nat>)

  datatype Codec<!S> = Codec(start: S, step: (S, nat) -> Step<S>, finish: S -> Step<S>)

  /** What draining some items leaves behind. */
  datatype Fed<S> =
    | Drained(state: S, output: seq<nat>)
    | Stopped(state: S, output: seq<nat>, unread: seq<nat>)
  {
    function After(before: seq<nat>): Fed<S>
    {
      match this
      case Drained(s, o) => Drained(s, before + o)
      case Stopped(s, o, u) => Stopped(s, before + o, u)
    }
  }

  function Feed<S>(codec: Codec<S>, state: S, items: seq<nat>): Fed<S>
    decreases |items|
  {
    if items == [] then Drained(state, []) else
      match codec.step(state, items[0])
      case Emit(s, output) => Feed(codec, s, items[1..]).After(output)
      case Fail(s, output, restored) => Stopped(s, output, restored + items[1..])
  }

  /** Draining in two goes, the second starting from the retained state. */
  function Then<S>(codec: Codec<S>, first: Fed<S>, items: seq<nat>): Fed<S>
  {
    match first
    case Drained(s, output) => Feed(codec, s, items).After(output)
    case Stopped(s, output, unread) => Stopped(s, output, unread + items)
  }

  lemma {:induction false} FeedSplit<S>(codec: Codec<S>, state: S, a: seq<nat>, b: seq<nat>)
    ensures Feed(codec, state, a + b) == Then(codec, Feed(codec, state, a), b)
    decreases |a|
  {
    if a == [] {
      assert a + b == b;
      AfterNothing(Feed(codec, state, b));
    } else {
      assert (a + b)[1..] == a[1..] + b;
      match codec.step(state, a[0])
      case Emit(s, output) =>
        FeedSplit(codec, s, a[1..], b);
        if Feed(codec, s, a[1..]).Drained? {
          AfterAfter(Feed(codec, Feed(codec, s, a[1..]).state, b), output, Feed(codec, s, a[1..]).output);
        }
      case Fail(s, output, restored) =>
        assert restored + (a[1..] + b) == restored + a[1..] + b;
    }
  }

  lemma AfterNothing<S>(f: Fed<S>)
    ensures f.After([]) == f
  {
    assert [] + f.output == f.output;
  }

  lemma AfterAfter<S>(f: Fed<S>, a: seq<nat>, b: seq<nat>)
    ensures f.After(b).After(a) == f.After(a + b)
  {
    assert a + (b + f.output) == a + b + f.output;
  }

  /** The status of one synchronous codec call. */
  datatype Outcome = Finished | Suspended | Failed

  datatype Call<S> = Call(outcome: Outcome, state: S, output: seq<nat>, unread: seq<nat>)

  /** One call of a decoder on a queue holding `items`, ended or still open. */
  function Run<S>(codec: Codec<S>, state: S, items: seq<nat>, ended: bool): Call<S>
  {
    match Feed(codec, state, items)
    case Stopped(s, output, unread) => Call(Failed, s, output, unread)
    case Drained(s, output) =>
      if !ended then Call(Suspended, s, output, [])
      else match codec.finish(s)
        case Emit(s', tail) => Call(Finished, s', output + tail, [])
        case Fail(s', tail, restored) => Call(Failed, s', output + tail, restored)
  }

  /** A call on the rest of an input does what is left of the call on all of it. */
  lemma RunSplit<S>(codec: Codec<S>, state: S, a: seq<nat>, b: seq<nat>, ended: bool)
    requires Feed(codec, state, a).Drained?
    ensures var first := Feed(codec, state, a);
            var rest := Run(codec, first.state, b, ended);
            Run(codec, state, a + b, ended) == rest.(output := first.output + rest.output)
  {
    FeedSplit(codec, state, a, b);
    var first := Feed(codec, state, a);
    var rest := Feed(codec, first.state, b);
    if rest.Drained? && ended {
      var tail := codec.finish(rest.state).output;
      assert first.output + rest.output + tail == first.output + (rest.output + tail);
    }
  }

  /** Once a call has stopped at an error, further input only follows what it left unread. */
  lemma RunStopped<S>(codec: Codec<S>, state: S, a: seq<nat>, b: seq<nat>, ended: bool)
    requires Feed(codec, state, a).Stopped?
    ensures Run(codec, state, a, ended).outcome == Failed
    ensures Run(codec, state, a + b, ended) ==
            Run(codec, state, a, ended).(unread := Run(codec, state, a, ended).unread + b)
  {
    FeedSplit(codec, state, a, b);
  }

  /** A call handles its first item, then goes on with the others. */
  lemma RunStep<S>(codec: Codec<S>, state: S, items: seq<nat>, ended: bool)
    requires items != []
    ensures Run(codec, state, items, ended) ==
      match codec.step(state, items[0])
      case Emit(s, output) =>
        var rest := Run(codec, s, items[1..], ended);
        rest.(output := output + rest.output)
      case Fail(s, output, restored) => Call(Failed, s, output, restored + items[1..])
  {
    var step := codec.step(state, items[0]);
    if step.Emit? && ended {
      var rest := Feed(codec, step.state, items[1..]);
      if rest.Drained? {
        var tail := codec.finish(rest.state).output;
        assert step.output + rest.output + tail == step.output + (rest.output + tail);
      }
    }
  }

  /** Decoding a complete input in one go. */
  function Whole<S>(codec: Codec<S>, input: seq<nat>): Call<S>
  {
    Run(codec, codec.start, input, true)
  }
}
