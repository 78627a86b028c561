/**
 TextDecoder (src/encoding/text-decoder.ts): a streaming decoder behind repeated `decode`
 calls. The class runs a codec over its input queue; the lemmas relate a series of calls
 to decoding everything at once.
 */
module TextDecoder {
  import opened Prelude
  import opened Utf16
  import opened QueueSpec
  import opened IoQueue
  import opened Codec

  /** The observable state between calls; `pending` is input left unread by an error. */
  datatype DecoderState<S> = DecoderState(state: S, pending: seq<nat>, doNotFlush: bool, bomSeen: bool)
  {
    /** A decoder whose last call was not a streaming one starts afresh. */
    function Begin(codec: Codec<S>): DecoderState<S>
    {
      if doNotFlush then this else DecoderState(codec.start, [], false, false)
    }
  }

  datatype DecodeResult<T> = Decoded(text: T) | Invalid

  /** Section 7.1: serialize an I/O queue, dropping one initial byte order mark. */
  function Serialize(strips: bool, bomSeen: bool, text: seq<nat>): seq<nat>
  {
    if strips && !bomSeen && text != [] && text[0] == 0xFEFF then text[1..] else text
  }

  /** One `decode` call. `strips` is a Unicode encoding without ignoreBOM. */
  function DecodeCall<S>(codec: Codec<S>, strips: bool, d: DecoderState<S>, bytes: seq<nat>, stream: bool)
    : (DecoderState<S>, DecodeResult<seq<nat>>)
  {
    var before := d.Begin(codec);
    var call := Run(codec, before.state, before.pending + bytes, !stream);
    var after := DecoderState(call.state, call.unread, stream, before.bomSeen);
    if call.outcome == Failed then (after, Invalid)
    else
      (after.(bomSeen := before.bomSeen || (strips && call.output != [])),
       Decoded(Serialize(strips, before.bomSeen, call.output)))
  }

  /** Streaming calls on each of `chunks`, then a final call on `last`; Invalid as soon as one throws. */
  function Series<S>(codec: Codec<S>, strips: bool, d: DecoderState<S>, chunks: seq<seq<nat>>, last: seq<nat>)
    : DecodeResult<seq<nat>>
    decreases |chunks|
  {
    if chunks == [] then DecodeCall(codec, strips, d, last, false).1 else
      var (after, first) := DecodeCall(codec, strips, d, chunks[0], true);
      if first.Invalid? then Invalid else
        match Series(codec, strips, after, chunks[1..], last)
        case Invalid => Invalid
        case Decoded(rest) => Decoded(first.text + rest)
  }

  /**
   In mid-stream, what the remaining calls return, or throw, is what one call on the joined rest does, after the
   bytes that an error in an earlier call left unread.
   */
  lemma {:induction false} SeriesIsRun<S>(
    codec: Codec<S>, strips: bool, d: DecoderState<S>, chunks: seq<seq<nat>>, last: seq<nat>)
    requires d == d.Begin(codec)
    ensures var call := Run(codec, d.state, d.pending + Concat(chunks) + last, true);
            Series(codec, strips, d, chunks, last) ==
            if call.outcome == Failed then Invalid else Decoded(Serialize(strips, d.bomSeen, call.output))
    decreases |chunks|
  {
    hide Run;
    if chunks == [] {
      assert d.pending + [] + last == d.pending + last;
    } else {
      var bytes, later := d.pending + chunks[0], Concat(chunks[1..]) + last;
      var first := Feed(codec, d.state, bytes);
      assert d.pending + Concat(chunks) + last == bytes + later by {
        Regroup(d.pending, chunks[0], Concat(chunks[1..]), last);
      }
      var (after, text) := DecodeCall(codec, strips, d, chunks[0], true);
      if first.Drained? {
        RunSplit(codec, d.state, bytes, later, true);
        RunOpen(codec, d.state, bytes);
        SeriesIsRun(codec, strips, after, chunks[1..], last);
        assert [] + Concat(chunks[1..]) == Concat(chunks[1..]);
        SerializeSplit(strips, d.bomSeen, first.output, Run(codec, first.state, later, true).output);
      } else {
        RunStopped(codec, d.state, bytes, later, true);
        RunStopped(codec, d.state, bytes, later, false);
      }
    }
  }

  lemma Regroup(a: seq<nat>, b: seq<nat>, c: seq<nat>, d: seq<nat>)
    ensures a + (b + c) + d == (a + b) + (c + d)
  {
  }

  lemma RunOpen<S>(codec: Codec<S>, state: S, items: seq<nat>)
    requires Feed(codec, state, items).Drained?
    ensures Run(codec, state, items, false) ==
      Call(Suspended, Feed(codec, state, items).state, Feed(codec, state, items).output, [])
  {
  }

  lemma SerializeSplit(strips: bool, bomSeen: bool, a: seq<nat>, b: seq<nat>)
    ensures Serialize(strips, bomSeen, a) + Serialize(strips, bomSeen || (strips && a != []), b)
            == Serialize(strips, bomSeen, a + b)
  {
    if a == [] {
      assert a + b == b;
    } else {
      assert (a + b)[1..] == a[1..] + b;
    }
  }

  /**
   A new decoder, or one whose last call flushed: streaming calls and a final call together
   return what a single call on the joined bytes returns, and throw exactly when it throws.
   */
  lemma StreamingIsComplete<S>(
    codec: Codec<S>, strips: bool, d: DecoderState<S>, chunks: seq<seq<nat>>, last: seq<nat>)
    requires !d.doNotFlush
    ensures Series(codec, strips, d, chunks, last) == DecodeCall(codec, strips, d, Concat(chunks) + last, false).1
  {
    var begun := d.Begin(codec);
    FirstCallFlushes(codec, strips, d, chunks, last);
    SeriesIsRun(codec, strips, begun.(doNotFlush := true), chunks, last);
    assert [] + (Concat(chunks) + last) == Concat(chunks) + last == [] + Concat(chunks) + last;
  }

  lemma FirstCallFlushes<S>(
    codec: Codec<S>, strips: bool, d: DecoderState<S>, chunks: seq<seq<nat>>, last: seq<nat>)
    requires !d.doNotFlush
    ensures Series(codec, strips, d, chunks, last)
            == Series(codec, strips, d.Begin(codec).(doNotFlush := true), chunks, last)
  {
  }

  /** A codec in replacement mode: no step fails. */
  ghost predicate Replaces<S(!new)>(codec: Codec<S>)
  {
    (forall s: S, i: nat :: codec.step(s, i).Emit?) && forall s: S :: codec.finish(s).Emit?
  }

  lemma {:induction false} ReplacesNeverStops<S(!new)>(codec: Codec<S>, state: S, items: seq<nat>)
    requires Replaces(codec)
    ensures Feed(codec, state, items).Drained?
    decreases |items|
  {
    if items != [] { ReplacesNeverStops(codec, codec.step(state, items[0]).state, items[1..]); }
  }

  /** In replacement mode nothing throws, and at most the very first scalar value of the stream is dropped. */
  lemma ReplacementSeries<S(!new)>(
    codec: Codec<S>, strips: bool, d: DecoderState<S>, chunks: seq<seq<nat>>, last: seq<nat>)
    requires !d.doNotFlush && Replaces(codec)
    ensures var decoded := Whole(codec, Concat(chunks) + last).output;
            Series(codec, strips, d, chunks, last) ==
            Decoded(if strips && decoded != [] && decoded[0] == 0xFEFF then decoded[1..] else decoded)
  {
    StreamingIsComplete(codec, strips, d, chunks, last);
    ReplacesNeverStops(codec, codec.start, Concat(chunks) + last);
    assert [] + (Concat(chunks) + last) == Concat(chunks) + last;
  }

  // ---------------------------------------------------------------------------
  // The decoder object
  // ---------------------------------------------------------------------------

  /** A byte decoder: it emits scalar values, and gives back nothing but bytes. */
  ghost predicate ByteCodec<S(!new)>(codec: Codec<S>)
  {
    && (forall s: S, b: nat :: b < 256 ==> ProperStep(codec.step(s, b)))
    && (forall s: S :: ProperStep(codec.finish(s)))
  }

  predicate ProperStep<S>(step: Step<S>)
  {
    AllScalars(step.output) && (step.Fail? ==> AllBytes(step.restored))
  }

  function ByteChunk(bytes: seq<nat>): (c: Chunk)
    requires AllBytes(bytes)
    ensures c.Bytes? && WholeFrom(c, 0) && Items(c) == bytes
  {
    var data := seq(|bytes|, i requires 0 <= i < |bytes| => bytes[i] as Unit);
    var c := Bytes(data);
    ByteItems(c, 0);
    WholeBytes(c, 0);
    c
  }

  function TextChunk(points: seq<nat>): (c: Chunk)
    requires AllScalars(points)
    ensures c.Text? && WholeFrom(c, 0) && Items(c) == points
  {
    var c := Text(FromScalars(points));
    assert c.data[0..] == c.data;
    WholeText(c, 0);
    TextItems(c, 0);
    c
  }

  /** A codec instance: its retained state, and the loop around its item handler. */
  class Decoder<S(!new)> {
    const codec: Codec<S>
    var state: S

    constructor (codec: Codec<S>)
      ensures this.codec == codec && state == codec.start
    {
      this.codec, state := codec, codec.start;
    }

    /** Drain the input into the output; stop at an error, giving the unread items back. */
    method Decode(input: IOQueue, output: IOQueue) returns (outcome: Outcome)
      requires ByteCodec(codec) && input.Valid() && !input.text && output.Valid() && output.text
      requires input.Repr !! output.Repr
      modifies this, input, input.Repr, output, output.Repr
      ensures input.Valid() && input.ended == old(input.ended) && output.Valid()
      ensures fresh(input.Repr - old(input.Repr)) && fresh(output.Repr - old(output.Repr)) && input.Repr !! output.Repr
      ensures var call := Run(codec, old(state), old(input.State()).items, input.ended);
        outcome == call.outcome && state == call.state && input.State().items == call.unread &&
        output.State().items == old(output.State()).items + call.output
      ensures output.ended == (old(output.ended) || outcome == Finished)
    {
      hide Run, IOQueue.Valid, IOQueue.State, Continues;
      ghost var whole := Run(codec, state, input.State().items, input.ended);
      ghost var written, more := [], [];
      var stop := None;
      ContinuesFirst(codec, state, input.State().items, input.ended);
      while stop.None?
        invariant input.Valid() && input.ended == old(input.ended) && output.Valid()
        invariant fresh(input.Repr - old(input.Repr)) && fresh(output.Repr - old(output.Repr))
        invariant input.Repr !! output.Repr
        invariant output.State().items == old(output.State()).items + written
        invariant output.ended == (old(output.ended) || stop == Some(Finished))
        invariant Continues(whole, codec, state, written, stop, input.State().items, input.ended)
        decreases stop.None?, |input.State().items|
      {
        ghost var s, items := state, input.State().items;
        stop, more := Handle(input, output);
        ContinuesOn(whole, codec, s, written, items, state, more, stop, input.State().items, input.ended);
        written := written + more;
      }
      outcome := stop.value;
      ContinuesLast(whole, codec, state, written, outcome, input.State().items, input.ended);
    }

    /** One round of the queue-processing loop: read an item, or the end, and handle it. */
    method Handle(input: IOQueue, output: IOQueue) returns (stop: Option<Outcome>, ghost written: seq<nat>)
      requires ByteCodec(codec) && input.Valid() && !input.text && output.Valid() && output.text
      requires input.Repr !! output.Repr
      modifies this, input, input.Repr, output, output.Repr
      ensures input.Valid() && input.ended == old(input.ended) && output.Valid()
      ensures fresh(input.Repr - old(input.Repr)) && fresh(output.Repr - old(output.Repr)) && input.Repr !! output.Repr
      ensures output.State().items == old(output.State()).items + written
      ensures output.ended == (old(output.ended) || stop == Some(Finished))
      ensures stop.None? ==> |input.State().items| < |old(input.State()).items|
      ensures Continues(Run(codec, old(state), old(input.State()).items, input.ended),
        codec, state, written, stop, input.State().items, input.ended)
    {
      hide Run, IOQueue.Valid;
      ghost var items := input.State().items;
      if items == [] { RunEmpty(codec, state, input.ended); } else { RunStep(codec, state, items, input.ended); }
      var item := input.ReadAvailable();
      if item.Waiting? { return Some(Suspended), []; }
      var step := if item.Item? then codec.step(state, item.value) else codec.finish(state);
      assert ProperStep(step);
      state, written := step.state, step.output;
      PushPoints(output, step.output);
      stop := None;
      if step.Fail? {
        GiveBack(input, step.restored);
        stop := Some(Failed);
      } else if !item.Item? {
        output.PushEnd();
        stop := Some(Finished);
      }
    }
  }

  /** `written` is written, and the rest of the call is still to do unless it has stopped. */
  predicate Continues<S(==)>(
    whole: Call<S>, codec: Codec<S>, s: S, written: seq<nat>, stop: Option<Outcome>, items: seq<nat>, ended: bool)
  {
    if stop.Some? then whole == Call(stop.value, s, written, items)
    else
      var rest := Run(codec, s, items, ended);
      whole == rest.(output := written + rest.output)
  }

  lemma ContinuesFirst<S>(codec: Codec<S>, s: S, items: seq<nat>, ended: bool)
    ensures Continues(Run(codec, s, items, ended), codec, s, [], None, items, ended)
  {
    hide Run;
    var output := Run(codec, s, items, ended).output;
    assert [] + output == output;
  }

  lemma ContinuesOn<S>(
    whole: Call<S>, codec: Codec<S>, s: S, written: seq<nat>, items: seq<nat>,
    next: S, more: seq<nat>, stop: Option<Outcome>, left: seq<nat>, ended: bool)
    requires Continues(whole, codec, s, written, None, items, ended)
    requires Continues(Run(codec, s, items, ended), codec, next, more, stop, left, ended)
    ensures Continues(whole, codec, next, written + more, stop, left, ended)
  {
    hide Run;
    var output := Run(codec, next, left, ended).output;
    assert written + (more + output) == written + more + output;
  }

  lemma ContinuesLast<S>(
    whole: Call<S>, codec: Codec<S>, s: S, written: seq<nat>, outcome: Outcome, items: seq<nat>, ended: bool)
    requires Continues(whole, codec, s, written, Some(outcome), items, ended)
    ensures whole == Call(outcome, s, written, items)
  {
  }

  method PushPoints(output: IOQueue, points: seq<nat>)
    requires output.Valid() && output.text && AllScalars(points)
    modifies output, output.Repr
    ensures output.Valid() && output.ended == old(output.ended) && fresh(output.Repr - old(output.Repr))
    ensures output.State().items == old(output.State()).items + points
  {
    output.Push(TextChunk(points));
  }

  lemma RunEmpty<S>(codec: Codec<S>, state: S, ended: bool)
    ensures Run(codec, state, [], ended) ==
      if !ended then Call(Suspended, state, [], [])
      else match codec.finish(state)
        case Emit(s, output) => Call(Finished, s, output, [])
        case Fail(s, output, restored) => Call(Failed, s, output, restored)
  {
  }

  method GiveBack(input: IOQueue, bytes: seq<nat>)
    requires input.Valid() && !input.text && AllBytes(bytes)
    modifies input
    ensures input.Valid() && input.ended == old(input.ended) && fresh(input.Repr - old(input.Repr))
    ensures input.State().items == bytes + old(input.State()).items
  {
    input.Restore(ByteChunk(bytes));
  }

  method PushBytes(input: IOQueue, bytes: seq<nat>, last: bool)
    requires input.Valid() && !input.text && !input.ended && AllBytes(bytes)
    modifies input, input.Repr
    ensures input.Valid() && input.ended == last && fresh(input.Repr - old(input.Repr))
    ensures input.State().items == old(input.State()).items + bytes
  {
    input.Push(ByteChunk(bytes));
    if last { input.PushEnd(); }
  }

  lemma DropFirstUnit(text: seq<Unit>)
    requires WellFormed(text) && text != []
    ensures text[0] == 0xFEFF <==> CodePoints(text)[0] == 0xFEFF
    ensures text[0] == 0xFEFF ==> WellFormed(text[1..]) && CodePoints(text[1..]) == CodePoints(text)[1..]
  {
  }

  /** `strips` stands for a Unicode encoding used without ignoreBOM. */
  class TextDecoderCommon<S(!new)> {
    const codec: Codec<S>
    const strips: bool
    var decoder: Decoder?<S>
    var input: IOQueue?
    var doNotFlush: bool
    var bomSeen: bool

    ghost function Repr(): set<object>
      reads this, input
    {
      {this} + (if decoder != null then {decoder} else {}) + (if input != null then {input} + input.Repr else {})
    }

    ghost predicate Valid()
      reads this, decoder, input, if input != null then input.Repr else {}
    {
      && ByteCodec(codec)
      && (doNotFlush ==> decoder != null && input != null && !input.ended)
      && (decoder != null ==> decoder.codec == codec)
      && (input != null ==> input.Valid() && !input.text)
    }

    ghost function State(): DecoderState<S>
      reads this, decoder, input
    {
      DecoderState(
        if decoder == null then codec.start else decoder.state,
        if input == null then [] else input.State().items,
        doNotFlush, bomSeen)
    }

    constructor (codec: Codec<S>, strips: bool)
      requires ByteCodec(codec)
      ensures Valid() && this.codec == codec && this.strips == strips && fresh(Repr())
      ensures State() == DecoderState(codec.start, [], false, false)
    {
      this.codec, this.strips := codec, strips;
      decoder, input, doNotFlush, bomSeen := null, null, false, false;
    }

    /** Start afresh unless the last call was a streaming one. */
    method Reset()
      requires Valid()
      modifies this
      ensures Valid() && fresh(Repr() - old(Repr())) && decoder != null && input != null
      ensures !input.ended && State() == old(State()).Begin(codec) && doNotFlush == old(doNotFlush)
    {
      if !doNotFlush {
        decoder := new Decoder(codec);
        input := new IOQueue(false);
        bomSeen := false;
      }
    }

    /** Give the input queue the bytes of this call, and the end when no more will follow. */
    method Supply(bytes: seq<nat>, stream: bool)
      requires Valid() && decoder != null && input != null && !input.ended
      requires AllBytes(bytes)
      modifies `doNotFlush, input, input.Repr
      ensures Valid() && input.ended == !stream && doNotFlush == stream
      ensures fresh(input.Repr - old(input.Repr))
      ensures input.State().items == old(input.State()).items + bytes
    {
      doNotFlush := stream;
      PushBytes(input, bytes, !stream);
    }

    /** `decode`: the bytes of this call, and whether more will follow. */
    method Decode(bytes: seq<nat>, stream: bool) returns (r: DecodeResult<seq<Unit>>)
      requires Valid() && AllBytes(bytes)
      modifies Repr()
      ensures Valid() && fresh(Repr() - old(Repr()))
      ensures var (after, text) := DecodeCall(codec, strips, old(State()), bytes, stream);
        && State() == after
        && match r
           case Invalid => text.Invalid?
           case Decoded(units) => WellFormed(units) && text == Decoded(CodePoints(units))
    {
      hide Run, IOQueue.Valid, IOQueue.State;
      var outcome, output := Drain(bytes, stream);
      if outcome == Failed { return Invalid; }
      var text := SerializeQueue(output);
      r := Decoded(text);
    }

    /** The call up to its output queue: reset, supply the bytes, run the decoder. */
    method Drain(bytes: seq<nat>, stream: bool) returns (outcome: Outcome, output: IOQueue)
      requires Valid() && AllBytes(bytes)
      modifies Repr()
      ensures Valid() && fresh(Repr() - old(Repr())) && doNotFlush == stream
      ensures fresh(output) && output.Valid() && output.text && output.ended == (outcome == Finished)
      ensures var before := old(State()).Begin(codec);
        && bomSeen == before.bomSeen
        && Call(outcome, State().state, output.State().items, State().pending)
           == Run(codec, before.state, before.pending + bytes, !stream)
    {
      hide Run, IOQueue.Valid, IOQueue.State;
      Reset();
      Supply(bytes, stream);
      outcome, output := Process();
    }

    /** Run the decoder over the input queue, into a new output queue. */
    method Process() returns (outcome: Outcome, output: IOQueue)
      requires Valid() && decoder != null && input != null && (doNotFlush ==> !input.ended)
      modifies decoder, input, input.Repr
      ensures Valid() && input.ended == old(input.ended) && fresh(input.Repr - old(input.Repr))
      ensures fresh(output) && output.Valid() && output.text && output.ended == (outcome == Finished)
      ensures Call(outcome, State().state, output.State().items, State().pending)
              == Run(codec, old(State()).state, old(State()).pending, input.ended)
    {
      hide Run, IOQueue.Valid;
      output := new IOQueue(true);
      ghost var written := Run(codec, decoder.state, input.State().items, input.ended).output;
      outcome := decoder.Decode(input, output);
      assert [] + written == written;
    }

    /** `#serialize` */
    method SerializeQueue(output: IOQueue) returns (text: seq<Unit>)
      requires output.Valid() && output.text
      modifies `bomSeen, output
      ensures WellFormed(text) && CodePoints(text) == Serialize(strips, old(bomSeen), old(output.State()).items)
      ensures bomSeen == (old(bomSeen) || (strips && old(output.State()).items != []))
    {
      hide IOQueue.Valid;
      text := output.TakeString();
      if strips && !bomSeen && text != [] {
        bomSeen := true;
        DropFirstUnit(text);
        if text[0] == 0xFEFF { return text[1..]; }
      }
    }
  }
}
