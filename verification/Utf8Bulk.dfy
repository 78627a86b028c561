/**
 The UTF-8 decoder on its queues (src/encoding/codecs/utf-8.ts): the middle of a chunk goes to the platform's
 decoder of complete input, only the edges to the byte handler.
 */
module Utf8Bulk {
  import opened Prelude
  import opened Utf16
  import opened QueueSpec
  import opened IoQueue
  import opened Codec
  import opened Utf8
  import TextDecoder

  predicate IsContinuation(b: nat) { 0x80 <= b <= 0xBF }

  /** The length of the sequence that a byte starts. */
  function SequenceLength(b: nat): nat
  {
    if 0xC2 <= b <= 0xDF then 2 else if 0xE0 <= b <= 0xEF then 3 else if 0xF0 <= b <= 0xF4 then 4 else 1
  }

  function StateAfter(bytes: seq<nat>): Utf8State { Feed(Decoder(false), INITIAL, bytes).state }

  /** The last `k` bytes are continuations. */
  predicate ContinuesFor(bytes: seq<nat>, k: nat)
  {
    k <= |bytes| && forall i :: |bytes| - k <= i < |bytes| ==> IsContinuation(bytes[i])
  }

  /** The bytes end in a sequence of which one byte and `k` continuations are there, and more are missing. */
  predicate EndsOpen(bytes: seq<nat>, k: nat)
  {
    k < |bytes| && ContinuesFor(bytes, k) && SequenceLength(bytes[|bytes| - 1 - k]) > k + 1
  }

  /** Between sequences, or inside the one that the bytes end in. */
  predicate Follows(s: Utf8State, bytes: seq<nat>)
  {
    s == INITIAL ||
    (s.seen < s.needed <= 3 && 0x80 <= s.lower && s.upper <= 0xBF && EndsOpen(bytes, s.seen) &&
      SequenceLength(bytes[|bytes| - 1 - s.seen]) == s.needed + 1)
  }

  lemma {:induction false} StateFollows(bytes: seq<nat>)
    ensures Feed(Decoder(false), INITIAL, bytes).Drained? && Follows(StateAfter(bytes), bytes)
    decreases |bytes|
  {
    if bytes != [] {
      var n := |bytes| - 1;
      var before, last := bytes[..n], bytes[n];
      StateFollows(before);
      assert bytes == before + [last] && [last] == [last] + [];
      FeedSplit(Decoder(false), INITIAL, before, [last]);
      FeedByte(false, StateAfter(before), last, []);
      HandleFollows(StateAfter(before), before, last);
    }
  }

  lemma HandleFollows(s: Utf8State, before: seq<nat>, b: nat)
    requires Follows(s, before)
    ensures Handle(false, s, b).Emit? && Follows(Handle(false, s, b).state, before + [b])
  {
    var bytes := before + [b];
    assert bytes[|bytes| - 1] == b;
    if s != INITIAL && s.lower <= b <= s.upper && s.seen + 1 < s.needed {
      assert ContinuesFor(bytes, s.seen + 1);
      assert bytes[|bytes| - 2 - s.seen] == before[|before| - 1 - s.seen];
    }
  }

  /**
   A byte that continues nothing, or the end of a sequence, is a place where complete input may be cut: the
   platform replaces a truncated sequence just as the next byte would have made the handler do.
   */
  lemma CutJoins(x: seq<nat>, y: seq<nat>)
    requires StateAfter(x) == INITIAL || (y != [] && !IsContinuation(y[0]))
    ensures Feed(Decoder(false), INITIAL, x + y) ==
      Feed(Decoder(false), INITIAL, y).After(Whole(Decoder(false), x).output)
  {
    hide Feed, Handle;
    StateFollows(x);
    FeedSplit(Decoder(false), INITIAL, x, y);
    var s, output := StateAfter(x), Feed(Decoder(false), INITIAL, x).output;
    if s == INITIAL {
      assert output + [] == output;
    } else {
      Interrupted(s, y);
      AfterAfter(Feed(Decoder(false), INITIAL, y), output, [REPLACEMENT]);
    }
  }

  /** A byte that cannot continue a sequence replaces it, and is handled afresh. */
  lemma Interrupted(s: Utf8State, y: seq<nat>)
    requires s.needed > 0 && 0x80 <= s.lower && s.upper <= 0xBF && y != [] && !IsContinuation(y[0])
    ensures Feed(Decoder(false), s, y) == Feed(Decoder(false), INITIAL, y).After([REPLACEMENT])
  {
    hide Feed;
    assert y == [y[0]] + y[1..];
    FeedByte(false, s, y[0], y[1..]);
    FeedByte(false, INITIAL, y[0], y[1..]);
    AfterAfter(Feed(Decoder(false), Lead(y[0]).state, y[1..]), [REPLACEMENT], Lead(y[0]).output);
  }

  // ---------------------------------------------------------------------------
  // The end of the complete middle
  // ---------------------------------------------------------------------------

  /** A complete middle may end here. */
  predicate CompleteAt(chunk: seq<nat>, end: nat)
  {
    end <= |chunk| &&
    if end == |chunk| then forall k :: 0 <= k < 3 ==> !EndsOpen(chunk, k) else !IsContinuation(chunk[end])
  }

  /** `completeUTF8Prefix`: the whole chunk if it ends in no open sequence, else up to the start of that one. */
  method CompletePrefix(bytes: seq<nat>) returns (prefix: nat)
    requires bytes != []
    ensures prefix <= |bytes| && CompleteAt(bytes, prefix)
    ensures prefix == |bytes| <==> forall k :: 0 <= k < 3 ==> !EndsOpen(bytes, k)
    ensures prefix < |bytes| ==> EndsOpen(bytes, |bytes| - 1 - prefix)
  {
    var end := |bytes|;
    var start := end - 1;
    var first := if end >= 4 then end - 4 else 0;
    while start > first && IsContinuation(bytes[start])
      invariant first <= start < end && ContinuesFor(bytes, end - 1 - start)
    {
      start := start - 1;
    }
    OpenOnce(bytes, end - 1 - start);
    prefix := if end - start < SequenceLength(bytes[start]) then start else end;
  }

  /** Only the last byte that is no continuation can start an open sequence. */
  lemma OpenOnce(bytes: seq<nat>, k: nat)
    requires k < |bytes| && k <= 3 && ContinuesFor(bytes, k)
    requires k == 3 || k == |bytes| - 1 || !IsContinuation(bytes[|bytes| - 1 - k])
    ensures (exists i :: 0 <= i < 3 && EndsOpen(bytes, i)) <==> EndsOpen(bytes, k)
  {
    forall i: nat | i < 3 && EndsOpen(bytes, i) ensures i == k {
      assert i < k ==> IsContinuation(bytes[|bytes| - 1 - i]);
    }
  }

  /** A suffix of a chunk that ends in no open sequence leaves the handler between sequences. */
  lemma SuffixComplete(bytes: seq<nat>, from: nat)
    requires from <= |bytes| && forall k :: 0 <= k < 3 ==> !EndsOpen(bytes, k)
    ensures StateAfter(bytes[from..]) == INITIAL
  {
    var suffix := bytes[from..];
    StateFollows(suffix);
    var s := StateAfter(suffix);
    if s != INITIAL { SuffixOpen(bytes, from, s.seen); }
  }

  lemma SuffixOpen(bytes: seq<nat>, from: nat, k: nat)
    requires from <= |bytes| && EndsOpen(bytes[from..], k)
    ensures EndsOpen(bytes, k)
  {
    var suffix := bytes[from..];
    assert forall i :: |bytes| - k <= i < |bytes| ==> bytes[i] == suffix[i - from];
  }

  // ---------------------------------------------------------------------------
  // Both error modes
  // ---------------------------------------------------------------------------

  /** Without an error the modes agree. */
  lemma {:induction false} ModesAgree(s: Utf8State, bytes: seq<nat>)
    requires Feed(Decoder(true), s, bytes).Drained?
    ensures Feed(Decoder(false), s, bytes) == Feed(Decoder(true), s, bytes)
    decreases |bytes|
  {
    if bytes != [] { ModesAgree(Handle(true, s, bytes[0]).state, bytes[1..]); }
  }

  /** The platform's decoders of complete input: the text, or with `fatal` nothing for malformed input. */
  function Native(fatal: bool, bytes: seq<nat>): Option<seq<nat>>
  {
    var whole := Whole(Decoder(fatal), bytes);
    if whole.outcome == Finished then Some(whole.output) else None
  }

  /** Handing the rest of the complete middle to the platform. */
  lemma BulkStep(fatal: bool, chunk: seq<nat>, offset: nat, end: nat)
    requires offset < end && CompleteAt(chunk, end)
    ensures var text := Native(fatal, chunk[offset..end]);
      if text.Some? then
        Feed(Decoder(fatal), INITIAL, chunk[offset..]) ==
        Feed(Decoder(fatal), INITIAL, chunk[end..]).After(text.value)
      else fatal
  {
    var middle := chunk[offset..end];
    assert chunk[offset..] == middle + chunk[end..];
    StateFollows(middle);
    if fatal {
      if Native(fatal, middle).Some? { ModesAgree(INITIAL, middle); StrictCut(middle, chunk[end..]); }
    } else {
      if end == |chunk| {
        assert middle == chunk[offset..];
        SuffixComplete(chunk, offset);
      }
      CutJoins(middle, chunk[end..]);
    }
  }

  /** Input that fatal mode takes as complete leaves the handler between sequences. */
  lemma StrictCut(x: seq<nat>, y: seq<nat>)
    requires Native(true, x).Some? && Follows(Feed(Decoder(true), INITIAL, x).state, x)
    ensures Feed(Decoder(true), INITIAL, x + y) == Feed(Decoder(true), INITIAL, y).After(Native(true, x).value)
  {
    FeedSplit(Decoder(true), INITIAL, x, y);
    var output := Feed(Decoder(true), INITIAL, x).output;
    assert output + [] == output;
  }

  /** Both modes write nothing but scalar values, and restore nothing but bytes. */
  lemma ProperCodec(fatal: bool)
    ensures TextDecoder.ByteCodec(Decoder(fatal))
  {
    forall s: Utf8State, b: nat | b < 256 ensures TextDecoder.ProperStep(Handle(fatal, s, b)) {
      HandleScalars(fatal, s, b);
    }
  }

  lemma HandleScalars(fatal: bool, s: Utf8State, b: nat)
    ensures AllScalars(Handle(fatal, s, b).output)
  {
  }

  lemma {:induction false} FeedScalars(fatal: bool, s: Utf8State, bytes: seq<nat>)
    ensures AllScalars(Feed(Decoder(fatal), s, bytes).output)
    decreases |bytes|
  {
    if bytes != [] {
      var step := Handle(fatal, s, bytes[0]);
      HandleScalars(fatal, s, bytes[0]);
      if step.Emit? { FeedScalars(fatal, step.state, bytes[1..]); }
    }
  }

  lemma RunScalars(fatal: bool, bytes: seq<nat>)
    ensures AllScalars(Whole(Decoder(fatal), bytes).output)
  {
    FeedScalars(fatal, INITIAL, bytes);
  }

  /** `new TextDecoder('utf-8', { fatal, ignoreBOM })` */
  method OpenTextDecoder(fatal: bool, ignoreBOM: bool) returns (decoder: TextDecoder.TextDecoderCommon<Utf8State>)
    ensures fresh(decoder) && decoder.Valid() && decoder.codec == Decoder(fatal) && decoder.strips == !ignoreBOM
    ensures decoder.State() == TextDecoder.DecoderState(INITIAL, [], false, false)
  {
    ProperCodec(fatal);
    decoder := new TextDecoder.TextDecoderCommon(Decoder(fatal), !ignoreBOM);
  }

  // ---------------------------------------------------------------------------
  // The decoder object
  // ---------------------------------------------------------------------------

  /** Between sequences nothing is left over from the last one. */
  predicate Proper(s: Utf8State) { s == INITIAL || s.seen < s.needed }

  class UTF8Decoder {
    var state: Utf8State

    constructor ()
      ensures state == INITIAL
    {
      state := INITIAL;
    }

    /** The handler's loop from an offset to a limit; at an error, where to restore from. */
    method HandleBytes(chunk: seq<nat>, from: nat, limit: nat, fatal: bool)
      returns (units: seq<nat>, stop: Option<nat>)
      requires from <= limit <= |chunk| && Proper(state)
      modifies this
      ensures Proper(state) && AllScalars(units) && (stop.Some? ==> stop.value <= |chunk|)
      ensures Feed(Decoder(fatal), old(state), chunk[from..]) ==
        if stop.Some? then Stopped(state, units, chunk[stop.value..])
        else Feed(Decoder(fatal), state, chunk[limit..]).After(units)
    {
      hide Feed, Handle;
      units, stop := [], None;
      AfterNothing(Feed(Decoder(fatal), state, chunk[from..]));
      for offset := from to limit
        invariant Proper(state) && AllScalars(units)
        invariant Feed(Decoder(fatal), old(state), chunk[from..]) ==
          Feed(Decoder(fatal), state, chunk[offset..]).After(units)
      {
        var step := Handle(fatal, state, chunk[offset]);
        FeedFirst(fatal, state, chunk, offset);
        HandleProper(fatal, state, chunk[offset]);
        if step.Fail? {
          state := step.state;
          return units, Some(if step.restored == [] then offset + 1 else offset);
        }
        AfterAfter(Feed(Decoder(fatal), step.state, chunk[offset + 1..]), units, step.output);
        state, units := step.state, units + step.output;
      }
    }

    lemma FeedFirst(fatal: bool, s: Utf8State, chunk: seq<nat>, offset: nat)
      requires offset < |chunk|
      ensures var step := Handle(fatal, s, chunk[offset]);
        Feed(Decoder(fatal), s, chunk[offset..]) ==
        if step.Emit? then Feed(Decoder(fatal), step.state, chunk[offset + 1..]).After(step.output)
        else Stopped(step.state, [], chunk[if step.restored == [] then offset + 1 else offset..])
    {
      hide Feed;
      assert chunk[offset..] == [chunk[offset]] + chunk[offset + 1..];
      FeedByte(fatal, s, chunk[offset], chunk[offset + 1..]);
    }

    lemma HandleProper(fatal: bool, s: Utf8State, b: nat)
      requires Proper(s)
      ensures Proper(Handle(fatal, s, b).state) && AllScalars(Handle(fatal, s, b).output)
    {
      HandleScalars(fatal, s, b);
    }

    method DecodeEdge(chunk: seq<nat>, from: nat, limit: nat, output: IOQueue, fatal: bool)
      returns (ghost units: seq<nat>, stop: Option<nat>)
      requires from <= limit <= |chunk| && Proper(state) && output.Valid() && output.text
      modifies this, output, output.Repr
      ensures Proper(state) && (stop.Some? ==> stop.value <= |chunk|)
      ensures output.Valid() && output.ended == old(output.ended) && fresh(output.Repr - old(output.Repr))
      ensures output.State().items == old(output.State()).items + units
      ensures Feed(Decoder(fatal), old(state), chunk[from..]) ==
        if stop.Some? then Stopped(state, units, chunk[stop.value..])
        else Feed(Decoder(fatal), state, chunk[limit..]).After(units)
    {
      hide Feed, IOQueue.Valid, IOQueue.State;
      var text;
      text, stop := HandleBytes(chunk, from, limit, fatal);
      TextDecoder.PushPoints(output, text);
      units := text;
    }

    /** The loop of `decode` over one chunk: it writes what the handler writes byte by byte. */
    method DecodeChunk(chunk: seq<nat>, output: IOQueue, fatal: bool) returns (stop: Option<nat>)
      requires chunk != [] && Proper(state) && output.Valid() && output.text
      modifies this, output, output.Repr
      ensures Proper(state) && (stop.Some? ==> stop.value <= |chunk|)
      ensures output.Valid() && output.ended == old(output.ended) && fresh(output.Repr - old(output.Repr))
      ensures var fed := Feed(Decoder(fatal), old(state), chunk);
        output.State().items == old(output.State()).items + fed.output &&
        fed == if stop.Some? then Stopped(state, fed.output, chunk[stop.value..]) else Drained(state, fed.output)
    {
      hide Feed, Run, IOQueue.Valid, IOQueue.State, EndsOpen, CompleteAt, Reached;
      var offset := 0;
      var split := |chunk| >= 64;
      var bulkEnd := CompletePrefix(chunk);
      ghost var complete := bulkEnd;
      if !split && bulkEnd != |chunk| { bulkEnd := 0; }
      var left := state.needed - state.seen;
      var limit := if !split || state.needed == 0 || left > |chunk| then |chunk| else left;
      ghost var fed, written, more := Feed(Decoder(fatal), state, chunk), [], [];
      ReachedFirst(fatal, state, chunk);
      stop := None;
      while offset < |chunk|
        invariant offset <= |chunk| && stop == None && (offset < |chunk| ==> offset < limit <= |chunk|)
        invariant Proper(state) && bulkEnd in {0, complete}
        invariant output.Valid() && output.ended == old(output.ended) && fresh(output.Repr - old(output.Repr))
        invariant output.State().items == old(output.State()).items + written
        invariant Reached(fed, fatal, state, written, None, chunk, offset)
      {
        ghost var s, from := state, offset;
        offset, bulkEnd, more, stop := DecodeRest(chunk, offset, bulkEnd, limit, output, fatal);
        ReachedOn(fed, fatal, s, written, chunk, from, state, more, stop, offset);
        written, limit := written + more, |chunk|;
        if stop.Some? { break; }
      }
      ReachedLast(fed, fatal, state, written, stop, chunk, offset);
    }

    /** One round of that loop: the complete middle if it comes next, and bytes up to a limit. */
    method DecodeRest(chunk: seq<nat>, offset: nat, bulkEnd: nat, limit: nat, output: IOQueue, fatal: bool)
      returns (next: nat, laterEnd: nat, ghost written: seq<nat>, stop: Option<nat>)
      requires offset < limit <= |chunk| && Proper(state) && output.Valid() && output.text
      requires bulkEnd <= |chunk| && (bulkEnd > 0 ==> CompleteAt(chunk, bulkEnd))
      modifies this, output, output.Repr
      ensures offset < next <= |chunk| && laterEnd in {0, bulkEnd}
      ensures Proper(state)
      ensures output.Valid() && output.ended == old(output.ended) && fresh(output.Repr - old(output.Repr))
      ensures output.State().items == old(output.State()).items + written
      ensures Reached(Feed(Decoder(fatal), old(state), chunk[offset..]), fatal, state, written, stop, chunk, next)
    {
      hide Feed, Run, IOQueue.Valid, IOQueue.State, CompleteAt;
      ghost var text, units := [], [];
      var start, end := offset, limit;
      laterEnd := bulkEnd;
      AfterNothing(Feed(Decoder(fatal), state, chunk[offset..]));
      if state.needed == 0 && offset < bulkEnd {
        start, text := DecodeMiddle(chunk, offset, bulkEnd, output, fatal);
        laterEnd, end := 0, |chunk|;
        if start == |chunk| { return start, laterEnd, text, None; }
      }
      units, stop := DecodeEdge(chunk, start, end, output, fatal);
      AfterAfter(Feed(Decoder(fatal), state, chunk[end..]), text, units);
      next, written := end, text + units;
    }

    /** The rest of the complete middle, if the platform takes it; else the handler finds the error. */
    method DecodeMiddle(chunk: seq<nat>, offset: nat, end: nat, output: IOQueue, fatal: bool)
      returns (next: nat, ghost text: seq<nat>)
      requires offset < end && CompleteAt(chunk, end) && output.Valid() && output.text
      modifies output, output.Repr
      ensures output.Valid() && output.ended == old(output.ended) && fresh(output.Repr - old(output.Repr))
      ensures output.State().items == old(output.State()).items + text && next in {offset, end}
      ensures Feed(Decoder(fatal), INITIAL, chunk[offset..]) == Feed(Decoder(fatal), INITIAL, chunk[next..]).After(text)
    {
      hide Feed, Run, IOQueue.Valid, IOQueue.State, EndsOpen;
      BulkStep(fatal, chunk, offset, end);
      AfterNothing(Feed(Decoder(fatal), INITIAL, chunk[offset..]));
      next, text := offset, [];
      var decoded := Native(fatal, chunk[offset..end]);
      if decoded.Some? {
        RunScalars(fatal, chunk[offset..end]);
        TextDecoder.PushPoints(output, decoded.value);
        next, text := end, decoded.value;
      }
    }

    /** One chunk, or what there is instead. */
    method Round(input: IOQueue, output: IOQueue, fatal: bool) returns (stop: Option<Outcome>, ghost written: seq<nat>)
      requires Proper(state) && input.Valid() && !input.text && output.Valid() && output.text
      requires input.Repr !! output.Repr
      modifies this, input, input.Repr, output, output.Repr
      ensures input.Valid() && input.ended == old(input.ended) && output.Valid()
      ensures fresh(input.Repr - old(input.Repr)) && fresh(output.Repr - old(output.Repr)) && input.Repr !! output.Repr
      ensures Proper(state) || (input.ended && stop.Some?)
      ensures output.State().items == old(output.State()).items + written
      ensures output.ended == (old(output.ended) || stop == Some(Finished))
      ensures stop.None? ==> |input.State().items| < |old(input.State()).items|
      ensures TextDecoder.Continues(Run(Decoder(fatal), old(state), old(input.State()).items, input.ended),
        Decoder(fatal), state, written, stop, input.State().items, input.ended)
    {
      hide Feed, Run, IOQueue.Valid, IOQueue.State, Items;
      var read := NextChunk(input);
      if !read.Taken? {
        TextDecoder.RunEmpty(Decoder(fatal), state, input.ended);
        if read.ChunkWaiting? { return Some(Suspended), []; }
        stop, written := Close(output, fatal);
      } else {
        var bytes := BytesOf(read.chunk);
        ghost var fed := Feed(Decoder(fatal), state, bytes);
        RunChunk(fatal, state, bytes, input.State().items, input.ended);
        var at := DecodeChunk(bytes, output, fatal);
        written := fed.output;
        stop := None;
        if at.Some? {
          TextDecoder.GiveBack(input, bytes[at.value..]);
          stop := Some(Failed);
        }
      }
    }

    lemma RunChunk(fatal: bool, s: Utf8State, bytes: seq<nat>, rest: seq<nat>, ended: bool)
      ensures var fed := Feed(Decoder(fatal), s, bytes);
        Run(Decoder(fatal), s, bytes + rest, ended) ==
        if fed.Drained? then
          var later := Run(Decoder(fatal), fed.state, rest, ended);
          later.(output := fed.output + later.output)
        else Call(Failed, fed.state, fed.output, fed.unread + rest)
    {
      hide Feed;
      if Feed(Decoder(fatal), s, bytes).Drained? {
        RunSplit(Decoder(fatal), s, bytes, rest, ended);
      } else {
        RunStopped(Decoder(fatal), s, bytes, rest, ended);
      }
    }

    /** The end of the input. */
    method Close(output: IOQueue, fatal: bool) returns (stop: Option<Outcome>, ghost written: seq<nat>)
      requires Proper(state) && output.Valid() && output.text
      modifies this, output, output.Repr
      ensures output.Valid() && fresh(output.Repr - old(output.Repr))
      ensures output.State().items == old(output.State()).items + written
      ensures output.ended == (old(output.ended) || stop == Some(Finished))
      ensures var step := AtEnd(fatal, old(state));
        state == step.state && written == step.output && (step.Fail? ==> step.restored == []) &&
        stop == Some(if step.Emit? then Finished else Failed)
    {
      hide IOQueue.Valid;
      var step := AtEnd(fatal, state);
      state := step.state;
      if step.Fail? { return Some(Failed), []; }
      TextDecoder.PushPoints(output, step.output);
      output.PushEnd();
      stop, written := Some(Finished), step.output;
    }

    /** `decode`: chunk after chunk, until the input waits, ends or stops the decoder. */
    method Decode(input: IOQueue, output: IOQueue, fatal: bool) returns (outcome: Outcome)
      requires Proper(state) && input.Valid() && !input.text && output.Valid() && output.text
      requires input.Repr !! output.Repr
      modifies this, input, input.Repr, output, output.Repr
      ensures input.Valid() && input.ended == old(input.ended) && output.Valid()
      ensures fresh(input.Repr - old(input.Repr)) && fresh(output.Repr - old(output.Repr)) && input.Repr !! output.Repr
      ensures input.ended || Proper(state)
      ensures var call := Run(Decoder(fatal), old(state), old(input.State()).items, input.ended);
        outcome == call.outcome && state == call.state && input.State().items == call.unread &&
        output.State().items == old(output.State()).items + call.output
      ensures output.ended == (old(output.ended) || outcome == Finished)
    {
      hide Run, IOQueue.Valid, IOQueue.State, TextDecoder.Continues;
      ghost var whole := Run(Decoder(fatal), state, input.State().items, input.ended);
      ghost var written, more := [], [];
      var stop := None;
      TextDecoder.ContinuesFirst(Decoder(fatal), state, input.State().items, input.ended);
      while stop.None?
        invariant input.Valid() && input.ended == old(input.ended) && output.Valid()
        invariant fresh(input.Repr - old(input.Repr)) && fresh(output.Repr - old(output.Repr))
        invariant input.Repr !! output.Repr
        invariant Proper(state) || (input.ended && stop.Some?)
        invariant output.State().items == old(output.State()).items + written
        invariant output.ended == (old(output.ended) || stop == Some(Finished))
        invariant TextDecoder.Continues(whole, Decoder(fatal), state, written, stop, input.State().items, input.ended)
        decreases stop.None?, |input.State().items|
      {
        ghost var s, items := state, input.State().items;
        stop, more := Round(input, output, fatal);
        TextDecoder.ContinuesOn(
          whole, Decoder(fatal), s, written, items, state, more, stop, input.State().items, input.ended);
        written := written + more;
      }
      outcome := stop.value;
      TextDecoder.ContinuesLast(whole, Decoder(fatal), state, written, outcome, input.State().items, input.ended);
    }
  }

  /** `written` is written, and the chunk from `offset` on is still to feed unless the codec has stopped. */
  predicate Reached(
    fed: Fed<Utf8State>, fatal: bool, s: Utf8State, written: seq<nat>, stop: Option<nat>, chunk: seq<nat>, offset: nat)
  {
    if stop.Some? then stop.value <= |chunk| && fed == Stopped(s, written, chunk[stop.value..])
    else offset <= |chunk| && fed == Feed(Decoder(fatal), s, chunk[offset..]).After(written)
  }

  lemma ReachedFirst(fatal: bool, s: Utf8State, chunk: seq<nat>)
    ensures Reached(Feed(Decoder(fatal), s, chunk), fatal, s, [], None, chunk, 0)
  {
    hide Feed;
    assert chunk[0..] == chunk;
    AfterNothing(Feed(Decoder(fatal), s, chunk));
  }

  lemma ReachedOn(
    fed: Fed<Utf8State>, fatal: bool, s: Utf8State, written: seq<nat>, chunk: seq<nat>, offset: nat,
    next: Utf8State, more: seq<nat>, stop: Option<nat>, later: nat)
    requires offset <= |chunk| && Reached(fed, fatal, s, written, None, chunk, offset)
    requires Reached(Feed(Decoder(fatal), s, chunk[offset..]), fatal, next, more, stop, chunk, later)
    ensures Reached(fed, fatal, next, written + more, stop, chunk, later)
  {
    hide Feed;
    if stop.None? { AfterAfter(Feed(Decoder(fatal), next, chunk[later..]), written, more); }
  }

  lemma ReachedLast(
    fed: Fed<Utf8State>, fatal: bool, s: Utf8State, written: seq<nat>, stop: Option<nat>, chunk: seq<nat>, offset: nat)
    requires Reached(fed, fatal, s, written, stop, chunk, offset) && (stop.None? ==> offset == |chunk|)
    ensures stop.Some? ==> stop.value <= |chunk|
    ensures fed == if stop.Some? then Stopped(s, written, chunk[stop.value..]) else Drained(s, written)
  {
    assert chunk[|chunk|..] == [] && written + [] == written;
  }

  function BytesOf(c: Chunk): (bytes: seq<nat>)
    ensures |bytes| == |c.data|
  {
    seq(|c.data|, i requires 0 <= i < |c.data| => c.data[i] as nat)
  }

  /** The next chunk with its bytes. */
  method NextChunk(input: IOQueue) returns (read: ChunkRead)
    requires input.Valid() && !input.text
    modifies input
    ensures input.Valid() && input.Repr == old(input.Repr) && input.ended == old(input.ended)
    ensures match read
      case Taken(chunk) =>
        chunk.data != [] && AllBytes(BytesOf(chunk)) &&
        old(input.State()).items == BytesOf(chunk) + input.State().items
      case ChunkEnd => input.ended && old(input.State()).items == [] == input.State().items
      case ChunkWaiting => !input.ended && old(input.State()).items == [] == input.State().items
  {
    hide QueueState.Fair;
    input.PartsNonempty();
    read := input.ReadChunk();
    if read.Taken? {
      ByteItems(read.chunk, 0);
      WholeBytes(read.chunk, 0);
      assert BytesOf(read.chunk) == Items(read.chunk);
    }
  }
}
