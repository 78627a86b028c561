/**
 TextEncoderStream (src/encoding/text-encoder-stream.ts; section 7.6 of the Encoding Standard):
 a chunk's trailing lead surrogate waits for the next chunk.
 */
module TextEncoderStream {
  import opened Prelude
  import opened Utf16
  import Utf8

  /** What is kept back from a chunk, and the byte chunks enqueued for it. */
  datatype Step = Step(leading: seq<Unit>, enqueued: seq<seq<nat>>)

  function Transform(leading: seq<Unit>, chunk: seq<Unit>): Step
  {
    var input := leading + chunk;
    if input == [] then Step([], []) else
      var last := |input| - 1;
      if !IsLead(input[last]) then Step([], [Utf8.Encode(input)])
      else Step([input[last]], if last == 0 then [] else [Utf8.Encode(input[..last])])
  }

  function Flush(leading: seq<Unit>): seq<seq<nat>>
  {
    if leading == [] then [] else [Utf8.Encode([Utf8.REPLACEMENT as Unit])]
  }

  /** Everything enqueued for a list of chunks and the final flush. */
  function Streamed(leading: seq<Unit>, chunks: seq<seq<Unit>>): seq<seq<nat>>
    decreases |chunks|
  {
    if chunks == [] then Flush(leading) else
      var step := Transform(leading, chunks[0]);
      step.enqueued + Streamed(step.leading, chunks[1..])
  }

  /** What may be kept back: one lead surrogate, or nothing. */
  predicate Kept(leading: seq<Unit>)
  {
    |leading| <= 1 && (leading != [] ==> IsLead(leading[0]))
  }

  /** A chunk's bytes, and what is kept back of it, stand for the input so far. */
  lemma TransformSplits(leading: seq<Unit>, chunk: seq<Unit>) returns (done: seq<Unit>)
    requires Kept(leading)
    ensures var step := Transform(leading, chunk);
      && Kept(step.leading) && leading + chunk == done + step.leading
      && Concat(step.enqueued) == Utf8.Encode(done)
      && (done != [] ==> !IsLead(done[|done| - 1]) || step.leading != [])
  {
    var input := leading + chunk;
    if input == [] || !IsLead(input[|input| - 1]) { done := input; } else { done := input[..|input| - 1]; }
    if done != [] { ConcatSnoc([], Utf8.Encode(done)); assert [] + [Utf8.Encode(done)] == [Utf8.Encode(done)]; }
  }

  lemma FlushReplaces(leading: seq<Unit>)
    requires Kept(leading)
    ensures Concat(Flush(leading)) == Utf8.Encode(leading)
  {
    if leading != [] {
      var mark := [Utf8.REPLACEMENT as Unit];
      assert leading[1..] == [] && mark[1..] == [];
      assert CodePoints(leading) == [leading[0] as nat] && CodePoints(mark) == [Utf8.REPLACEMENT];
      assert Flush(leading)[1..] == [];
    }
  }

  lemma {:induction false} StreamedFrom(leading: seq<Unit>, chunks: seq<seq<Unit>>)
    requires Kept(leading)
    ensures Concat(Streamed(leading, chunks)) == Utf8.Encode(leading + Concat(chunks))
    decreases |chunks|
  {
    if chunks == [] {
      FlushReplaces(leading);
      assert leading + [] == leading;
    } else {
      var step, later := Transform(leading, chunks[0]), Concat(chunks[1..]);
      var done := TransformSplits(leading, chunks[0]);
      StreamedFrom(step.leading, chunks[1..]);
      ConcatAppend(step.enqueued, Streamed(step.leading, chunks[1..]));
      Utf8.EncodeAppend(done, step.leading + later);
      Regroup(leading, chunks[0], later, done, step.leading);
    }
  }

  lemma Regroup(a: seq<Unit>, b: seq<Unit>, c: seq<Unit>, d: seq<Unit>, e: seq<Unit>)
    requires a + b == d + e
    ensures a + (b + c) == d + (e + c)
  {
    assert a + (b + c) == (a + b) + c;
    assert d + (e + c) == (d + e) + c;
  }

  /**
   However a string is split into chunks, the bytes enqueued for them and at the flush are the
   UTF-8 encoding of the whole string, each lone surrogate replaced.
   */
  lemma SplitIndependent(chunks: seq<seq<Unit>>)
    ensures Concat(Streamed([], chunks)) == Utf8.Encode(Concat(chunks))
  {
    StreamedFrom([], chunks);
    assert [] + Concat(chunks) == Concat(chunks);
  }

  class TextEncoderStream {
    var leadingSurrogate: seq<Unit>
    /** The byte chunks handed to the transform stream, in order. */
    var enqueued: seq<seq<nat>>

    ghost predicate Valid()
      reads this
    {
      Kept(leadingSurrogate)
    }

    constructor ()
      ensures Valid() && leadingSurrogate == [] && enqueued == []
    {
      leadingSurrogate, enqueued := [], [];
    }

    /** `#encodeAndEnqueue` */
    method EncodeAndEnqueue(chunk: seq<Unit>)
      requires Valid()
      modifies this
      ensures Valid()
      ensures var step := Transform(old(leadingSurrogate), chunk);
        leadingSurrogate == step.leading && enqueued == old(enqueued) + step.enqueued
    {
      var input := leadingSurrogate + chunk;
      leadingSurrogate := [];
      if input == [] { return; }
      var last := input[|input| - 1];
      if 0xD800 <= last <= 0xDBFF {
        leadingSurrogate := [last];
        input := input[..|input| - 1];
      }
      if input != [] { EnqueueEncoded(input); }
    }

    /** The flush step: a lead surrogate that never found its trail is replaced. */
    method FlushStep()
      requires Valid()
      modifies this
      ensures Valid() && leadingSurrogate == [] && enqueued == old(enqueued) + Flush(old(leadingSurrogate))
    {
      if leadingSurrogate == [] { return; }
      EnqueueEncoded([0xFFFD]);
      leadingSurrogate := [];
    }

    method EnqueueEncoded(input: seq<Unit>)
      modifies `enqueued
      ensures enqueued == old(enqueued) + [Utf8.Encode(input)]
    {
      enqueued := enqueued + [Utf8.Encode(input)];
    }
  }
}
