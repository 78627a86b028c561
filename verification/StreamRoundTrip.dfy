/** What streaming UTF-8 decoders return, across any way of cutting the data up, and after a text encoder stream. */
module StreamRoundTrip {
  import opened Prelude
  import opened Utf16
  import opened Codec
  import Utf8
  import TextDecoder
  import TextEncoderStream

  /**
   However the text is cut into chunks for encoding, and the bytes into chunks for decoding, the decoder
   returns the text with each lone surrogate replaced, less one leading byte order mark if it strips one.
   */
  lemma TextSurvives(
    text: seq<seq<Unit>>, bytes: seq<seq<nat>>, last: seq<nat>, strips: bool, fatal: bool,
    d: TextDecoder.DecoderState<Utf8.Utf8State>)
    requires Concat(bytes) + last == Concat(TextEncoderStream.Streamed([], text))
    requires !d.doNotFlush
    ensures var points := Utf8.ScalarizeAll(CodePoints(Concat(text)));
      TextDecoder.Series(Utf8.Decoder(fatal), strips, d, bytes, last) ==
      TextDecoder.Decoded(if strips && points != [] && points[0] == 0xFEFF then points[1..] else points)
  {
    TextEncoderStream.SplitIndependent(text);
    TextDecoder.StreamingIsComplete(Utf8.Decoder(fatal), strips, d, bytes, last);
    Utf8.DecodeEncode(fatal, Concat(text));
    assert [] + (Concat(bytes) + last) == Concat(bytes) + last;
  }

  /**
   A fatal decoder throws in one of its calls unless the bytes of all of them together are the encoding of
   scalar values, and those are what it returns.
   */
  lemma FatalSeries(
    chunks: seq<seq<nat>>, last: seq<nat>, strips: bool, d: TextDecoder.DecoderState<Utf8.Utf8State>)
    requires !d.doNotFlush
    ensures var bytes := Concat(chunks) + last;
      var r := TextDecoder.Series(Utf8.Decoder(true), strips, d, chunks, last);
      (r.Decoded? <==> exists points :: AllScalars(points) && bytes == Utf8.EncodePoints(points)) &&
      forall points :: AllScalars(points) && bytes == Utf8.EncodePoints(points) ==>
        r == TextDecoder.Decoded(if strips && points != [] && points[0] == 0xFEFF then points[1..] else points)
  {
    hide TextDecoder.Series, TextDecoder.DecodeCall, Whole, Utf8.EncodePoints;
    var bytes := Concat(chunks) + last;
    TextDecoder.StreamingIsComplete(Utf8.Decoder(true), strips, d, chunks, last);
    FatalCall(strips, d, bytes);
    Utf8.FatalAccepts(bytes);
    forall points | AllScalars(points) && bytes == Utf8.EncodePoints(points)
      ensures Whole(Utf8.Decoder(true), bytes).output == points
    {
      Utf8.FatalDecodes(points);
    }
  }

  lemma FatalCall(strips: bool, d: TextDecoder.DecoderState<Utf8.Utf8State>, bytes: seq<nat>)
    requires !d.doNotFlush
    ensures var whole := Whole(Utf8.Decoder(true), bytes);
      TextDecoder.DecodeCall(Utf8.Decoder(true), strips, d, bytes, false).1 ==
      if whole.outcome == Finished then TextDecoder.Decoded(TextDecoder.Serialize(strips, false, whole.output))
      else TextDecoder.Invalid
  {
    assert [] + bytes == bytes;
  }
}
