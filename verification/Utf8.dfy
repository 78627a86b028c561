/**
 UTF-8 (section 8.1 of the Encoding Standard; src/encoding/codecs/utf-8.ts): the encoder used for
 strings, which replaces lone surrogates, and the decoder's item handler as a `Codec`.
 */
module Utf8 {
  import opened Utf16
  import opened Codec

  const REPLACEMENT: nat := 0xFFFD

  /** A lone surrogate, or anything else that is no scalar value, becomes U+FFFD. */
  function Scalarize(point: nat): (scalar: nat)
    ensures IsScalar(scalar)
  {
    if IsScalar(point) then point else REPLACEMENT
  }

  function ScalarizeAll(points: seq<nat>): (scalars: seq<nat>)
    ensures |scalars| == |points| && forall i :: 0 <= i < |points| ==> scalars[i] == Scalarize(points[i])
  {
    seq(|points|, i requires 0 <= i < |points| => Scalarize(points[i]))
  }

  /** The bytes of one scalar value, up to four. */
  function EncodePoint(p: nat): (bytes: seq<nat>)
    requires IsScalar(p)
    ensures forall b :: b in bytes ==> b < 256
  {
    if p <= 0x7F then [p]
    else if p <= 0x7FF then [0xC0 + p / 64, 0x80 + p % 64]
    else if p <= 0xFFFF then [0xE0 + p / 4096, 0x80 + p / 64 % 64, 0x80 + p % 64]
    else [0xF0 + p / 262144, 0x80 + p / 4096 % 64, 0x80 + p / 64 % 64, 0x80 + p % 64]
  }

  function EncodePoints(points: seq<nat>): seq<nat>
  {
    if points == [] then [] else EncodePoint(Scalarize(points[0])) + EncodePoints(points[1..])
  }

  lemma {:induction false} EncodePointsAppend(a: seq<nat>, b: seq<nat>)
    ensures EncodePoints(a + b) == EncodePoints(a) + EncodePoints(b)
  {
    if a == [] {
      assert a + b == b;
    } else {
      assert (a + b)[1..] == a[1..] + b;
      EncodePointsAppend(a[1..], b);
    }
  }

  /** `utf8Encode`: a string's bytes, with every lone surrogate replaced. */
  function Encode(s: seq<Unit>): seq<nat>
  {
    EncodePoints(CodePoints(s))
  }

  lemma EncodeAppend(a: seq<Unit>, b: seq<Unit>)
    requires CleanCut(a, b)
    ensures Encode(a + b) == Encode(a) + Encode(b)
  {
    CodePointsAppend(a, b);
    EncodePointsAppend(CodePoints(a), CodePoints(b));
  }

  // ---------------------------------------------------------------------------
  // The decoder's handler, section 8.1.1
  // ---------------------------------------------------------------------------

  /** The first scalar value whose encoding has one byte and `needed` continuations, and the last one. */
  function Least(needed: nat): nat { if needed == 1 then 0x80 else if needed == 2 then 0x800 else 0x10000 }

  function Most(needed: nat): nat { if needed == 1 then 0x7FF else if needed == 2 then 0xFFFF else 0x10FFFF }

  /** How much the next continuation byte weighs with `k` bytes left. */
  function Weight(k: nat): nat { if k == 1 then 1 else if k == 2 then 64 else 4096 }

  datatype Sequence = Sequence(point: nat, seen: nat, needed: nat, lower: nat, upper: nat)
  {
    /** Inside a sequence, whatever may follow completes a scalar value in its shortest form. */
    predicate Sane()
    {
      needed == 0 ||
      (seen < needed <= 3 && 0x80 <= lower <= upper <= 0xBF &&
       var weight := Weight(needed - seen);
       var first, last := (point * 64 + lower - 0x80) * weight, (point * 64 + upper - 0x80) * weight + weight - 1;
       Least(needed) <= first && last <= Most(needed) && (last < 0xD800 || first > 0xDFFF))
    }
  }

  type Utf8State = s: Sequence | s.Sane() witness Sequence(0, 0, 0, 0x80, 0xBF)

  const INITIAL: Utf8State := Sequence(0, 0, 0, 0x80, 0xBF)

  function Onward(s: Utf8State): Step<Utf8State> { Emit(s, []) }

  /** A byte outside a sequence. */
  function Lead(b: nat): Step<Utf8State>
  {
    if b <= 0x7F then Emit(INITIAL, [b])
    else if 0xC2 <= b <= 0xDF then Onward(Sequence(b - 0xC0, 0, 1, 0x80, 0xBF))
    else if 0xE0 <= b <= 0xEF then
      Onward(Sequence(b - 0xE0, 0, 2, if b == 0xE0 then 0xA0 else 0x80, if b == 0xED then 0x9F else 0xBF))
    else if 0xF0 <= b <= 0xF4 then
      Onward(Sequence(b - 0xF0, 0, 3, if b == 0xF0 then 0x90 else 0x80, if b == 0xF4 then 0x8F else 0xBF))
    else Emit(INITIAL, [REPLACEMENT])
  }

  /** The byte cannot come here. */
  predicate Malformed(s: Utf8State, b: nat)
  {
    if s.needed == 0 then 0x80 <= b < 0xC2 || b > 0xF4 else !(s.lower <= b <= s.upper)
  }

  /** A continuation byte. */
  function Continue(s: Utf8State, b: nat): (step: Step<Utf8State>)
    requires s.needed > 0 && !Malformed(s, b)
    ensures step.Emit? && AllScalars(step.output)
  {
    var point := s.point * 64 + b % 64;
    ContinueSane(s, b);
    if s.seen + 1 == s.needed then Emit(INITIAL, [point])
    else Onward(Sequence(point, s.seen + 1, s.needed, 0x80, 0xBF))
  }

  lemma ContinueSane(s: Utf8State, b: nat)
    requires s.needed > 0 && !Malformed(s, b)
    ensures var point := s.point * 64 + b % 64;
      if s.seen + 1 < s.needed then Sequence(point, s.seen + 1, s.needed, 0x80, 0xBF).Sane()
      else Least(s.needed) <= point <= Most(s.needed) && IsScalar(point)
  {
    assert b % 64 == b - 0x80;
  }

  /** One byte: what cannot come here is replaced, or is an error, and handled afresh if it ended a sequence. */
  function Handle(fatal: bool, s: Utf8State, b: nat): Step<Utf8State>
  {
    if !Malformed(s, b) then (if s.needed == 0 then Lead(b) else Continue(s, b))
    else if fatal then Fail(INITIAL, [], if s.needed == 0 then [] else [b])
    else if s.needed == 0 then Lead(b)
    else Emit(Lead(b).state, [REPLACEMENT] + Lead(b).output)
  }

  function AtEnd(fatal: bool, s: Utf8State): Step<Utf8State>
  {
    var after: Utf8State := s.(needed := 0);
    if s.needed == 0 then Emit(after, []) else if fatal then Fail(after, [], []) else Emit(after, [REPLACEMENT])
  }

  function Decoder(fatal: bool): Codec<Utf8State>
  {
    Codec(INITIAL, (s, b) => Handle(fatal, s, b), s => AtEnd(fatal, s))
  }

  lemma FeedByte(fatal: bool, s: Utf8State, b: nat, rest: seq<nat>)
    ensures var step := Handle(fatal, s, b);
      Feed(Decoder(fatal), s, [b] + rest) ==
      if step.Emit? then Feed(Decoder(fatal), step.state, rest).After(step.output)
      else Stopped(step.state, step.output, step.restored + rest)
  {
    assert ([b] + rest)[1..] == rest;
  }

  /** The continuation byte with `k` bytes left, itself included. */
  function Continuation(p: nat, k: nat): nat
  {
    0x80 + (if k == 1 then p else if k == 2 then p / 64 else p / 4096) % 64
  }

  /** The last `k` bytes. */
  function Tail(p: nat, k: nat): seq<nat>
  {
    if k == 0 then [] else [Continuation(p, k)] + Tail(p, k - 1)
  }

  /** The bits read with `k` bytes left. */
  function Bits(p: nat, k: nat): nat
  {
    if k == 0 then p else if k == 1 then p / 64 else if k == 2 then p / 4096 else p / 262144
  }

  lemma NextBits(p: nat, k: nat)
    requires 1 <= k <= 3
    ensures Bits(p, k) * 64 + Continuation(p, k) % 64 == Bits(p, k - 1)
  {
    var q := if k == 1 then p else if k == 2 then p / 64 else p / 4096;
    assert Bits(p, k - 1) == q && Bits(p, k) == q / 64;
    SixBits(q);
  }

  lemma SixBits(q: nat)
    ensures q / 64 * 64 + (0x80 + q % 64) % 64 == q
  {
  }

  /** From any point of a sequence on, its last bytes complete the scalar value. */
  lemma {:induction false} FeedContinuations(fatal: bool, s: Utf8State, p: nat, k: nat)
    requires 1 <= k <= 3 && s.seen + k == s.needed && s.point == Bits(p, k)
    requires s.lower <= Continuation(p, k) <= s.upper
    ensures Feed(Decoder(fatal), s, Tail(p, k)) == Drained(INITIAL, [p])
    decreases k
  {
    FeedByte(fatal, s, Continuation(p, k), Tail(p, k - 1));
    NextBits(p, k);
    if k > 1 { FeedContinuations(fatal, Handle(fatal, s, Continuation(p, k)).state, p, k - 1); }
  }

  /** The bytes of one scalar value decode to it, leaving the decoder between sequences. */
  lemma DecodePoint(fatal: bool, p: nat)
    requires IsScalar(p)
    ensures Feed(Decoder(fatal), INITIAL, EncodePoint(p)) == Drained(INITIAL, [p])
  {
    var bytes := EncodePoint(p);
    FeedByte(fatal, INITIAL, bytes[0], bytes[1..]);
    assert bytes == [bytes[0]] + bytes[1..];
    if p > 0x7F {
      LeadOf(p);
      FeedContinuations(fatal, Lead(bytes[0]).state, p, |bytes| - 1);
    }
  }

  /** The lead byte announces the other bytes, holds the top bits, and bounds the second byte. */
  lemma LeadOf(p: nat)
    requires IsScalar(p) && p > 0x7F
    ensures var bytes := EncodePoint(p);
            var k, s := |bytes| - 1, Lead(bytes[0]).state;
            && !Malformed(INITIAL, bytes[0]) && Lead(bytes[0]).output == [] && bytes[1..] == Tail(p, k)
            && s.seen == 0 && s.needed == k && s.point == Bits(p, k)
            && s.lower <= Continuation(p, k) <= s.upper
  {
    var k := if p <= 0x7FF then 1 else if p <= 0xFFFF then 2 else 3;
    assert EncodePoint(p)[1..] == Tail(p, k) by {
      assert Tail(p, 0) == [] && Tail(p, 1) == [Continuation(p, 1)];
      assert Tail(p, 2) == [Continuation(p, 2), Continuation(p, 1)];
    }
    if p > 0x7FF { LeadBounds(p); }
  }

  /** The bounds the lead byte puts on the next one hold. */
  lemma LeadBounds(p: nat)
    requires IsScalar(p) && p > 0x7FF
    ensures p <= 0xFFFF ==>
      (p / 4096 == 0 ==> Continuation(p, 2) >= 0xA0) && (p / 4096 == 13 ==> Continuation(p, 2) <= 0x9F)
    ensures p > 0xFFFF ==>
      (p / 262144 == 0 ==> Continuation(p, 3) >= 0x90) && (p / 262144 == 4 ==> Continuation(p, 3) <= 0x8F)
  {
    assert p / 4096 == 0 ==> p / 64 % 64 == p / 64 >= 0x20;
    assert p / 4096 == 13 ==> p / 64 % 64 == p / 64 - 832;
    assert p / 262144 == 0 ==> p / 4096 % 64 == p / 4096;
    assert p / 262144 == 4 ==> p / 4096 % 64 == p / 4096 - 256;
  }

  lemma {:induction false} DecodePoints(fatal: bool, points: seq<nat>)
    ensures Feed(Decoder(fatal), INITIAL, EncodePoints(points)) == Drained(INITIAL, ScalarizeAll(points))
  {
    if points != [] {
      var first, rest := EncodePoint(Scalarize(points[0])), EncodePoints(points[1..]);
      DecodePoint(fatal, Scalarize(points[0]));
      DecodePoints(fatal, points[1..]);
      FeedSplit(Decoder(fatal), INITIAL, first, rest);
      assert ScalarizeAll(points) == [Scalarize(points[0])] + ScalarizeAll(points[1..]);
    }
  }

  /** A lone surrogate counts as U+FFFD, any other code point as itself. */
  lemma {:induction false} ScalarsOf(s: seq<Unit>, i: nat)
    requires i < |CodePoints(s)|
    ensures ScalarizeAll(CodePoints(s))[i] ==
      if 0xD800 <= CodePoints(s)[i] <= 0xDFFF then 0xFFFD else CodePoints(s)[i]
    decreases |s|
  {
    if i > 0 { ScalarsOf(s[UnitsAt(s, 0)..], i - 1); }
  }

  /** Decoding a string's encoding gives its scalar values, lone surrogates replaced. */
  lemma DecodeEncode(fatal: bool, s: seq<Unit>)
    ensures Whole(Decoder(fatal), Encode(s)) == Call(Finished, INITIAL, ScalarizeAll(CodePoints(s)), [])
  {
    DecodePoints(fatal, CodePoints(s));
    assert ScalarizeAll(CodePoints(s)) + [] == ScalarizeAll(CodePoints(s));
  }

  // ---------------------------------------------------------------------------
  // What fatal mode accepts
  // ---------------------------------------------------------------------------

  /** The bytes of a sequence in progress: its lead byte, and the continuations seen. */
  function Begun(needed: nat, seen: nat, point: nat): seq<nat>
  {
    if seen == 0 then [point + (if needed == 1 then 0xC0 else if needed == 2 then 0xE0 else 0xF0)]
    else Begun(needed, seen - 1, point / 64) + [0x80 + point % 64]
  }

  function Pending(s: Utf8State): seq<nat>
  {
    if s.needed == 0 then [] else Begun(s.needed, s.seen, s.point)
  }

  lemma BegunComplete(needed: nat, point: nat)
    requires 1 <= needed <= 3 && Least(needed) <= point <= Most(needed) && IsScalar(point)
    ensures Begun(needed, needed, point) == EncodePoint(point)
  {
    assert point / 64 / 64 == point / 4096 && point / 4096 / 64 == point / 262144;
    var rest := point / 64;
    if needed == 1 {
      assert Begun(1, 0, rest) == [rest + 0xC0];
    } else if needed == 2 {
      assert Begun(2, 0, rest / 64) == [rest / 64 + 0xE0];
      assert Begun(2, 1, rest) == [rest / 64 + 0xE0, 0x80 + rest % 64];
    } else {
      var more := rest / 64;
      assert Begun(3, 0, more / 64) == [more / 64 + 0xF0];
      assert Begun(3, 1, more) == [more / 64 + 0xF0, 0x80 + more % 64];
      assert Begun(3, 2, rest) == [more / 64 + 0xF0, 0x80 + more % 64, 0x80 + rest % 64];
    }
  }

  /** A byte that fatal mode takes is in the output's encoding or in the sequence in progress. */
  lemma HandleSpells(s: Utf8State, b: nat)
    requires !Malformed(s, b)
    ensures var step := Handle(true, s, b);
      step.Emit? && AllScalars(step.output) && Pending(s) + [b] == EncodePoints(step.output) + Pending(step.state)
  {
    if s.needed > 0 {
      var point := s.point * 64 + b % 64;
      ContinueSane(s, b);
      assert point / 64 == s.point && 0x80 + point % 64 == b;
      assert Begun(s.needed, s.seen + 1, point) == Pending(s) + [b];
      if s.seen + 1 == s.needed {
        BegunComplete(s.needed, point);
        EncodedOne(point);
      }
    } else if b <= 0x7F {
      EncodedOne(b);
    }
  }

  lemma EncodedOne(point: nat)
    requires IsScalar(point)
    ensures EncodePoints([point]) == EncodePoint(point)
  {
    assert [point][1..] == [] && EncodePoint(point) + [] == EncodePoint(point);
  }

  /** Bytes fed without an error are the encoding of the output, and the sequence in progress. */
  lemma {:induction false} FedSpells(bytes: seq<nat>)
    requires Feed(Decoder(true), INITIAL, bytes).Drained?
    ensures var fed := Feed(Decoder(true), INITIAL, bytes);
      AllScalars(fed.output) && bytes == EncodePoints(fed.output) + Pending(fed.state)
    decreases |bytes|
  {
    hide Feed, Handle, Pending, EncodePoints;
    if bytes == [] {
      FedNothing();
    } else {
      var n := |bytes| - 1;
      var before, b := bytes[..n], bytes[n];
      assert bytes == before + [b];
      FeedLast(before, b);
      FedSpells(before);
      var fed := Feed(Decoder(true), INITIAL, before);
      HandleSpells(fed.state, b);
      var step := Handle(true, fed.state, b);
      EncodePointsAppend(fed.output, step.output);
      Regroup(EncodePoints(fed.output), Pending(fed.state), [b], EncodePoints(step.output), Pending(step.state));
    }
  }

  lemma FedNothing()
    ensures Feed(Decoder(true), INITIAL, []) == Drained(INITIAL, []) && EncodePoints([]) == [] == Pending(INITIAL)
  {
  }

  lemma FeedLast(before: seq<nat>, b: nat)
    requires Feed(Decoder(true), INITIAL, before + [b]).Drained?
    ensures var fed := Feed(Decoder(true), INITIAL, before);
      var step := Handle(true, fed.state, b);
      fed.Drained? && !Malformed(fed.state, b) && step.Emit? &&
      Feed(Decoder(true), INITIAL, before + [b]) == Drained(step.state, fed.output + step.output)
  {
    FeedSplit(Decoder(true), INITIAL, before, [b]);
    var fed := Feed(Decoder(true), INITIAL, before);
    assert [b] == [b] + [];
    FeedByte(true, fed.state, b, []);
    var output := Handle(true, fed.state, b).output;
    assert fed.output + (output + []) == fed.output + output;
  }

  lemma Regroup(a: seq<nat>, b: seq<nat>, c: seq<nat>, d: seq<nat>, e: seq<nat>)
    requires b + c == d + e
    ensures a + b + c == a + d + e
  {
    assert a + b + c == a + (b + c) && a + d + e == a + (d + e);
  }

  /** Fatal decoding succeeds exactly on the encodings of scalar values, and then undoes the encoding. */
  lemma FatalAccepts(bytes: seq<nat>)
    ensures var whole := Whole(Decoder(true), bytes);
      (whole.outcome == Finished <==> exists points :: AllScalars(points) && bytes == EncodePoints(points)) &&
      (whole.outcome == Finished ==> AllScalars(whole.output) && bytes == EncodePoints(whole.output))
  {
    var whole := Whole(Decoder(true), bytes);
    if whole.outcome == Finished {
      FedSpells(bytes);
      var output := Feed(Decoder(true), INITIAL, bytes).output;
      assert whole.output == output + [] == output;
      assert bytes == EncodePoints(output) + [] == EncodePoints(output);
    }
    if points :| AllScalars(points) && bytes == EncodePoints(points) { FatalDecodes(points); }
  }

  lemma FatalDecodes(points: seq<nat>)
    requires AllScalars(points)
    ensures Whole(Decoder(true), EncodePoints(points)) == Call(Finished, INITIAL, points, [])
  {
    DecodePoints(true, points);
    assert ScalarizeAll(points) == points && points + [] == points;
  }
}
