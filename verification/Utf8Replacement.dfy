/**
 What UTF-8 decoding makes of malformed input (src/encoding/codecs/utf-8.ts; section 8.1.1 of the Encoding Standard):
 one U+FFFD for each maximal part that begins a scalar value's encoding and is not completed, and for each other byte.
 */
module Utf8Replacement {
  import opened Utf16
  import opened Codec
  import opened Utf8

  /** The bytes begin, or are, the encoding of a scalar value. */
  ghost predicate Starts(bytes: seq<nat>)
  {
    exists p: nat :: IsScalar(p) && bytes <= EncodePoint(p)
  }

  ghost predicate Encodes(bytes: seq<nat>)
  {
    exists p: nat :: IsScalar(p) && bytes == EncodePoint(p)
  }

  datatype Piece = Good(point: nat) | Bad(bytes: seq<nat>)

  /** What is replaced: a byte that begins no encoding, or the begun part of one, as far as it goes. */
  ghost predicate Maximal(bad: seq<nat>, rest: seq<nat>)
  {
    bad != [] &&
    if Starts(bad) then !Encodes(bad) && (rest != [] ==> !Starts(bad + [rest[0]])) else |bad| == 1
  }

  function Bytes(pieces: seq<Piece>): seq<nat>
  {
    if pieces == [] then []
    else
      var rest := Bytes(pieces[1..]);
      match pieces[0]
      case Good(point) => EncodePoint(Scalarize(point)) + rest
      case Bad(bytes) => bytes + rest
  }

  ghost predicate Cut(pieces: seq<Piece>)
  {
    pieces != [] ==>
      Cut(pieces[1..]) &&
      if pieces[0].Good? then IsScalar(pieces[0].point) else Maximal(pieces[0].bytes, Bytes(pieces[1..]))
  }

  function Points(pieces: seq<Piece>): (points: seq<nat>)
    ensures |points| == |pieces|
    ensures forall i :: 0 <= i < |pieces| ==> points[i] == if pieces[i].Good? then pieces[i].point else 0xFFFD
  {
    seq(|pieces|, i requires 0 <= i < |pieces| => if pieces[i].Good? then pieces[i].point else 0xFFFD)
  }

  // ---------------------------------------------------------------------------
  // What the decoder takes without complaint
  // ---------------------------------------------------------------------------

  /** A sequence in progress begins the encoding of some scalar value. */
  lemma PendingStarts(s: Utf8State) returns (p: nat)
    requires s.needed > 0
    ensures IsScalar(p) && |Pending(s)| < |EncodePoint(p)| && Pending(s) <= EncodePoint(p)
  {
    var next := s.point * 64 + s.lower - 0x80;
    p := next * Weight(s.needed - s.seen);
    assert Begun(s.needed, s.seen + 1, next) == Pending(s) + [s.lower] by {
      assert next / 64 == s.point && 0x80 + next % 64 == s.lower;
    }
    BegunOn(s.needed, s.seen + 1, next);
    BegunComplete(s.needed, p);
  }

  /** With zero bits to the end. */
  lemma BegunOn(needed: nat, seen: nat, point: nat)
    requires 1 <= seen <= needed <= 3
    ensures var all := Begun(needed, needed, point * Weight(needed - seen + 1));
      Begun(needed, seen, point) <= all && |all| == needed + 1 && |Begun(needed, seen, point)| == seen + 1
  {
    hide Begun;
    BegunLength(needed, seen, point);
    BegunLength(needed, needed, point * Weight(needed - seen + 1));
    if seen < needed { BegunZero(needed, seen, point); }
    if seen + 1 < needed { BegunZero(needed, seen + 1, point * 64); }
  }

  lemma BegunZero(needed: nat, seen: nat, point: nat)
    ensures Begun(needed, seen + 1, point * 64) == Begun(needed, seen, point) + [0x80]
  {
    assert point * 64 / 64 == point && point * 64 % 64 == 0;
  }

  lemma {:induction false} BegunLength(needed: nat, seen: nat, point: nat)
    ensures |Begun(needed, seen, point)| == seen + 1
  {
    if seen > 0 { BegunLength(needed, seen - 1, point / 64); }
  }

  /** Fed without an error and without output, the bytes are less than one encoding, and the other way round. */
  lemma OpenStarts(bytes: seq<nat>)
    ensures var fed := Feed(Decoder(true), INITIAL, bytes);
      fed.Drained? && fed.output == [] && bytes != [] ==> Starts(bytes) && !Encodes(bytes) && fed.state.needed > 0
  {
    var fed := Feed(Decoder(true), INITIAL, bytes);
    if fed.Drained? && fed.output == [] && bytes != [] {
      FedSpells(bytes);
      assert bytes == [] + Pending(fed.state) == Pending(fed.state);
      var p := PendingStarts(fed.state);
      if q: nat :| IsScalar(q) && bytes == EncodePoint(q) { DecodePoint(true, q); }
    }
  }

  lemma StartsOpen(bytes: seq<nat>)
    requires Starts(bytes) && !Encodes(bytes)
    ensures var fed := Feed(Decoder(true), INITIAL, bytes); fed.Drained? && fed.output == []
  {
    hide Feed, EncodePoint;
    var p: nat :| IsScalar(p) && bytes <= EncodePoint(p);
    var all := EncodePoint(p);
    DecodePoint(true, p);
    assert all == bytes + all[|bytes|..];
    FeedSplit(Decoder(true), INITIAL, bytes, all[|bytes|..]);
    var fed := Feed(Decoder(true), INITIAL, bytes);
    FedSpells(bytes);
    var more := Feed(Decoder(true), fed.state, all[|bytes|..]);
    assert fed.output + more.output == [p];
    assert fed.output != [] ==> (fed.output + more.output)[0] == fed.output[0];
    if fed.output != [] { SpellsAll(bytes, p, fed.output, Pending(fed.state)); }
  }

  lemma SpellsAll(bytes: seq<nat>, p: nat, output: seq<nat>, pending: seq<nat>)
    requires IsScalar(p) && bytes <= EncodePoint(p) && output != [] && output[0] == p && AllScalars(output)
    requires bytes == EncodePoints(output) + pending
    ensures Encodes(bytes)
  {
    hide EncodePoint, EncodePoints;
    EncodesFirst(output);
    assert EncodePoint(p) <= bytes;
    assert bytes == EncodePoint(p);
  }

  lemma EncodesFirst(points: seq<nat>)
    requires points != [] && AllScalars(points)
    ensures EncodePoint(points[0]) <= EncodePoints(points)
  {
  }

  /** What fatal mode takes, the other mode takes alike. */
  lemma {:induction false} FatalSame(s: Utf8State, bytes: seq<nat>)
    requires Feed(Decoder(true), s, bytes).Drained?
    ensures Feed(Decoder(false), s, bytes) == Feed(Decoder(true), s, bytes)
    decreases |bytes|
  {
    if bytes != [] {
      assert bytes == [bytes[0]] + bytes[1..];
      FeedByte(true, s, bytes[0], bytes[1..]);
      FeedByte(false, s, bytes[0], bytes[1..]);
      FatalSame(Handle(true, s, bytes[0]).state, bytes[1..]);
    }
  }

  /** After the beginning of an encoding exactly those bytes are malformed that do not continue one. */
  lemma MalformedNext(bytes: seq<nat>, b: nat)
    requires var fed := Feed(Decoder(true), INITIAL, bytes); fed.Drained? && fed.output == []
    ensures Malformed(Feed(Decoder(true), INITIAL, bytes).state, b) <==> !Starts(bytes + [b])
  {
    hide Feed;
    var fed, all := Feed(Decoder(true), INITIAL, bytes), bytes + [b];
    if Starts(all) {
      if Encodes(all) {
        var p: nat :| IsScalar(p) && all == EncodePoint(p);
        DecodePoint(true, p);
      } else {
        StartsOpen(all);
      }
      FeedLast(bytes, b);
    }
    if !Malformed(fed.state, b) { TakenStarts(bytes, b); }
  }

  lemma TakenStarts(bytes: seq<nat>, b: nat)
    requires var fed := Feed(Decoder(true), INITIAL, bytes);
      fed.Drained? && fed.output == [] && !Malformed(fed.state, b)
    ensures Starts(bytes + [b])
  {
    hide Feed, Continue, Lead, Starts;
    var fed, all := Feed(Decoder(true), INITIAL, bytes), bytes + [b];
    FeedSplit(Decoder(true), INITIAL, bytes, [b]);
    FeedByte(true, fed.state, b, []);
    assert [b] + [] == [b];
    HandleSpells(fed.state, b);
    FedEmpty(Handle(true, fed.state, b).state);
    FedSpells(all);
    OpenStarts(all);
    var step := Handle(true, fed.state, b);
    if step.output != [] {
      OneAtATime(fed.state, b);
      EncodedOne(step.output[0]);
      WholeStarts(step.output[0]);
      assert all == EncodePoint(step.output[0]) + [] == EncodePoint(step.output[0]);
    }
  }

  lemma FedEmpty(s: Utf8State)
    ensures Feed(Decoder(true), s, []) == Drained(s, [])
  {
  }

  lemma WholeStarts(p: nat)
    requires IsScalar(p)
    ensures Starts(EncodePoint(p))
  {
  }

  lemma OneAtATime(s: Utf8State, b: nat)
    requires !Malformed(s, b) && Handle(true, s, b).output != []
    ensures var step := Handle(true, s, b);
      step == Emit(INITIAL, [step.output[0]]) && IsScalar(step.output[0]) && Pending(INITIAL) == []
  {
  }

  // ---------------------------------------------------------------------------
  // What is replaced
  // ---------------------------------------------------------------------------

  /** A maximal malformed part gives one U+FFFD, and the rest is decoded as if it stood alone. */
  lemma BadReplaced(bad: seq<nat>, rest: seq<nat>)
    requires Maximal(bad, rest)
    ensures var all, alone := Whole(Decoder(false), bad + rest), Whole(Decoder(false), rest);
      all.outcome == alone.outcome && all.output == [0xFFFD] + alone.output && all.unread == alone.unread
  {
    hide Feed, Starts, Run;
    if Starts(bad) {
      StartsOpen(bad);
      OpenStarts(bad);
      FatalSame(INITIAL, bad);
      var s := Feed(Decoder(false), INITIAL, bad).state;
      RunSplit(Decoder(false), INITIAL, bad, rest, true);
      if rest != [] { MalformedNext(bad, rest[0]); }
      Restarts(s, rest);
      var output := Run(Decoder(false), s, rest, true).output;
      assert [] + output == output;
    } else {
      assert bad == [bad[0]] && [] + bad == bad;
      FedNothing();
      MalformedNext([], bad[0]);
      RunStep(Decoder(false), INITIAL, bad + rest, true);
      assert (bad + rest)[1..] == rest;
    }
  }

  /** In a sequence that does not go on, the decoder reports it and handles the next byte afresh. */
  lemma Restarts(s: Utf8State, rest: seq<nat>)
    requires s.needed > 0 && (rest != [] ==> Malformed(s, rest[0]))
    ensures var all, alone := Run(Decoder(false), s, rest, true), Run(Decoder(false), INITIAL, rest, true);
      all.outcome == alone.outcome && all.output == [0xFFFD] + alone.output && all.unread == alone.unread
  {
    if rest != [] {
      hide Run, Lead;
      RunStep(Decoder(false), s, rest, true);
      RunStep(Decoder(false), INITIAL, rest, true);
      var lead := Lead(rest[0]);
      LeadEmits(rest[0]);
      var after := Run(Decoder(false), lead.state, rest[1..], true).output;
      assert [0xFFFD] + lead.output + after == [0xFFFD] + (lead.output + after);
    }
  }

  lemma LeadEmits(b: nat)
    ensures Lead(b).Emit? && Handle(false, INITIAL, b) == Lead(b)
  {
  }

  /** Decoding gives each encoded scalar value, and one U+FFFD for each malformed part. */
  lemma {:induction false} DecodesPieces(pieces: seq<Piece>)
    requires Cut(pieces)
    ensures var whole := Whole(Decoder(false), Bytes(pieces));
      whole.outcome == Finished && whole.output == Points(pieces) && whole.unread == []
  {
    hide Feed, Maximal, Run;
    if pieces == [] {
      EmptyInput();
    } else {
      var rest := Bytes(pieces[1..]);
      DecodesPieces(pieces[1..]);
      assert Points(pieces) == [Points(pieces)[0]] + Points(pieces[1..]);
      match pieces[0] {
        case Good(point) => GoodFirst(false, point, rest);
        case Bad(bytes) => BadReplaced(bytes, rest);
      }
    }
  }

  lemma BadStops(bad: seq<nat>, rest: seq<nat>)
    requires Maximal(bad, rest)
    ensures var all := Whole(Decoder(true), bad + rest); all.outcome == Failed && all.output == [] && all.unread == rest
  {
    hide Feed, Starts, Run;
    if Starts(bad) {
      StartsOpen(bad);
      OpenStarts(bad);
      var s := Feed(Decoder(true), INITIAL, bad).state;
      RunSplit(Decoder(true), INITIAL, bad, rest, true);
      if rest != [] {
        MalformedNext(bad, rest[0]);
        RunStep(Decoder(true), s, rest, true);
        assert [rest[0]] + rest[1..] == rest;
      } else {
        FailsAtEnd(s);
      }
    } else {
      assert bad == [bad[0]] && [] + bad == bad;
      FedNothing();
      MalformedNext([], bad[0]);
      RunStep(Decoder(true), INITIAL, bad + rest, true);
      assert (bad + rest)[1..] == rest == [] + rest;
    }
  }

  lemma FailsAtEnd(s: Utf8State)
    requires s.needed > 0
    ensures var call := Run(Decoder(true), s, [], true);
      call.outcome == Failed && call.output == [] && call.unread == []
  {
  }

  /** Fatal mode gives the scalar values before the first malformed part, and leaves what follows that part. */
  lemma {:induction false} FatalStops(pieces: seq<Piece>) returns (n: nat)
    requires Cut(pieces)
    ensures n <= |pieces| && (forall i :: 0 <= i < n ==> pieces[i].Good?) && (n < |pieces| ==> pieces[n].Bad?)
    ensures var whole := Whole(Decoder(true), Bytes(pieces));
      whole.output == Points(pieces)[..n] &&
      if n == |pieces| then whole.outcome == Finished && whole.unread == []
      else whole.outcome == Failed && whole.unread == Bytes(pieces[n + 1..])
  {
    hide Maximal, Whole, EncodePoint, Points;
    n := 0;
    if pieces == [] {
      EmptyFatal();
      assert Points([])[..0] == [];
    } else {
      var piece, more := pieces[0], pieces[1..];
      if piece.Good? {
        var k := FatalStops(more);
        PointsFrom(pieces, k);
        assert k < |more| ==> more[k + 1..] == pieces[k + 2..];
        GoodFirst(true, piece.point, Bytes(more));
        n := k + 1;
      } else {
        BadStops(piece.bytes, Bytes(more));
      }
    }
  }

  lemma PointsFrom(pieces: seq<Piece>, k: nat)
    requires pieces != [] && pieces[0].Good? && k < |pieces|
    ensures Points(pieces)[..k + 1] == [pieces[0].point] + Points(pieces[1..])[..k]
  {
  }

  lemma GoodFirst(fatal: bool, point: nat, rest: seq<nat>)
    requires IsScalar(point)
    ensures var all, alone := Whole(Decoder(fatal), EncodePoint(point) + rest), Whole(Decoder(fatal), rest);
      all.outcome == alone.outcome && all.output == [point] + alone.output && all.unread == alone.unread
  {
    hide Feed, Run, EncodePoint;
    DecodePoint(fatal, point);
    RunSplit(Decoder(fatal), INITIAL, EncodePoint(point), rest, true);
  }

  lemma EmptyFatal()
    ensures Whole(Decoder(true), []) == Call(Finished, INITIAL, [], [])
  {
  }

  lemma EmptyInput()
    ensures Whole(Decoder(false), []) == Call(Finished, INITIAL, [], [])
  {
  }

  /** Every input is cut into such pieces. */
  lemma {:induction false} EveryInput(bytes: seq<nat>) returns (pieces: seq<Piece>)
    ensures Cut(pieces) && Bytes(pieces) == bytes
    decreases |bytes|
  {
    hide Maximal, Starts;
    if bytes == [] { return []; }
    var piece, n := FirstPiece(bytes, 0);
    var rest := EveryInput(bytes[n..]);
    pieces := [piece] + rest;
    assert pieces[1..] == rest && bytes == bytes[..n] + bytes[n..];
  }

  /** The first `n` bytes begin an encoding, or there are none. */
  lemma {:induction false} FirstPiece(bytes: seq<nat>, n: nat) returns (piece: Piece, length: nat)
    requires n <= |bytes| && bytes != [] && (n > 0 ==> Starts(bytes[..n]))
    ensures 0 < length <= |bytes|
    ensures match piece
      case Good(point) => IsScalar(point) && bytes[..length] == EncodePoint(point)
      case Bad(bad) => bytes[..length] == bad && Maximal(bad, bytes[length..])
    decreases |bytes| - n
  {
    hide Starts;
    if n > 0 && Encodes(bytes[..n]) {
      var p: nat :| IsScalar(p) && bytes[..n] == EncodePoint(p);
      piece, length := Good(p), n;
    } else if n < |bytes| && Starts(bytes[..n + 1]) {
      piece, length := FirstPiece(bytes, n + 1);
    } else {
      length := if n == 0 then 1 else n;
      piece := Bad(bytes[..length]);
      if n < |bytes| { assert bytes[..n + 1] == bytes[..n] + [bytes[n..][0]]; }
    }
  }
}
