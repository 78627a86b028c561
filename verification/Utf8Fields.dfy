/**
 The UTF-8 decoder's handler on its five fields as they stand (src/encoding/codecs/utf-8.ts, replacement mode), and
 what becomes of a decoder that is used again after its input ended inside a sequence.
 */
module Utf8Fields {
  import opened Codec
  import opened Utf8
  import Utf8Bulk

  const RESET: Sequence := Sequence(0, 0, 0, 0x80, 0xBF)

  /** A byte outside a sequence sets what it needs to, and leaves the other fields. */
  function LeadFields(s: Sequence, b: nat): Step<Sequence>
  {
    if b <= 0x7F then Emit(s, [b])
    else if 0xC2 <= b <= 0xDF then Emit(s.(needed := 1, point := b - 0xC0), [])
    else if 0xE0 <= b <= 0xEF then
      Emit(s.(needed := 2, point := b - 0xE0,
              lower := if b == 0xE0 then 0xA0 else s.lower, upper := if b == 0xED then 0x9F else s.upper), [])
    else if 0xF0 <= b <= 0xF4 then
      Emit(s.(needed := 3, point := b - 0xF0,
              lower := if b == 0xF0 then 0x90 else s.lower, upper := if b == 0xF4 then 0x8F else s.upper), [])
    else Emit(s, [REPLACEMENT])
  }

  function HandleFields(s: Sequence, b: nat): Step<Sequence>
  {
    if s.needed == 0 then LeadFields(s, b)
    else if s.lower <= b <= s.upper then
      var point := s.point * 64 + b % 64;
      if s.seen + 1 != s.needed then Emit(Sequence(point, s.seen + 1, s.needed, 0x80, 0xBF), [])
      else Emit(RESET, [point])
    else
      var again := LeadFields(RESET, b);
      Emit(again.state, [REPLACEMENT] + again.output)
  }

  /** In every state that a decoder has before its input has ended this is the handler of the standard. */
  lemma FieldsHandle(s: Utf8State, b: nat)
    requires Utf8Bulk.Proper(s)
    ensures var fields, step := HandleFields(s, b), Handle(false, s, b);
      step.Emit? && fields.state == step.state && fields.output == step.output
  {
  }

  /** What the decoder writes for some bytes. */
  function Written(s: Sequence, bytes: seq<nat>): seq<nat>
    decreases |bytes|
  {
    if bytes == [] then [] else
      var step := HandleFields(s, bytes[0]);
      step.output + Written(step.state, bytes[1..])
  }

  /** Nothing but the code point is left over from the sequence that the input ended in. */
  predicate Clean(s: Sequence) { s.seen == 0 && s.lower == 0x80 && s.upper == 0xBF }

  lemma {:induction false} CleanWrites(s: Sequence, bytes: seq<nat>)
    requires s.needed == 0 && Clean(s)
    ensures Written(s, bytes) == Written(RESET, bytes)
    decreases |bytes|
  {
    if bytes != [] && (bytes[0] <= 0x7F || HandleFields(s, bytes[0]).state.needed == 0) {
      CleanWrites(s, bytes[1..]);
    }
  }

  /**
   Between sequences a decoder goes on like a new one, whatever it is given, if and only if it is clean: one whose
   input ended after a continuation, or after a lead byte that narrows the next one, does not.
   */
  lemma ReusedDecodes(s: Sequence)
    requires s.needed == 0
    ensures Clean(s) <==> forall bytes :: Written(s, bytes) == Written(RESET, bytes)
  {
    if Clean(s) {
      forall bytes ensures Written(s, bytes) == Written(RESET, bytes) { CleanWrites(s, bytes); }
    } else if s.seen != 0 {
      WritesTwo(s, 0xC3, 0xA9);
      WritesTwo(RESET, 0xC3, 0xA9);
      assert Written(RESET, [0xC3, 0xA9]) == [0xE9] != Written(s, [0xC3, 0xA9]);
    } else {
      var b := if s.lower > 0x80 then 0x80 else if s.upper < 0xBF then 0xBF else if s.lower < 0x80 then 0x7F else 0xC0;
      WritesTwo(s, 0xC2, b);
      WritesTwo(RESET, 0xC2, b);
      assert Written(s, [0xC2, b]) != Written(RESET, [0xC2, b]);
    }
  }

  lemma WritesTwo(s: Sequence, a: nat, b: nat)
    ensures var first := HandleFields(s, a);
      Written(s, [a, b]) == first.output + HandleFields(first.state, b).output
  {
    var bytes := [a, b];
    assert bytes[1..] == [b] && bytes[1..][1..] == [];
    var first := HandleFields(s, a);
    assert Written(first.state, [b]) == HandleFields(first.state, b).output + [];
  }
}
