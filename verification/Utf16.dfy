/** UTF-16 strings as JavaScript sees them: code units, surrogate pairs and code points. */
module Utf16 {
  newtype Unit = n: int | 0 <= n <= 0xFFFF

  predicate IsLead(u: Unit) { 0xD800 <= u <= 0xDBFF }

  predicate IsTrail(u: Unit) { 0xDC00 <= u <= 0xDFFF }

  predicate IsSurrogate(u: Unit) { 0xD800 <= u <= 0xDFFF }

  predicate PairAt(s: seq<Unit>, i: nat)
  {
    i + 1 < |s| && IsLead(s[i]) && IsTrail(s[i + 1])
  }

  /** String.prototype.codePointAt. */
  function CodePointAt(s: seq<Unit>, i: nat): (point: nat)
    requires i < |s|
    ensures point > 0xFFFF <==> PairAt(s, i)
  {
    if PairAt(s, i) then 0x10000 + (s[i] as int - 0xD800) * 0x400 + (s[i + 1] as int - 0xDC00) else s[i] as nat
  }

  /** Code units taken by the code point at `i`. */
  function UnitsAt(s: seq<Unit>, i: nat): (width: nat)
    requires i < |s|
    ensures 1 <= width <= |s| - i
  {
    if PairAt(s, i) then 2 else 1
  }

  /** The code points of a string; a lone surrogate stands for itself. */
  function CodePoints(s: seq<Unit>): (points: seq<nat>)
    decreases |s|
  {
    if s == [] then [] else [CodePointAt(s, 0)] + CodePoints(s[UnitsAt(s, 0)..])
  }

  /** Cutting between `a` and `b` does not cut a surrogate pair in two. */
  predicate CleanCut(a: seq<Unit>, b: seq<Unit>)
  {
    !(|a| > 0 && |b| > 0 && IsLead(a[|a| - 1]) && IsTrail(b[0]))
  }

  lemma FirstOfAppend(a: seq<Unit>, b: seq<Unit>)
    requires a != [] && CleanCut(a, b)
    ensures UnitsAt(a + b, 0) == UnitsAt(a, 0) && CodePointAt(a + b, 0) == CodePointAt(a, 0)
    ensures (a + b)[UnitsAt(a, 0)..] == a[UnitsAt(a, 0)..] + b
    ensures CleanCut(a[UnitsAt(a, 0)..], b)
  {
    var ab := a + b;
    assert ab[0] == a[0] && (|a| > 1 ==> ab[1] == a[1]) && (|a| == 1 && |b| > 0 ==> ab[1] == b[0]);
  }

  lemma {:induction false} CodePointsAppend(a: seq<Unit>, b: seq<Unit>)
    requires CleanCut(a, b)
    ensures CodePoints(a + b) == CodePoints(a) + CodePoints(b)
    decreases |a|
  {
    if a == [] {
      assert a + b == b;
    } else {
      FirstOfAppend(a, b);
      CodePointsAppend(a[UnitsAt(a, 0)..], b);
    }
  }

  /** Every surrogate of the string belongs to a pair. */
  predicate WellFormed(s: seq<Unit>)
    decreases |s|
  {
    s == [] ||
    if PairAt(s, 0) then WellFormed(s[2..]) else !IsSurrogate(s[0]) && WellFormed(s[1..])
  }

  lemma {:induction false} WellFormedEnds(s: seq<Unit>)
    requires WellFormed(s) && s != []
    ensures !IsLead(s[|s| - 1]) && !IsTrail(s[0])
    decreases |s|
  {
    if PairAt(s, 0) {
      if |s| > 2 { WellFormedEnds(s[2..]); }
    } else {
      if |s| > 1 { WellFormedEnds(s[1..]); }
    }
  }

  lemma {:induction false} WellFormedAppend(a: seq<Unit>, b: seq<Unit>)
    requires WellFormed(a) && WellFormed(b)
    ensures WellFormed(a + b)
    decreases |a|
  {
    if a == [] {
      assert a + b == b;
    } else {
      var width := UnitsAt(a, 0);
      assert (a + b)[width..] == a[width..] + b;
      WellFormedAppend(a[width..], b);
    }
  }

  /** A Unicode scalar value: any code point but a surrogate. */
  predicate IsScalar(point: nat)
  {
    point <= 0x10FFFF && !(0xD800 <= point <= 0xDFFF)
  }

  predicate AllScalars(points: seq<nat>)
  {
    forall p :: p in points ==> IsScalar(p)
  }

  /** The code units of one scalar value. */
  function EncodeScalar(point: nat): (units: seq<Unit>)
    requires IsScalar(point)
    ensures WellFormed(units) && CodePoints(units) == [point]
  {
    if point <= 0xFFFF then
      var units := [point as Unit];
      assert units[1..] == [];
      units
    else
      var v := point - 0x10000;
      var units := [(0xD800 + v / 0x400) as Unit, (0xDC00 + v % 0x400) as Unit];
      assert PairAt(units, 0) && units[2..] == [];
      units
  }

  /** The string made of some scalar values. */
  function FromScalars(points: seq<nat>): (units: seq<Unit>)
    requires AllScalars(points)
    ensures WellFormed(units) && CodePoints(units) == points
  {
    if points == [] then [] else
      var first, rest := EncodeScalar(points[0]), FromScalars(points[1..]);
      WellFormedAppend(first, rest);
      WellFormedEnds(first);
      CodePointsAppend(first, rest);
      first + rest
  }

  /** A well-formed string is determined by its scalar values. */
  lemma {:induction false} CodePointsScalars(s: seq<Unit>)
    requires WellFormed(s)
    ensures AllScalars(CodePoints(s)) && FromScalars(CodePoints(s)) == s
    decreases |s|
  {
    if s != [] {
      var width := UnitsAt(s, 0);
      CodePointsScalars(s[width..]);
      assert s == s[..width] + s[width..];
      assert EncodeScalar(CodePointAt(s, 0)) == s[..width];
      assert CodePoints(s)[1..] == CodePoints(s[width..]);
    }
  }
}
