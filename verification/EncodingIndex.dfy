/**
 Lookups in an encoding index (src/encoding/indexes.ts; section 5 of the Encoding Standard): code
 point to pointer through a lazily built reverse table, and the gb18030 ranges.
 */
module EncodingIndex {
  import opened Prelude
  import PackedIndex

  /** Index code point: zero denotes an unmapped pointer. */
  function CodePoint(values: seq<nat>, pointer: nat): Option<nat>
  {
    if pointer < |values| && values[pointer] != 0 then Some(values[pointer]) else None
  }

  /** `pointer` maps to `point` and is not excluded. */
  predicate Maps(values: seq<nat>, start: int, end: int, pointer: nat, point: nat)
  {
    pointer < |values| && values[pointer] == point && !(start <= pointer <= end)
  }

  /** The least of the first `n` pointers that maps to the code point. */
  ghost predicate IsLeast(values: seq<nat>, start: int, end: int, point: nat, n: nat, r: Option<nat>)
  {
    match r
    case None => forall p: nat :: p < n ==> !Maps(values, start, end, p, point)
    case Some(p) =>
      p < n && Maps(values, start, end, p, point) && forall q: nat :: q < p ==> !Maps(values, start, end, q, point)
  }

  /** Index pointer: the least pointer outside `start..end` that maps to the code point. */
  ghost predicate IsPointer(values: seq<nat>, start: int, end: int, point: nat, r: Option<nat>)
  {
    IsLeast(values, start, end, point, |values|, r)
  }

  /** A table element: a pointer plus one, or zero. */
  function Decoded(element: nat): Option<nat>
  {
    if element == 0 then None else Some(element - 1)
  }

  /** Nothing past the end of the table. */
  function Entry(table: seq<nat>, point: nat): Option<nat>
  {
    if point < |table| then Decoded(table[point]) else None
  }

  /** The reverse table answers for every mapped code point, in 16 bits when the index is that short. */
  ghost predicate IsReverse(values: seq<nat>, start: int, end: int, table: seq<nat>)
  {
    && (forall point: nat :: point > 0 ==> IsPointer(values, start, end, point, Entry(table, point)))
    && (|table| > 0 ==> table[0] == 0)
    && (forall point :: 0 <= point < |table| ==> table[point] <= |values|)
  }

  /** Looking up a pointer and then its code point gives the code point back. */
  lemma CodePointOfPointer(values: seq<nat>, start: int, end: int, table: seq<nat>, point: nat)
    requires IsReverse(values, start, end, table) && point > 0
    ensures match Entry(table, point)
            case Some(p) => CodePoint(values, p) == Some(point)
            case None => forall p: nat :: CodePoint(values, p) == Some(point) ==> start <= p <= end
  {
    if Entry(table, point).None? {
      forall p: nat | CodePoint(values, p) == Some(point) ensures start <= p <= end {
        assert !Maps(values, start, end, p, point);
      }
    }
  }

  /** `createPointers` */
  method CreatePointers(values: seq<nat>, start: int, end: int) returns (pointers: array<nat>)
    ensures fresh(pointers) && IsReverse(values, start, end, pointers[..])
    ensures |values| <= 0xFFFF ==> forall i :: 0 <= i < pointers.Length ==> pointers[i] <= 0xFFFF
    ensures pointers.Length > 0 && forall i :: 0 <= i < |values| ==> values[i] < pointers.Length
  {
    var maximum := 0;
    for i := 0 to |values|
      invariant forall k :: 0 <= k < i ==> values[k] <= maximum
    {
      if values[i] > maximum { maximum := values[i]; }
    }
    pointers := new nat[maximum + 1](_ => 0);
    for pointer := 0 to |values|
      invariant fresh(pointers) && pointers.Length == maximum + 1 && pointers[0] == 0
      invariant forall point :: 0 <= point <= maximum ==> pointers[point] <= pointer
      invariant forall point :: 1 <= point <= maximum ==>
        IsLeast(values, start, end, point, pointer, Decoded(pointers[point]))
    {
      ghost var before := pointers[..];
      var point := values[pointer];
      if !(start <= pointer <= end) && point != 0 && pointers[point] == 0 {
        pointers[point] := pointer + 1;
      }
      forall c | 1 <= c <= maximum ensures IsLeast(values, start, end, c, pointer + 1, Decoded(pointers[c])) {
        assert IsLeast(values, start, end, c, pointer, Decoded(before[c]));
      }
    }
  }

  // ---------------------------------------------------------------------------
  // Index objects
  // ---------------------------------------------------------------------------

  /** The greatest pointer that maps to the code point, excluded or not. */
  ghost predicate IsLast(values: seq<nat>, point: nat, r: Option<nat>)
  {
    match r
    case None => point !in values
    case Some(p) => p < |values| && values[p] == point && point !in values[p + 1..]
  }

  /** Array.prototype.lastIndexOf, plus one. */
  function LastIndexPlusOne(values: seq<nat>, point: nat): (r: nat)
    ensures IsLast(values, point, Decoded(r)) && r <= |values|
    decreases |values|
  {
    if values == [] then 0 else
      var n := |values| - 1;
      assert values == values[..n] + [values[n]];
      if values[n] == point then n + 1 else
        var r := LastIndexPlusOne(values[..n], point);
        assert r > 0 ==> values[r..] == values[..n][r..] + [values[n]];
        r
  }

  /** Big5's encoder leaves out its first pointers, and takes the last one for six code points. */
  const BIG5_EXCLUDED: int := (0xA1 - 0x81) * 157 - 1
  const BIG5_LAST: seq<nat> := [0x2550, 0x255E, 0x2561, 0x256A, 0x5341, 0x5345]

  /** Big5's reverse lookup; a code point past the table has no pointer. */
  ghost predicate IsBig5Pointer(values: seq<nat>, point: nat, r: Option<nat>)
  {
    if point in BIG5_LAST then IsLast(values, point, r) else IsPointer(values, 0, BIG5_EXCLUDED, point, r)
  }

  /** An index, unpacked and reversed when first needed. */
  class EncodingIndex {
    const packed: seq<nat>
    const length: nat
    /** 2^16 or 2^32: what the typed array of the values can hold. */
    const limit: nat
    var values: Option<seq<nat>>
    var pointers: Option<seq<nat>>
    var shiftJISPointers: Option<seq<nat>>
    var big5Pointers: Option<seq<nat>>

    constructor (packed: seq<nat>, length: nat, limit: nat)
      requires limit > 0
      ensures Valid() && this.packed == packed && this.length == length && this.limit == limit
    {
      this.packed, this.length, this.limit := packed, length, limit;
      values, pointers, shiftJISPointers, big5Pointers := None, None, None, None;
    }

    ghost function Full(): seq<nat>
      requires limit > 0
    {
      PackedIndex.Unpacked(packed, 0, PackedIndex.Zeros(length), 0, 0, limit)
    }

    /** Every cache holds what it caches. */
    ghost predicate Valid()
      reads this
    {
      && limit > 0
      && (values.Some? ==> values.value == Full())
      && (pointers.Some? ==> IsReverse(Full(), -1, -1, pointers.value))
      && (shiftJISPointers.Some? ==> IsReverse(Full(), 8272, 8835, shiftJISPointers.value))
      && (big5Pointers.Some? ==>
           Entry(big5Pointers.value, 0) == None &&
           forall point: nat :: point > 0 ==> IsBig5Pointer(Full(), point, Entry(big5Pointers.value, point)))
    }

    method Values() returns (r: seq<nat>)
      requires Valid()
      modifies `values
      ensures Valid() && r == Full()
    {
      if values.None? {
        var unpacked := PackedIndex.Unpack(packed, length, limit);
        values := Some(unpacked[..]);
      }
      r := values.value;
    }

    /** `codePoint` */
    method CodePointAt(pointer: nat) returns (r: Option<nat>)
      requires Valid()
      modifies `values
      ensures Valid() && r == CodePoint(Full(), pointer)
    {
      var all := Values();
      r := if pointer < |all| && all[pointer] != 0 then Some(all[pointer]) else None;
    }

    /** `pointer` */
    method Pointer(point: nat) returns (r: Option<nat>)
      requires Valid()
      modifies this
      ensures Valid() && if point == 0 then r == None else IsPointer(Full(), -1, -1, point, r)
    {
      if pointers.None? {
        var all := Values();
        var table := CreatePointers(all, -1, -1);
        pointers := Some(table[..]);
      }
      r := Entry(pointers.value, point);
    }

    /** `shiftJISPointer` */
    method ShiftJISPointer(point: nat) returns (r: Option<nat>)
      requires Valid()
      modifies this
      ensures Valid() && if point == 0 then r == None else IsPointer(Full(), 8272, 8835, point, r)
    {
      if shiftJISPointers.None? {
        var all := Values();
        var table := CreatePointers(all, 8272, 8835);
        shiftJISPointers := Some(table[..]);
      }
      r := Entry(shiftJISPointers.value, point);
    }

    /** Big5's `pointer` */
    method Big5Pointer(point: nat) returns (r: Option<nat>)
      requires Valid()
      modifies this
      ensures Valid() && (point == 0 ==> r == None)
      ensures point in {0x2550, 0x255E, 0x2561, 0x256A, 0x5341, 0x5345} ==> IsLast(Full(), point, r)
      ensures point > 0 && point !in {0x2550, 0x255E, 0x2561, 0x256A, 0x5341, 0x5345} ==>
        IsPointer(Full(), 0, 5023, point, r)
    {
      if big5Pointers.None? {
        var all := Values();
        var table := CreateBig5Pointers(all);
        big5Pointers := Some(table);
      }
      r := Entry(big5Pointers.value, point);
    }
  }

  /** Big5's `createPointers`; an element store past the end of the table does nothing. */
  method CreateBig5Pointers(values: seq<nat>) returns (table: seq<nat>)
    ensures Entry(table, 0) == None
    ensures forall point: nat :: point > 0 ==> IsBig5Pointer(values, point, Entry(table, point))
  {
    var pointers := CreatePointers(values, 0, BIG5_EXCLUDED);
    ghost var before := pointers[..];
    for i := 0 to |BIG5_LAST|
      invariant pointers.Length == |before| && fresh(pointers)
      invariant forall point :: 0 <= point < |before| && point !in BIG5_LAST[..i] ==> pointers[point] == before[point]
      invariant forall point :: 0 <= point < |before| && point in BIG5_LAST[..i] ==>
        IsLast(values, point, Decoded(pointers[point]))
    {
      var point := BIG5_LAST[i];
      assert BIG5_LAST[..i + 1] == BIG5_LAST[..i] + [point];
      if point < pointers.Length { pointers[point] := LastIndexPlusOne(values, point); }
    }
    table := pointers[..];
    assert BIG5_LAST[..6] == BIG5_LAST;
    forall point: nat | point > 0 ensures IsBig5Pointer(values, point, Entry(table, point)) {
      assert IsPointer(values, 0, BIG5_EXCLUDED, point, Entry(before, point));
      if point in BIG5_LAST && point >= |table| {
        assert forall i :: 0 <= i < |values| ==> values[i] < |table|;
      }
    }
  }

  // ---------------------------------------------------------------------------
  // gb18030 ranges
  // ---------------------------------------------------------------------------

  /** Pairs of a pointer (column 0) and a code point (column 1), each starting a range. */
  predicate Pairs(values: seq<nat>) { |values| >= 2 && |values| % 2 == 0 }

  function Count(values: seq<nat>): nat { |values| / 2 }

  function At(values: seq<nat>, column: nat, i: nat): nat
    requires i < Count(values) && column <= 1
  {
    values[2 * i + column]
  }

  ghost predicate Increasing(values: seq<nat>, column: nat)
    requires column <= 1
  {
    forall i, j :: 0 <= i < j < Count(values) ==> At(values, column, i) < At(values, column, j)
  }

  /** The last range that starts at or below the value; the first one when all start above it. */
  ghost predicate IsRange(values: seq<nat>, column: nat, value: int, i: nat)
    requires column <= 1
  {
    && i < Count(values)
    && (i == 0 || At(values, column, i) <= value)
    && forall j :: i < j < Count(values) ==> value < At(values, column, j)
  }

  /** `#range`, a binary search; the result is the index of the pair's first number. */
  method Range(values: seq<nat>, value: int, column: nat) returns (offset: nat)
    requires column <= 1 && Pairs(values) && Increasing(values, column)
    ensures offset % 2 == 0 && IsRange(values, column, value, offset / 2)
  {
    var low := 0;
    var high := |values| / 2;
    while low + 1 < high
      invariant 0 <= low < high <= Count(values)
      invariant low == 0 || At(values, column, low) <= value
      invariant forall j :: high <= j < Count(values) ==> value < At(values, column, j)
    {
      var middle := (low + high) / 2;
      assert values[middle * 2 + column] == At(values, column, middle);
      if values[middle * 2 + column] <= value {
        low := middle;
      } else {
        forall j | middle <= j < Count(values) ensures value < At(values, column, j) {
          assert j > middle ==> At(values, column, middle) < At(values, column, j);
        }
        high := middle;
      }
    }
    offset := low * 2;
  }

  const SPECIAL_POINTER: nat := 7457
  const SPECIAL_POINT: nat := 0xE7C7

  predicate Accepted(pointer: int)
  {
    !(39419 < pointer < 189000) && pointer <= 1237575
  }

  /** The code point of a pointer in the range `i`. */
  function Point(values: seq<nat>, i: nat, pointer: int): int
    requires i < Count(values)
  {
    At(values, 1, i) + pointer - At(values, 0, i)
  }

  /** What section 5 of the Encoding Standard gives for a pointer, by the definition of the range. */
  ghost predicate IsCodePoint(values: seq<nat>, pointer: int, r: Option<int>)
  {
    if !Accepted(pointer) then r == None
    else if pointer == SPECIAL_POINTER then r == Some(SPECIAL_POINT)
    else exists i: nat :: IsRange(values, 0, pointer, i) && r == Some(Point(values, i, pointer))
  }

  ghost predicate IsRangesPointer(values: seq<nat>, point: nat, r: int)
  {
    if point == SPECIAL_POINT then r == SPECIAL_POINTER
    else exists i: nat :: IsRange(values, 1, point, i) && r == At(values, 0, i) + point - At(values, 1, i)
  }

  /** `GB18030Ranges.codePoint` */
  method RangesCodePoint(values: seq<nat>, pointer: int) returns (r: Option<int>)
    requires Pairs(values) && Increasing(values, 0)
    ensures IsCodePoint(values, pointer, r)
    ensures r == None <==> 39419 < pointer < 189000 || pointer > 1237575
    ensures pointer == 7457 ==> r == Some(0xE7C7)
    ensures r != None && pointer != 7457 ==>
      exists i: nat :: IsRange(values, 0, pointer, i) && r == Some(values[2 * i + 1] + pointer - values[2 * i])
  {
    if (pointer > 39419 && pointer < 189000) || pointer > 1237575 { return None; }
    if pointer == SPECIAL_POINTER { return Some(SPECIAL_POINT); }
    var offset := Range(values, pointer, 0);
    assert offset == 2 * (offset / 2);
    r := Some(values[offset + 1] + pointer - values[offset]);
    assert r == Some(Point(values, offset / 2, pointer));
  }

  /** `GB18030Ranges.pointer` */
  method RangesPointer(values: seq<nat>, point: nat) returns (r: int)
    requires Pairs(values) && Increasing(values, 1)
    ensures IsRangesPointer(values, point, r)
    ensures if point == 0xE7C7 then r == 7457
      else exists i: nat :: IsRange(values, 1, point, i) && r == values[2 * i] + point - values[2 * i + 1]
  {
    if point == SPECIAL_POINT { return SPECIAL_POINTER; }
    var offset := Range(values, point, 1);
    assert offset == 2 * (offset / 2);
    r := values[offset] + point - values[offset + 1];
    assert r == At(values, 0, offset / 2) + point - At(values, 1, offset / 2);
  }

  /** The pointer belongs to the range `i`. */
  ghost predicate InRange(values: seq<nat>, i: nat, pointer: nat)
  {
    && i < Count(values) && At(values, 0, i) <= pointer
    && (i + 1 < Count(values) ==> pointer < At(values, 0, i + 1))
  }

  /**
   A ranges table: both columns increase, the first pointer is zero, the accepted pointers of a range
   end below the next range, and none of them reaches the special code point.
   */
  ghost predicate RangesTable(values: seq<nat>)
  {
    && Pairs(values) && Increasing(values, 0) && Increasing(values, 1) && At(values, 0, 0) == 0
    && (forall i: nat, p: nat :: InRange(values, i, p) && Accepted(p) && i + 1 < Count(values) ==>
          Point(values, i, p) < At(values, 1, i + 1))
    && (forall i: nat, p: nat :: InRange(values, i, p) && Accepted(p) && p != SPECIAL_POINTER ==>
          Point(values, i, p) != SPECIAL_POINT)
  }

  lemma RangeUnique(values: seq<nat>, column: nat, value: int, i: nat, j: nat)
    requires column <= 1 && IsRange(values, column, value, i) && IsRange(values, column, value, j)
    ensures i == j
  {
  }

  /** Every accepted pointer comes back from its code point. */
  lemma PointerOfCodePoint(values: seq<nat>, pointer: nat, point: nat, back: int)
    requires RangesTable(values) && IsCodePoint(values, pointer, Some(point)) && IsRangesPointer(values, point, back)
    ensures back == pointer
  {
    if pointer != SPECIAL_POINTER {
      var i: nat :| IsRange(values, 0, pointer, i) && Some(point as int) == Some(Point(values, i, pointer));
      assert InRange(values, i, pointer);
      var j: nat :| IsRange(values, 1, point, j) && back == At(values, 0, j) + point - At(values, 1, j);
      assert IsRange(values, 1, point, i) by {
        if i + 1 < Count(values) { assert point < At(values, 1, i + 1); }
      }
      RangeUnique(values, 1, point, i, j);
    }
  }

  /**
   The other way round: a code point comes back from its pointer, negative or not, exactly when it is the
   special one, or its pointer is accepted, not the special one, and ends up in the range it was counted from.
   */
  lemma CodePointOfRangesPointer(values: seq<nat>, point: nat, pointer: int, i: nat, r: Option<int>)
    requires RangesTable(values) && IsRange(values, 1, point, i)
    requires IsRangesPointer(values, point, pointer) && IsCodePoint(values, pointer, r)
    ensures r == Some(point as int) <==>
      point == SPECIAL_POINT ||
      (Accepted(pointer) && pointer != SPECIAL_POINTER && (i + 1 < Count(values) ==> pointer < At(values, 0, i + 1)))
  {
    if point != SPECIAL_POINT && Accepted(pointer) && pointer != SPECIAL_POINTER {
      var k: nat :| IsRange(values, 1, point, k) && pointer == At(values, 0, k) + point - At(values, 1, k);
      RangeUnique(values, 1, point, i, k);
      var j: nat :| IsRange(values, 0, pointer, j) && r == Some(Point(values, j, pointer));
      if i + 1 < Count(values) ==> pointer < At(values, 0, i + 1) {
        assert IsRange(values, 0, pointer, i);
        RangeUnique(values, 0, pointer, i, j);
      } else {
        assert i < j && InRange(values, j, pointer);
      }
    }
  }
}
