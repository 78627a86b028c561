/**
 The packed form of an encoding index: a record stream of LEB128 and zigzag numbers
 (src/encoding/indexes.ts `#unpack`; written by `pack` in src/encoding/scripts/generate-tables.mjs).
 */
module PackedIndex {
  // ---------------------------------------------------------------------------
  // JavaScript's 32-bit operators, on non-negative representatives
  // ---------------------------------------------------------------------------

  const TWO32: nat := 0x1_0000_0000

  function Pow2(n: nat): (p: nat)
    ensures p > 0
  {
    if n == 0 then 1 else 2 * Pow2(n - 1)
  }

  /** Bitwise or. */
  function Or(a: nat, b: nat): nat
    decreases a + b
  {
    if a == 0 && b == 0 then 0
    else (if a % 2 == 1 || b % 2 == 1 then 1 else 0) + 2 * Or(a / 2, b / 2)
  }

  /** `value |= low << shift`, the shift count being taken modulo 32. */
  function OrShifted(value: nat, low: nat, shift: nat): nat
  {
    Or(value, low * Pow2(shift % 32) % TWO32)
  }

  /** The signed number a 32-bit pattern stands for. */
  function Int32(pattern: nat): int
  {
    if pattern < 0x8000_0000 then pattern else pattern - TWO32
  }

  /** A digit that is shifted by 32 bits lands where an unshifted one does. */
  lemma ShiftWraps(value: nat, low: nat, shift: nat)
    ensures OrShifted(value, low, shift + 32) == OrShifted(value, low, shift)
  {
    hide Or, Pow2;
    assert (shift + 32) % 32 == shift % 32;
  }

  lemma {:induction false} OrZero(b: nat)
    ensures Or(0, b) == b
    decreases b
  {
    if b > 0 { OrZero(b / 2); }
  }

  /** Or adds numbers that share no bit. */
  lemma {:induction false} OrAdds(a: nat, k: nat, s: nat)
    requires a < Pow2(s)
    ensures Or(a, k * Pow2(s)) == a + k * Pow2(s)
    decreases s
  {
    if s == 0 {
      OrZero(k);
    } else {
      var half := k * Pow2(s - 1);
      assert k * Pow2(s) == 2 * half;
      OrAdds(a / 2, k, s - 1);
    }
  }

  // ---------------------------------------------------------------------------
  // Numbers
  // ---------------------------------------------------------------------------

  /** The generator's `write`: seven bits a byte, low bits first; its shift keeps 32 bits. */
  function WriteNumber(value: nat): (bytes: seq<nat>)
    ensures |bytes| > 0 && forall b :: b in bytes ==> b < 256
  {
    if value < 128 then [value] else [value % 128 + 128] + WriteNumber(value % TWO32 / 128)
  }

  /** Reading past the end yields undefined, which counts as zero. */
  function ByteAt(bytes: seq<nat>, offset: nat): nat
  {
    if offset < |bytes| then bytes[offset] else 0
  }

  function ReadFrom(bytes: seq<nat>, offset: nat, value: nat, shift: nat): (nat, nat)
    decreases |bytes| - offset
  {
    var b := ByteAt(bytes, offset);
    var next := OrShifted(value, b % 128, shift);
    if b / 128 % 2 == 1 then ReadFrom(bytes, offset + 1, next, shift + 7) else (next, offset + 1)
  }

  /** The number at `offset`, and the offset after it. */
  function ReadNumber(bytes: seq<nat>, offset: nat): (r: (int, nat))
    ensures r.1 > offset
  {
    ReadAdvances(bytes, offset, 0, 0);
    var (pattern, next) := ReadFrom(bytes, offset, 0, 0);
    (Int32(pattern), next)
  }

  lemma {:induction false} ReadAdvances(bytes: seq<nat>, offset: nat, value: nat, shift: nat)
    ensures ReadFrom(bytes, offset, value, shift).1 > offset
    decreases |bytes| - offset
  {
    var b := ByteAt(bytes, offset);
    if b / 128 % 2 == 1 { ReadAdvances(bytes, offset + 1, OrShifted(value, b % 128, shift), shift + 7); }
  }

  lemma Pow2Seven(n: nat)
    ensures Pow2(n + 7) == 128 * Pow2(n)
  {
    assert Pow2(n + 2) == 4 * Pow2(n);
    assert Pow2(n + 4) == 16 * Pow2(n);
    assert Pow2(n + 6) == 64 * Pow2(n);
  }

  lemma Weights()
    ensures Pow2(0) == 1 && Pow2(7) == 128 && Pow2(14) == 16384 && Pow2(21) == 2097152 && Pow2(28) == 268435456
  {
    Pow2Seven(0);
    Pow2Seven(7);
    Pow2Seven(14);
    Pow2Seven(21);
  }

  /** Seven bits at a time: the low digit fits above what was read. */
  lemma LowDigit(rest: nat, value: nat, shift: nat)
    requires shift <= 28 && value < Pow2(shift) && rest * Pow2(shift) < TWO32
    ensures OrShifted(value, rest % 128, shift) == value + rest % 128 * Pow2(shift)
    ensures value + rest % 128 * Pow2(shift) < Pow2(shift + 7)
  {
    hide Or, Pow2;
    var low, w := rest % 128, Pow2(shift);
    var placed := low * w;
    TimesGrows(low, rest, w);
    OrAdds(value, low, shift);
    assert placed % TWO32 == placed && shift % 32 == shift;
    TimesGrows(low, 127, w);
    Pow2Seven(shift);
  }

  /** The other digits weigh 128 times as much. */
  lemma HighDigits(rest: nat, shift: nat)
    requires shift in {0, 7, 14, 21, 28} && rest * Pow2(shift) < TWO32 && rest >= 128
    ensures shift < 28
    ensures rest % 128 * Pow2(shift) + rest / 128 * Pow2(shift + 7) == rest * Pow2(shift)
  {
    Weights();
    Pow2Seven(shift);
    TimesGrows(128, rest, Pow2(shift));
    Distribute(rest % 128, rest / 128, Pow2(shift));
  }

  lemma TimesGrows(a: nat, b: nat, w: nat)
    requires a <= b
    ensures a * w <= b * w
  {
  }

  lemma Distribute(low: nat, high: nat, w: nat)
    ensures (low + 128 * high) * w == low * w + high * (128 * w)
  {
  }

  /** `shift` bits were read, and the rest of the number fits above them in 32 bits. */
  predicate Room(rest: nat, value: nat, shift: nat)
  {
    match shift
    case 0 => value == 0 && rest < TWO32
    case 7 => value < 128 && rest < 33554432
    case 14 => value < 16384 && rest < 262144
    case 21 => value < 2097152 && rest < 2048
    case 28 => value < 268435456 && rest < 16
    case _ => false
  }

  lemma RoomFits(rest: nat, value: nat, shift: nat)
    requires Room(rest, value, shift)
    ensures shift in {0, 7, 14, 21, 28} && value < Pow2(shift) && rest * Pow2(shift) < TWO32 && rest % TWO32 == rest
  {
    hide Pow2;
    Weights();
  }

  lemma RoomNext(rest: nat, value: nat, shift: nat, next: nat)
    requires Room(rest, value, shift) && rest >= 128 && next < Pow2(shift + 7)
    ensures Room(rest / 128, next, shift + 7)
  {
    hide Pow2;
    Weights();
  }

  /** The next byte holds the low digit, and says whether more follow. */
  lemma ReadDigit(bytes: seq<nat>, offset: nat, rest: nat, value: nat, shift: nat)
    requires offset <= |bytes| && WriteNumber(rest) <= bytes[offset..]
    ensures offset < |bytes|
    ensures var next := OrShifted(value, rest % 128, shift);
      if rest < 128 then
        |WriteNumber(rest)| == 1 && ReadFrom(bytes, offset, value, shift) == (next, offset + 1)
      else
        var more := WriteNumber(rest % TWO32 / 128);
        |WriteNumber(rest)| == 1 + |more| && more <= bytes[offset + 1..] &&
        ReadFrom(bytes, offset, value, shift) == ReadFrom(bytes, offset + 1, next, shift + 7)
  {
    hide OrShifted;
    assert bytes[offset] == bytes[offset..][0] == WriteNumber(rest)[0];
    if rest >= 128 {
      assert bytes[offset + 1..] == bytes[offset..][1..];
      assert WriteNumber(rest)[1..] == WriteNumber(rest % TWO32 / 128);
    }
  }

  /** Reading the rest of a number of which `shift` bits were read. */
  lemma {:induction false} ReadRest(bytes: seq<nat>, offset: nat, rest: nat, value: nat, shift: nat)
    requires Room(rest, value, shift)
    requires offset <= |bytes| && WriteNumber(rest) <= bytes[offset..]
    ensures ReadFrom(bytes, offset, value, shift)
            == (value + rest * Pow2(shift), offset + |WriteNumber(rest)|)
    decreases rest
  {
    hide OrShifted, Pow2, Room, ReadFrom, WriteNumber;
    RoomFits(rest, value, shift);
    LowDigit(rest, value, shift);
    ReadDigit(bytes, offset, rest, value, shift);
    if rest >= 128 {
      HighDigits(rest, shift);
      RoomNext(rest, value, shift, value + rest % 128 * Pow2(shift));
      ReadRest(bytes, offset + 1, rest / 128, value + rest % 128 * Pow2(shift), shift + 7);
    }
  }

  /** The number that is read is the 32-bit one that was written, and reading stops right after it. */
  lemma ReadPattern(bytes: seq<nat>, offset: nat, value: nat)
    requires offset <= |bytes| && WriteNumber(value) <= bytes[offset..]
    ensures ReadNumber(bytes, offset) == (Int32(value % TWO32), offset + |WriteNumber(value)|)
  {
    hide ReadFrom, WriteNumber;
    if value < TWO32 {
      Weights();
      ReadRest(bytes, offset, value, 0, 0);
    } else {
      ReadLarge(bytes, offset, value);
    }
  }

  lemma ReadLarge(bytes: seq<nat>, offset: nat, value: nat)
    requires offset <= |bytes| && WriteNumber(value) <= bytes[offset..] && value >= TWO32
    ensures ReadFrom(bytes, offset, 0, 0) == (value % TWO32, offset + |WriteNumber(value)|)
  {
    hide OrShifted, ReadFrom, WriteNumber, Pow2;
    var low, rest := value % 128, value % TWO32 / 128;
    ReadDigit(bytes, offset, value, 0, 0);
    FirstDigit(low);
    assert Room(rest, low, 7);
    ReadRest(bytes, offset + 1, rest, low, 7);
    Weights();
    LowBits(value);
  }

  lemma FirstDigit(low: nat)
    requires low < 128
    ensures OrShifted(0, low, 0) == low
  {
    hide OrShifted, Pow2;
    Weights();
    LowDigit(low, 0, 0);
    assert low % 128 == low;
  }

  lemma LowBits(value: nat)
    ensures value % 128 + value % TWO32 / 128 * 128 == value % TWO32
  {
    var q := value / TWO32;
    assert value % TWO32 == value - 128 * (q * (TWO32 / 128));
  }

  /** A byte past the end counts as zero, and ends a number. */
  lemma ReadTruncated(bytes: seq<nat>, offset: nat)
    ensures offset >= |bytes| ==> ReadNumber(bytes, offset) == (0, offset + 1)
    ensures offset + 1 == |bytes| && 128 <= bytes[offset] < 256 ==>
      ReadNumber(bytes, offset) == (bytes[offset] - 128, offset + 2)
  {
    hide OrShifted;
    FirstDigit(0);
    if offset + 1 == |bytes| && 128 <= bytes[offset] < 256 {
      var low := bytes[offset] - 128;
      FirstDigit(low);
      NoDigit(low);
      assert ReadFrom(bytes, offset, 0, 0) == ReadFrom(bytes, offset + 1, low, 7);
    }
  }

  lemma NoDigit(value: nat)
    requires value < 128
    ensures OrShifted(value, 0, 7) == value
  {
    hide Or, Pow2;
    Weights();
    LowDigit(0, value, 7);
  }

  /** So a number is read back as it was written exactly when it is below 2^31: the reader's operators are signed. */
  lemma ReadWritten(bytes: seq<nat>, offset: nat, value: nat)
    requires offset <= |bytes| && WriteNumber(value) <= bytes[offset..]
    ensures ReadNumber(bytes, offset).1 == offset + |WriteNumber(value)|
    ensures ReadNumber(bytes, offset).0 == value <==> value < 0x8000_0000
  {
    ReadPattern(bytes, offset, value);
  }

  // ---------------------------------------------------------------------------
  // Records
  // ---------------------------------------------------------------------------

  /** A run of unmapped pointers, an ascending run, or one value; numbers as written, zigzag coded. */
  datatype Record = Skip(count: nat) | Ascend(count: nat, delta: nat) | Single(delta: nat)

  function Zigzag(value: int): nat
  {
    if value >= 0 then 2 * value else -2 * value - 1
  }

  /** The unpacker's `signed`. */
  function Signed(value: int): int
  {
    if value % 2 == 1 then -(value + 1) / 2 else value / 2
  }

  lemma SignedZigzag(value: int)
    ensures Signed(Zigzag(value)) == value
  {
  }

  /** Numbers small enough for the 32-bit reader. */
  predicate Small(r: Record)
  {
    match r
    case Skip(count) => count < 0x8000_0000
    case Ascend(count, delta) => count < 0x8000_0000 && delta < 0x8000_0000
    case Single(delta) => delta + 2 < 0x8000_0000
  }

  function Write(r: Record): seq<nat>
  {
    match r
    case Skip(count) => WriteNumber(0) + WriteNumber(count)
    case Ascend(count, delta) => WriteNumber(1) + WriteNumber(count) + WriteNumber(delta)
    case Single(delta) => WriteNumber(delta + 2)
  }

  function WriteAll(records: seq<Record>): seq<nat>
  {
    if records == [] then [] else Write(records[0]) + WriteAll(records[1..])
  }

  /** `start, start + 1, ...` */
  function Ascending(start: int, count: nat): (run: seq<int>)
    ensures |run| == count && forall i :: 0 <= i < count ==> run[i] == start + i
  {
    seq(count, i => start + i)
  }

  function Zeros(count: nat): (zeros: seq<nat>)
    ensures |zeros| == count && forall i :: 0 <= i < count ==> zeros[i] == 0
  {
    seq(count, _ => 0)
  }

  /** The values one record stands for, and the base of the next. */
  function Meaning(r: Record, previous: int): (seq<int>, int)
  {
    match r
    case Skip(count) => (Zeros(count), previous)
    case Ascend(count, delta) =>
      var start := previous + Signed(delta);
      (Ascending(start, count), start + count - 1)
    case Single(delta) => ([previous + Signed(delta)], previous + Signed(delta))
  }

  /** The index a record list denotes. */
  function Denoted(records: seq<Record>, previous: int): seq<int>
    decreases |records|
  {
    if records == [] then [] else
      var (values, next) := Meaning(records[0], previous);
      values + Denoted(records[1..], next)
  }

  /** A typed array of `length` elements below `limit` after storing `items` from `position` on. */
  function Stored(values: seq<nat>, position: int, items: seq<int>, limit: nat): (r: seq<nat>)
    requires limit > 0
    ensures |r| == |values|
  {
    seq(|values|, i requires 0 <= i < |values| =>
      if 0 <= i - position < |items| then items[i - position] % limit else values[i])
  }

  /** The unpacker's main loop: what is still to come of `bytes`, given what is unpacked. */
  function Unpacked(bytes: seq<nat>, offset: nat, values: seq<nat>, position: int, previous: int, limit: nat)
    : (r: seq<nat>)
    requires limit > 0
    ensures |r| == |values|
    decreases |bytes| - offset
  {
    if offset >= |bytes| then values else
      var (tag, o1) := ReadNumber(bytes, offset);
      var (first, o2) := ReadNumber(bytes, o1);
      if tag == 0 then Unpacked(bytes, o2, values, position + first, previous, limit)
      else if tag == 1 then
        var (delta, o3) := ReadNumber(bytes, o2);
        var start, count := previous + Signed(delta), if first > 0 then first else 0;
        Unpacked(bytes, o3, Stored(values, position, Ascending(start, count), limit),
                 position + count, start + count - 1, limit)
      else
        var value := previous + Signed(tag - 2);
        Unpacked(bytes, o1, Stored(values, position, [value], limit), position + 1, value, limit)
  }

  lemma StoredTwice(values: seq<nat>, position: int, a: seq<int>, b: seq<int>, limit: nat)
    requires limit > 0
    ensures Stored(Stored(values, position, a, limit), position + |a|, b, limit) ==
      Stored(values, position, a + b, limit)
  {
  }

  predicate BlankFrom(values: seq<nat>, position: nat)
  {
    forall i :: position <= i < |values| ==> values[i] == 0
  }

  lemma StoredZeros(values: seq<nat>, position: nat, count: nat, limit: nat)
    requires limit > 0 && BlankFrom(values, position)
    ensures Stored(values, position, Zeros(count), limit) == values
  {
  }

  /** The state of the unpacker: typed array, position, and base of the next record. */
  datatype Progress = Progress(values: seq<nat>, position: nat, previous: int)

  function Step(p: Progress, r: Record, limit: nat): Progress
    requires limit > 0
  {
    var (items, next) := Meaning(r, p.previous);
    Progress(Stored(p.values, p.position, items, limit), p.position + |items|, next)
  }

  function Go(bytes: seq<nat>, offset: nat, p: Progress, limit: nat): seq<nat>
    requires limit > 0
  {
    Unpacked(bytes, offset, p.values, p.position, p.previous, limit)
  }

  lemma UnpackSkip(bytes: seq<nat>, offset: nat, count: nat, p: Progress, limit: nat)
    requires limit > 0 && BlankFrom(p.values, p.position) && count < 0x8000_0000
    requires offset <= |bytes| && Write(Skip(count)) <= bytes[offset..]
    ensures Go(bytes, offset, p, limit) == Go(bytes, offset + |Write(Skip(count))|, Step(p, Skip(count), limit), limit)
  {
    hide WriteNumber;
    var o1 := offset + |WriteNumber(0)|;
    PrefixParts(WriteNumber(0), WriteNumber(count), bytes, offset);
    ReadWritten(bytes, offset, 0);
    ReadWritten(bytes, o1, count);
    StoredZeros(p.values, p.position, count, limit);
  }

  lemma UnpackAscend(bytes: seq<nat>, offset: nat, count: nat, delta: nat, p: Progress, limit: nat)
    requires limit > 0 && count < 0x8000_0000 && delta < 0x8000_0000
    requires offset <= |bytes| && Write(Ascend(count, delta)) <= bytes[offset..]
    ensures Go(bytes, offset, p, limit)
            == Go(bytes, offset + |Write(Ascend(count, delta))|, Step(p, Ascend(count, delta), limit), limit)
  {
    hide WriteNumber, ReadNumber, Go, Step;
    var tag, first, second := WriteNumber(1), WriteNumber(count), WriteNumber(delta);
    var o1, o2 := offset + |tag|, offset + |tag| + |first|;
    PrefixParts(tag + first, second, bytes, offset);
    PrefixParts(tag, first, bytes, offset);
    ReadWritten(bytes, offset, 1);
    ReadWritten(bytes, o1, count);
    ReadWritten(bytes, o2, delta);
    GoAscend(bytes, offset, o1, o2, o2 + |WriteNumber(delta)|, count, delta, p, limit);
  }

  lemma PrefixParts(a: seq<nat>, b: seq<nat>, bytes: seq<nat>, offset: nat)
    requires offset <= |bytes| && a + b <= bytes[offset..]
    ensures a <= bytes[offset..] && offset + |a| <= |bytes| && b <= bytes[offset + |a|..]
  {
    assert bytes[offset + |a|..] == bytes[offset..][|a|..];
    assert (a + b)[..|a|] == a && (a + b)[|a|..] == b;
  }

  lemma GoAscend(
    bytes: seq<nat>, offset: nat, o1: nat, o2: nat, o3: nat, count: nat, delta: nat, p: Progress, limit: nat)
    requires limit > 0 && offset < |bytes| && ReadNumber(bytes, offset) == (1, o1)
    requires ReadNumber(bytes, o1) == (count, o2) && ReadNumber(bytes, o2) == (delta, o3)
    ensures Go(bytes, offset, p, limit) == Go(bytes, o3, Step(p, Ascend(count, delta), limit), limit)
  {
  }

  /** One record is read back and takes effect. */
  lemma UnpackRecord(bytes: seq<nat>, offset: nat, r: Record, p: Progress, limit: nat)
    requires limit > 0 && Small(r) && BlankFrom(p.values, p.position)
    requires offset <= |bytes| && Write(r) <= bytes[offset..]
    ensures Go(bytes, offset, p, limit) == Go(bytes, offset + |Write(r)|, Step(p, r, limit), limit)
  {
    hide WriteNumber;
    match r
    case Skip(count) => UnpackSkip(bytes, offset, count, p, limit);
    case Ascend(count, delta) => UnpackAscend(bytes, offset, count, delta, p, limit);
    case Single(delta) => ReadWritten(bytes, offset, delta + 2);
  }

  lemma {:induction false} UnpackFrom(bytes: seq<nat>, offset: nat, records: seq<Record>, p: Progress, limit: nat)
    requires limit > 0 && BlankFrom(p.values, p.position) && forall r :: r in records ==> Small(r)
    requires offset <= |bytes| && bytes[offset..] == WriteAll(records)
    ensures Go(bytes, offset, p, limit) == Stored(p.values, p.position, Denoted(records, p.previous), limit)
    decreases |records|
  {
    hide Write;
    if records == [] {
      assert Stored(p.values, p.position, [], limit) == p.values;
    } else {
      var r := records[0];
      assert r in records;
      UnpackRecord(bytes, offset, r, p, limit);
      assert bytes[offset + |Write(r)|..] == bytes[offset..][|Write(r)|..];
      var q := Step(p, r, limit);
      assert BlankFrom(q.values, q.position);
      UnpackFrom(bytes, offset + |Write(r)|, records[1..], q, limit);
      StoredTwice(p.values, p.position, Meaning(r, p.previous).0, Denoted(records[1..], q.previous), limit);
    }
  }

  /** Unpacking a record stream gives the index the records denote, cut or padded to the typed array. */
  lemma UnpackDenotes(records: seq<Record>, length: nat, limit: nat)
    requires limit > 0 && forall r :: r in records ==> Small(r)
    ensures Unpacked(WriteAll(records), 0, Zeros(length), 0, 0, limit)
            == Stored(Zeros(length), 0, Denoted(records, 0), limit)
  {
    var bytes := WriteAll(records);
    assert bytes[0..] == bytes;
    UnpackFrom(bytes, 0, records, Progress(Zeros(length), 0, 0), limit);
  }

  // ---------------------------------------------------------------------------
  // The generator
  // ---------------------------------------------------------------------------

  function ZerosEnd(values: seq<nat>, i: nat): (end: nat)
    requires i <= |values|
    ensures i <= end <= |values| && forall k :: i <= k < end ==> values[k] == 0
    decreases |values| - i
  {
    if i < |values| && values[i] == 0 then ZerosEnd(values, i + 1) else i
  }

  function RunEnd(values: seq<nat>, i: nat, end: nat): (r: nat)
    requires i < end <= |values|
    requires forall k :: i <= k < end ==> values[k] == values[i] + k - i
    ensures end <= r <= |values| && forall k :: i <= k < r ==> values[k] == values[i] + k - i
    decreases |values| - end
  {
    if end < |values| && values[end] == values[i] + end - i then RunEnd(values, i, end + 1) else end
  }

  /** A record, the index after the values it covers, and the base of the next one. */
  datatype Packed = Packed(r: Record, next: nat, base: int)

  /** The record `pack` writes at `i`; a run of fewer than four goes value by value. */
  function PackOne(values: seq<nat>, i: nat, previous: int): (p: Packed)
    requires i < |values|
    ensures i < p.next <= |values|
  {
    if values[i] == 0 then
      var end := ZerosEnd(values, i + 1);
      Packed(Skip(end - i), end, previous)
    else
      var end, delta := RunEnd(values, i, i + 1), Zigzag(values[i] - previous);
      if end - i >= 4 then Packed(Ascend(end - i, delta), end, values[end - 1])
      else Packed(Single(delta), i + 1, values[i])
  }

  function Records(values: seq<nat>, i: nat, previous: int): seq<Record>
    requires i <= |values|
    decreases |values| - i
  {
    if i == |values| then [] else
      var p := PackOne(values, i, previous);
      [p.r] + Records(values, p.next, p.base)
  }

  lemma PackOneMeans(values: seq<nat>, i: nat, previous: int)
    requires i < |values|
    ensures var p := PackOne(values, i, previous); Meaning(p.r, previous) == (values[i..p.next], p.base)
  {
    var p := PackOne(values, i, previous);
    SignedZigzag(values[i] - previous);
    assert Meaning(p.r, previous).0 == values[i..p.next];
  }

  lemma {:induction false} RecordsDenote(values: seq<nat>, i: nat, previous: int)
    requires i <= |values|
    ensures Denoted(Records(values, i, previous), previous) == values[i..]
    decreases |values| - i
  {
    hide PackOne, Meaning;
    if i < |values| {
      var p := PackOne(values, i, previous);
      PackOneMeans(values, i, previous);
      RecordsDenote(values, p.next, p.base);
      DenotedHead(p.r, Records(values, p.next, p.base), previous);
      Halves(values, i, p.next);
    }
  }

  lemma DenotedHead(r: Record, records: seq<Record>, previous: int)
    ensures Denoted([r] + records, previous) == Meaning(r, previous).0 + Denoted(records, Meaning(r, previous).1)
  {
    hide Meaning;
    assert ([r] + records)[1..] == records;
  }

  lemma Halves(values: seq<nat>, i: nat, next: nat)
    requires i <= next <= |values|
    ensures values[i..next] + values[next..] == values[i..]
  {
  }

  predicate Below(values: seq<nat>, limit: nat)
  {
    forall i :: 0 <= i < |values| ==> values[i] < limit
  }

  /** Differences of values below this are written as numbers below 2^31. */
  const BOUND: nat := 0x3FFF_FFFF

  lemma {:induction false} RecordsSmall(values: seq<nat>, i: nat, previous: int)
    requires i <= |values| < 0x8000_0000 && Below(values, BOUND) && 0 <= previous < BOUND
    ensures forall r :: r in Records(values, i, previous) ==> Small(r)
    decreases |values| - i
  {
    if i < |values| {
      var p := PackOne(values, i, previous);
      RecordsSmall(values, p.next, p.base);
    }
  }

  function Pack(values: seq<nat>): seq<nat>
  {
    WriteAll(Records(values, 0, 0))
  }

  // ---------------------------------------------------------------------------
  // The unpacker
  // ---------------------------------------------------------------------------

  /** `read`: one number, low digits first. */
  method Read(bytes: seq<nat>, offset: nat) returns (value: int, next: nat)
    ensures (value, next) == ReadNumber(bytes, offset)
  {
    var pattern, shift := 0, 0;
    next := offset;
    var b := 0;
    while true
      invariant ReadFrom(bytes, next, pattern, shift) == ReadFrom(bytes, offset, 0, 0)
      decreases |bytes| - next
    {
      b := ByteAt(bytes, next);
      next := next + 1;
      pattern := OrShifted(pattern, b % 128, shift);
      shift := shift + 7;
      if b / 128 % 2 == 0 { break; }
    }
    value := Int32(pattern);
  }

  /** `#unpack`, for a typed array whose elements are kept modulo `limit`. */
  method Unpack(bytes: seq<nat>, length: nat, limit: nat) returns (values: array<nat>)
    requires limit > 0
    ensures fresh(values) && values[..] == Unpacked(bytes, 0, Zeros(length), 0, 0, limit)
  {
    hide ReadNumber, Stored;
    values := new nat[length](_ => 0);
    assert values[..] == Zeros(length);
    var offset, position, previous := 0, 0, 0;
    while offset < |bytes|
      invariant Unpacked(bytes, offset, values[..], position, previous, limit)
                == Unpacked(bytes, 0, Zeros(length), 0, 0, limit)
      invariant fresh(values) && values.Length == length
      decreases |bytes| - offset
    {
      var tag, o1 := Read(bytes, offset);
      if tag == 0 {
        var count, o2 := Read(bytes, o1);
        position, offset := position + count, o2;
      } else if tag == 1 {
        var count, o2 := Read(bytes, o1);
        var delta, o3 := Read(bytes, o2);
        previous := previous + Signed(delta);
        var run := StoreRun(values, position, previous, count, limit);
        position, previous, offset := position + run, previous + run - 1, o3;
      } else {
        previous := previous + Signed(tag - 2);
        StoreAt(values, position, previous, limit);
        position, offset := position + 1, o1;
      }
    }
  }

  /** Store ascending values; a negative count stores none. */
  method StoreRun(values: array<nat>, position: int, start: int, count: int, limit: nat) returns (i: nat)
    requires limit > 0
    modifies values
    ensures i == (if count > 0 then count else 0)
    ensures values[..] == Stored(old(values[..]), position, Ascending(start, i), limit)
  {
    i := 0;
    while i < count
      invariant i == 0 || i <= count
      invariant values[..] == Stored(old(values[..]), position, Ascending(start, i), limit)
    {
      StoreAt(values, position + i, start + i, limit);
      StoredTwice(old(values[..]), position, Ascending(start, i), [start + i], limit);
      assert Ascending(start, i) + [start + i] == Ascending(start, i + 1);
      i := i + 1;
    }
  }

  /** An element store; one outside the typed array does nothing. */
  method StoreAt(values: array<nat>, position: int, value: int, limit: nat)
    requires limit > 0
    modifies values
    ensures values[..] == Stored(old(values[..]), position, [value], limit)
  {
    if 0 <= position < values.Length { values[position] := value % limit; }
  }

  lemma SmallMod(value: nat, limit: nat)
    requires value < limit
    ensures value % limit == value
  {
  }

  lemma StoredAll(values: seq<nat>, limit: nat)
    requires 0 < limit && Below(values, limit)
    ensures Stored(Zeros(|values|), 0, values, limit) == values
  {
    forall i | 0 <= i < |values| ensures values[i] % limit == values[i] { SmallMod(values[i], limit); }
  }

  /** What the generator packs into numbers below 2^31, the unpacker restores. */
  lemma UnpackPack(values: seq<nat>, limit: nat)
    requires 0 < limit && Below(values, limit) && forall r :: r in Records(values, 0, 0) ==> Small(r)
    ensures Unpacked(Pack(values), 0, Zeros(|values|), 0, 0, limit) == values
  {
    hide Unpacked, Records, Denoted, Stored;
    RecordsDenote(values, 0, 0);
    UnpackDenotes(Records(values, 0, 0), |values|, limit);
    assert values[0..] == values;
    StoredAll(values, limit);
  }

  predicate Restores(values: seq<nat>, limit: nat)
    requires limit > 0
  {
    Unpacked(Pack(values), 0, Zeros(|values|), 0, 0, limit) == values
  }

  /** All tables of 32-bit elements below a bound come back if and only if the bound is at most 2^30 - 1. */
  lemma TablesRestored(bound: nat)
    requires bound <= TWO32
    ensures (forall values :: |values| < 0x8000_0000 && Below(values, bound) ==> Restores(values, TWO32)) <==>
      bound <= BOUND
  {
    if bound <= BOUND {
      forall values | |values| < 0x8000_0000 && Below(values, bound) ensures Restores(values, TWO32) {
        RecordsSmall(values, 0, 0);
        UnpackPack(values, TWO32);
      }
    } else {
      assert Below([BOUND], bound);
      BoundFails();
    }
  }

  /** The number written for this value is 2^31, which is read as a negative one. */
  lemma BoundFails()
    ensures !Restores([BOUND], TWO32)
  {
    hide ReadNumber, WriteNumber;
    var bytes := WriteNumber(0x8000_0000);
    var record := Single(0x7FFF_FFFE);
    assert PackOne([BOUND], 0, 0).r == record && Records([BOUND], 0, 0) == [record];
    assert [record][1..] == [] && Write(record) == bytes;
    assert WriteAll([record]) == bytes + [] == bytes;
    assert bytes[0..] == bytes;
    ReadPattern(bytes, 0, 0x8000_0000);
    assert ReadNumber(bytes, 0) == (-0x8000_0000, |bytes|);
  }
}
