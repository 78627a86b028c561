/**
 The I/O queue of section 3 of the Encoding Standard: the chunks it is fed with and
 the flat queue it stands for (src/encoding/io-queue.ts).
 */
module QueueSpec {
  import opened Prelude
  import opened Utf16

  /** A JavaScript string or a Uint8Array; `data` holds code units or bytes. */
  datatype Chunk = Text(data: seq<Unit>) | Bytes(data: seq<Unit>)

  /** Code units taken by the item at `offset`. */
  function Width(c: Chunk, offset: nat): (w: nat)
    requires offset < |c.data|
    ensures 1 <= w <= |c.data| - offset
  {
    if c.Text? then UnitsAt(c.data, offset) else 1
  }

  function ItemAt(c: Chunk, offset: nat): nat
    requires offset < |c.data|
  {
    if c.Text? then CodePointAt(c.data, offset) else c.data[offset] as nat
  }

  function Slice(c: Chunk, start: nat): Chunk
    requires start <= |c.data|
  {
    c.(data := c.data[start..])
  }

  /** The queue items a chunk stands for from `offset` on: scalar values of a string, or bytes. */
  function ItemsFrom(c: Chunk, offset: nat): (items: seq<nat>)
    ensures items == [] <==> offset >= |c.data|
    decreases |c.data| - offset
  {
    if offset >= |c.data| then [] else [ItemAt(c, offset)] + ItemsFrom(c, offset + Width(c, offset))
  }

  function Items(c: Chunk): seq<nat>
  {
    ItemsFrom(c, 0)
  }

  /** Cutting the read part off a chunk does not change what is left to read. */
  lemma {:induction false} SliceItems(c: Chunk, start: nat, offset: nat)
    requires start <= offset <= |c.data|
    ensures ItemsFrom(Slice(c, start), offset - start) == ItemsFrom(c, offset)
    decreases |c.data| - offset
  {
    if offset < |c.data| {
      var width := Width(c, offset);
      assert Width(Slice(c, start), offset - start) == width;
      assert ItemAt(Slice(c, start), offset - start) == ItemAt(c, offset);
      SliceItems(c, start, offset + width);
    }
  }

  lemma {:induction false} TextItems(c: Chunk, offset: nat)
    requires c.Text? && offset <= |c.data|
    ensures ItemsFrom(c, offset) == CodePoints(c.data[offset..])
    decreases |c.data| - offset
  {
    if offset < |c.data| {
      var s, width := c.data[offset..], Width(c, offset);
      assert UnitsAt(s, 0) == width && CodePointAt(s, 0) == ItemAt(c, offset);
      assert s[width..] == c.data[offset + width..];
      TextItems(c, offset + width);
    }
  }

  lemma {:induction false} ByteItems(c: Chunk, offset: nat)
    requires c.Bytes? && offset <= |c.data|
    ensures |ItemsFrom(c, offset)| == |c.data| - offset
    ensures forall i :: 0 <= i < |c.data| - offset ==> ItemsFrom(c, offset)[i] == c.data[offset + i] as nat
    decreases |c.data| - offset
  {
    if offset < |c.data| { ByteItems(c, offset + 1); }
  }

  /** From `offset` on, a string chunk is made of whole scalar values, and a byte chunk of bytes. */
  predicate WholeFrom(c: Chunk, offset: nat)
    decreases |c.data| - offset
  {
    offset <= |c.data| &&
    (offset < |c.data| ==>
       (if c.Text? then PairAt(c.data, offset) || !IsSurrogate(c.data[offset]) else c.data[offset] < 256) &&
       WholeFrom(c, offset + Width(c, offset)))
  }

  lemma {:induction false} WholeSlice(c: Chunk, start: nat, offset: nat)
    requires start <= offset && WholeFrom(c, offset)
    ensures WholeFrom(Slice(c, start), offset - start)
    decreases |c.data| - offset
  {
    if offset < |c.data| {
      assert Width(Slice(c, start), offset - start) == Width(c, offset);
      assert PairAt(Slice(c, start).data, offset - start) == PairAt(c.data, offset);
      WholeSlice(c, start, offset + Width(c, offset));
    }
  }

  lemma {:induction false} WholeBytes(c: Chunk, offset: nat)
    requires c.Bytes? && offset <= |c.data|
    ensures WholeFrom(c, offset) <==> forall i :: offset <= i < |c.data| ==> c.data[i] < 256
    decreases |c.data| - offset
  {
    if offset < |c.data| { WholeBytes(c, offset + 1); }
  }

  lemma {:induction false} WholeText(c: Chunk, offset: nat)
    requires c.Text? && offset <= |c.data|
    ensures WholeFrom(c, offset) <==> WellFormed(c.data[offset..])
    decreases |c.data| - offset
  {
    if offset < |c.data| {
      var s, width := c.data[offset..], Width(c, offset);
      assert PairAt(s, 0) == PairAt(c.data, offset);
      assert s[width..] == c.data[offset + width..];
      WholeText(c, offset + width);
    }
  }

  predicate AllBytes(items: seq<nat>)
  {
    forall i :: 0 <= i < |items| ==> items[i] < 256
  }

  function AllItems(chunks: seq<Chunk>): seq<nat>
  {
    if chunks == [] then [] else Items(chunks[0]) + AllItems(chunks[1..])
  }

  lemma {:induction false} AllItemsSnoc(chunks: seq<Chunk>, c: Chunk)
    ensures AllItems(chunks + [c]) == AllItems(chunks) + Items(c)
  {
    if chunks == [] {
      assert [c][1..] == [] && [] + [c] == [c];
    } else {
      assert (chunks + [c])[1..] == chunks[1..] + [c];
      AllItemsSnoc(chunks[1..], c);
    }
  }

  /** Array.prototype.join('') over string chunks. */
  function Joined(chunks: seq<Chunk>): seq<Unit>
  {
    if chunks == [] then [] else chunks[0].data + Joined(chunks[1..])
  }

  /** Joining well-formed strings keeps exactly their scalar values. */
  lemma {:induction false} JoinedText(chunks: seq<Chunk>)
    requires forall c :: c in chunks ==> c.Text? && WholeFrom(c, 0)
    ensures WellFormed(Joined(chunks)) && CodePoints(Joined(chunks)) == AllItems(chunks)
  {
    if chunks != [] {
      var first, rest := chunks[0], Joined(chunks[1..]);
      JoinedText(chunks[1..]);
      assert first in chunks;
      JoinedOne(first);
      WellFormedAppend(first.data, rest);
      if first.data != [] { WellFormedEnds(first.data); }
      CodePointsAppend(first.data, rest);
    }
  }

  lemma JoinedOne(c: Chunk)
    requires c.Text? && WholeFrom(c, 0)
    ensures WellFormed(c.data) && CodePoints(c.data) == Items(c)
  {
    WholeText(c, 0);
    TextItems(c, 0);
    assert c.data[0..] == c.data;
  }

  /** The next `part` of a list of which `n` items were taken. */
  lemma AdvanceBy(all: seq<nat>, n: nat, part: seq<nat>, later: seq<nat>)
    requires n <= |all| && all[n..] == part + later
    ensures n + |part| <= |all| && all[..n + |part|] == all[..n] + part && all[n + |part|..] == later
  {
    assert |all| == n + |part| + |later|;
    assert forall i :: 0 <= i < |part| ==> all[n..][i] == part[i];
    assert all[n..][|part|..] == later;
  }

  lemma AdvanceItem(all: seq<nat>, n: nat, item: nat, rest: seq<nat>, later: seq<nat>)
    requires n <= |all| && all[n..] == [item] + rest + later
    ensures n < |all| && all[..n + 1] == all[..n] + [item] && all[n + 1..] == rest + later
  {
    assert [item] + rest + later == [item] + (rest + later);
    AdvanceBy(all, n, [item], rest + later);
  }

  /** The items of the parts from the `k`-th on. */
  function ConcatFrom(parts: seq<seq<nat>>, k: nat): seq<nat>
    decreases |parts| - k
  {
    if k >= |parts| then [] else parts[k] + ConcatFrom(parts, k + 1)
  }

  lemma {:induction false} ConcatFromDrop(parts: seq<seq<nat>>, k: nat)
    requires k <= |parts|
    ensures ConcatFrom(parts, k) == Concat(parts[k..])
    decreases |parts| - k
  {
    if k < |parts| {
      ConcatFromDrop(parts, k + 1);
      assert parts[k..][1..] == parts[k + 1..];
    }
  }

  lemma ConcatFromStart(parts: seq<seq<nat>>)
    ensures ConcatFrom(parts, 0) == Concat(parts)
  {
    ConcatFromDrop(parts, 0);
    assert parts[0..] == parts;
  }

  /** Taking one item off the first of several parts, which vanishes once it is empty. */
  lemma ConcatStep(parts: seq<seq<nat>>, item: nat, rest: seq<nat>)
    requires parts != [] && parts[0] == [item] + rest
    ensures Concat(parts) == [item] + Concat(if rest == [] then parts[1..] else parts[0 := rest])
  {
    if rest != [] { assert parts[0 := rest][1..] == parts[1..]; }
  }

  // ---------------------------------------------------------------------------
  // The flat queue
  // ---------------------------------------------------------------------------

  /** A promise handed out by waitFor, still pending until `count` items or the end are there. */
  datatype Waiter = Waiter(id: nat, count: nat)

  datatype Read = Item(value: nat) | EndOfQueue | Waiting

  /** The queue of the standard: a list of items, an end marker, and the waiters. */
  datatype QueueState = QueueState(
    items: seq<nat>, ended: bool, waiters: seq<Waiter>, resolved: seq<nat>, nextId: nat)
  {
    predicate CanRead(count: nat) { ended || count <= |items| }

    function Push(input: seq<nat>): QueueState
    {
      if input == [] then this else this.(items := items + input).Wake()
    }

    function PushEnd(): QueueState { this.(ended := true).Wake() }

    function Restore(input: seq<nat>): QueueState
    {
      if input == [] then this else this.(items := input + items).Wake()
    }

    function ReadResult(): Read
    {
      if items != [] then Item(items[0]) else if ended then EndOfQueue else Waiting
    }

    function Drop(count: nat): QueueState
    {
      if count <= |items| then this.(items := items[count..]) else this.(items := [])
    }

    function Peek(count: nat): Option<seq<nat>>
    {
      if count <= |items| then Some(items[..count]) else if ended then Some(items) else None
    }

    function Wait(count: nat): QueueState
    {
      if CanRead(count) then this
      else this.(waiters := waiters + [Waiter(nextId, count)], nextId := nextId + 1)
    }

    function Wake(): QueueState
    {
      this.(waiters := Unready(waiters), resolved := resolved + ReadyIds(waiters))
    }

    function Unready(ws: seq<Waiter>): seq<Waiter>
    {
      if ws == [] then [] else
        (if CanRead(ws[0].count) then [] else [ws[0]]) + Unready(ws[1..])
    }

    function ReadyIds(ws: seq<Waiter>): seq<nat>
    {
      if ws == [] then [] else
        (if CanRead(ws[0].count) then [ws[0].id] else []) + ReadyIds(ws[1..])
    }

    /** No pending waiter could be satisfied now, and no promise is settled twice. */
    ghost predicate Fair()
    {
      Settled() && forall w :: w in waiters ==> !CanRead(w.count)
    }

    /** Promises are numbered apart, and a settled one is no longer waited on. */
    ghost predicate Settled()
    {
      && (forall w :: w in waiters ==> w.id < nextId && w.id !in resolved)
      && (forall i, j :: 0 <= i < j < |waiters| ==> waiters[i].id != waiters[j].id)
      && (forall id :: id in resolved ==> id < nextId)
      && Distinct(resolved)
    }

    /** Reading on after `n` items. */
    lemma NextItem(n: nat)
      requires n <= |items|
      ensures Drop(0) == this && Drop(n).Drop(1) == Drop(n + 1)
      ensures Drop(n).ReadResult() == if n < |items| then Item(items[n]) else if ended then EndOfQueue else Waiting
      ensures if n < |items| then items[..n + 1] == items[..n] + [items[n]]
              else items[..n] == items && Drop(n + 1) == this.(items := [])
    {
    }

    /** Fewer items serve no more waiters. */
    lemma DropFair()
      requires Fair()
      ensures Drop(1).Fair()
    {
    }

    lemma NoneUnready()
      ensures Unready([]) == [] && ReadyIds([]) == []
    {
    }

    lemma {:induction false} UnreadySnoc(ws: seq<Waiter>, w: Waiter)
      ensures Unready(ws + [w]) == Unready(ws) + (if CanRead(w.count) then [] else [w])
      ensures ReadyIds(ws + [w]) == ReadyIds(ws) + (if CanRead(w.count) then [w.id] else [])
    {
      if ws == [] {
        assert ws + [w] == [w];
      } else {
        assert (ws + [w])[1..] == ws[1..] + [w];
        UnreadySnoc(ws[1..], w);
      }
    }

    lemma {:induction false} UnreadyShort(ws: seq<Waiter>)
      ensures |Unready(ws)| <= |ws|
    {
      if ws != [] { UnreadyShort(ws[1..]); }
    }

    lemma {:induction false} WakeParts(ws: seq<Waiter>)
      requires forall i, j :: 0 <= i < j < |ws| ==> ws[i].id != ws[j].id
      ensures forall w :: w in Unready(ws) <==> w in ws && !CanRead(w.count)
      ensures forall id :: id in ReadyIds(ws) <==> exists w :: w in ws && CanRead(w.count) && w.id == id
      ensures forall i, j :: 0 <= i < j < |Unready(ws)| ==> Unready(ws)[i].id != Unready(ws)[j].id
      ensures Distinct(ReadyIds(ws))
    {
      if ws != [] {
        assert ws == [ws[0]] + ws[1..];
        WakeParts(ws[1..]);
        assert forall w :: w in ws[1..] ==> w.id != ws[0].id;
        assert ws[0].id !in ReadyIds(ws[1..]);
      }
    }

    /** Waiters that cannot be satisfied stay. */
    lemma {:induction false} FairSleeps(ws: seq<Waiter>)
      requires forall w :: w in ws ==> !CanRead(w.count)
      ensures Unready(ws) == ws && ReadyIds(ws) == []
    {
      if ws != [] {
        assert ws[0] in ws;
        FairSleeps(ws[1..]);
      }
    }

    /** Reading never satisfies a waiter, and restoring what was read gives the queue back. */
    lemma RestoreUndoesRead(count: nat)
      requires Fair() && count <= |items|
      ensures Drop(count).Fair() && Drop(count).Restore(items[..count]) == this
    {
      assert items[..count] + items[count..] == items;
      FairSleeps(waiters);
    }

    /** More input settles exactly the promises that it is enough for, from either end of the queue. */
    lemma InputSettles(input: seq<nat>)
      requires Fair()
      ensures var pushed, restored := Push(input), Restore(input);
        pushed == pushed.(items := items + input, ended := ended, nextId := nextId) &&
        restored == pushed.(items := input + items) &&
        (forall id :: id in pushed.resolved <==>
          id in resolved || exists w :: w in waiters && w.id == id && w.count <= |items| + |input|) &&
        (forall w :: w in pushed.waiters <==> w in waiters && w.count > |items| + |input|)
    {
      assert items + [] == items == [] + items;
      WakeParts(waiters);
      this.(items := items + input).WakeParts(waiters);
      this.(items := input + items).SameWake(this.(items := items + input), waiters);
      FairSleeps(waiters);
    }

    lemma {:induction false} SameWake(other: QueueState, ws: seq<Waiter>)
      requires |items| == |other.items| && ended == other.ended
      ensures Unready(ws) == other.Unready(ws) && ReadyIds(ws) == other.ReadyIds(ws)
    {
      if ws != [] { SameWake(other, ws[1..]); }
    }

    /** The end settles every promise. */
    lemma EndSettles()
      requires Fair()
      ensures var q := PushEnd();
        q.items == items && q.ended && q.waiters == [] &&
        forall id :: id in q.resolved <==> id in resolved || exists w :: w in waiters && w.id == id
    {
      var q := this.(ended := true);
      q.WakeParts(waiters);
      q.NoneStays(waiters);
    }

    lemma {:induction false} NoneStays(ws: seq<Waiter>)
      requires ended
      ensures Unready(ws) == []
    {
      if ws != [] { NoneStays(ws[1..]); }
    }

    lemma WakeIsFair()
      requires Settled()
      ensures Wake().Fair()
    {
      WakeParts(waiters);
      var woken := Wake();
      forall i, j | 0 <= i < j < |woken.resolved| ensures woken.resolved[i] != woken.resolved[j] {
        if i < |resolved| <= j { assert woken.resolved[j] in ReadyIds(waiters); }
      }
    }
  }
}
