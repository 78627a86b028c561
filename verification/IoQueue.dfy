/** The linked list of chunks behind an I/O queue, refining `QueueState` (src/encoding/io-queue.ts). */
module IoQueue {
  import opened Prelude
  import opened Utf16
  import opened QueueSpec

  class ChunkNode {
    const data: Chunk
    var offset: nat
    var next: ChunkNode?

    constructor (data: Chunk, next: ChunkNode?)
      ensures this.data == data && offset == 0 && this.next == next
    {
      this.data, offset, this.next := data, 0, next;
    }

    /** Something is left to read, in whole items: `part`. */
    ghost predicate Holds(text: bool, part: seq<nat>)
      reads `offset
    {
      offset < |data.data| && data.Text? == text && WholeFrom(data, offset) && part == ItemsFrom(data, offset)
    }
  }

  datatype ChunkRead = Taken(chunk: Chunk) | ChunkEnd | ChunkWaiting

  datatype Wait = Ready | Pending(id: nat)

  /** `text` stands for the type parameter: a queue of strings or a queue of byte arrays. */
  class IOQueue {
    const text: bool
    var head: ChunkNode?
    var tail: ChunkNode?
    var ended: bool
    var waiters: seq<Waiter>
    /** The promises settled so far, in order. */
    var resolved: seq<nat>
    var nextId: nat

    ghost var Repr: set<ChunkNode>
    ghost var spine: seq<ChunkNode>
    /** The unread items of every node. */
    ghost var parts: seq<seq<nat>>

    /** The nodes from `head` to `tail`, each linked to the next. */
    ghost predicate Shape()
      reads `head, `tail, `spine, `Repr, Repr`next
    {
      && Distinct(spine)
      && (forall i :: 0 <= i < |spine| ==> spine[i] in Repr)
      && (forall i, j :: 0 <= i && j == i + 1 < |spine| ==> spine[i].next == spine[j])
      && (spine != [] ==> spine[|spine| - 1].next == null)
      && head == (if spine == [] then null else spine[0])
      && tail == (if spine == [] then null else spine[|spine| - 1])
    }

    /** From the node `k` on, `parts` is what is left to read. */
    ghost predicate Unread(k: nat)
      reads `parts, `spine, `Repr, Repr`offset
    {
      && |parts| == |spine|
      && (forall i :: 0 <= i < |spine| ==> spine[i] in Repr)
      && (forall i :: k <= i < |spine| ==> spine[i].Holds(text, parts[i]))
    }

    ghost predicate Linked()
      reads `head, `tail, `spine, `parts, `Repr, Repr`next, Repr`offset
    {
      Shape() && Unread(0)
    }

    ghost function State(): QueueState
      reads this
    {
      QueueState(Concat(parts), ended, waiters, resolved, nextId)
    }

    /** Everything about the queue but its items. */
    ghost function Rest(): QueueState
      reads this
    {
      QueueState([], ended, waiters, resolved, nextId)
    }

    ghost predicate Valid()
      reads this, Repr
    {
      Linked() && State().Fair()
    }

    lemma PartsNonempty()
      requires Valid()
      ensures parts == [] ==> State().items == []
      ensures parts != [] ==> parts[0] != []
    {
      if parts != [] { assert spine[0].Holds(text, parts[0]); }
    }

    constructor (text: bool)
      ensures Valid() && fresh(Repr) && this.text == text
      ensures State() == QueueState([], false, [], [], 0) && parts == []
    {
      this.text := text;
      head, tail, ended, waiters, resolved, nextId := null, null, false, [], [], 0;
      spine, parts, Repr := [], [], {};
    }

    /** Section 3: push one chunk; an empty chunk wakes nobody. */
    method Push(input: Chunk)
      requires Valid() && input.Text? == text && WholeFrom(input, 0)
      modifies this, Repr
      ensures Valid() && fresh(Repr - old(Repr))
      ensures State() == old(State()).Push(Items(input))
      ensures parts == old(parts) + (if input.data == [] then [] else [Items(input)])
    {
      if |input.data| == 0 { return; }
      Append(input);
      ConcatSnoc(old(parts), Items(input));
      WakeReaders(old(State()).(items := Concat(parts)));
    }

    method Append(input: Chunk)
      requires Linked() && input.data != [] && input.Text? == text && WholeFrom(input, 0)
      modifies this`head, this`tail, this`spine, this`parts, this`Repr, Repr
      ensures Linked() && fresh(Repr - old(Repr))
      ensures parts == old(parts) + [Items(input)]
    {
      var node := new ChunkNode(input, null);
      if tail != null { tail.next := node; } else { head := node; }
      tail := node;
      spine, parts, Repr := spine + [node], parts + [Items(input)], Repr + {node};
    }

    /** Section 3: push the end marker. */
    method PushEnd()
      requires Valid()
      modifies this
      ensures Valid() && Repr == old(Repr) && parts == old(parts)
      ensures State() == old(State()).PushEnd()
    {
      ended := true;
      WakeReaders(old(State()).(ended := true));
    }

    /** Section 3: restore items ahead of the unread input. */
    method Restore(input: Chunk)
      requires Valid() && input.Text? == text && WholeFrom(input, 0)
      modifies this
      ensures Valid() && fresh(Repr - old(Repr))
      ensures State() == old(State()).Restore(Items(input))
      ensures parts == (if input.data == [] then [] else [Items(input)]) + old(parts)
    {
      if |input.data| == 0 { return; }
      Prepend(input);
      assert parts[1..] == old(parts);
      WakeReaders(old(State()).(items := Concat(parts)));
    }

    method Prepend(input: Chunk)
      requires Linked() && input.data != [] && input.Text? == text && WholeFrom(input, 0)
      modifies this`head, this`tail, this`spine, this`parts, this`Repr
      ensures Linked() && fresh(Repr - old(Repr))
      ensures parts == [Items(input)] + old(parts)
    {
      var node := new ChunkNode(input, head);
      LinkFirst(node, Items(input));
    }

    /** Put a node that holds `part` and leads to the head in front. */
    method LinkFirst(node: ChunkNode, ghost part: seq<nat>)
      requires Linked() && node !in Repr && node.next == head && node.Holds(text, part)
      modifies this`head, this`tail, this`spine, this`parts, this`Repr
      ensures Linked() && Repr == old(Repr) + {node} && parts == [part] + old(parts)
    {
      hide Distinct, ChunkNode.Holds;
      head := node;
      if tail == null { tail := node; }
      DistinctCons(node, spine);
      ghost var before := spine;
      spine, parts, Repr := [node] + spine, [part] + parts, Repr + {node};
      forall i, j | 0 <= i && j == i + 1 < |spine| ensures spine[i].next == spine[j] {
        assert spine[j] == before[i];
        if i > 0 { assert spine[i] == before[i - 1]; }
      }
      forall i | 0 <= i < |spine| ensures spine[i].Holds(text, parts[i]) {
        if i > 0 { assert spine[i] == before[i - 1] && parts[i] == old(parts)[i - 1]; }
      }
    }

    /** `#wakeReaders`: settle every satisfiable waiter. */
    method WakeReaders(ghost before: QueueState)
      requires Linked() && State() == before && before.Settled()
      modifies this`waiters, this`resolved
      ensures State() == before.Wake() && Valid()
    {
      var list, settled := Sweep(before);
      waiters, resolved := list, settled;
      before.WakeIsFair();
    }

    /** The loop of `#wakeReaders`, compacting the waiter list in place. */
    method Sweep(ghost before: QueueState) returns (list: seq<Waiter>, settled: seq<nat>)
      requires Linked() && State() == before
      ensures list == before.Wake().waiters && settled == before.Wake().resolved
    {
      hide QueueState.Unready, QueueState.ReadyIds;
      list, settled := waiters, resolved;
      ghost var all, kept := list, [];
      before.NoneUnready();
      var remaining := 0;
      var i := 0;
      while i < |list|
        invariant i <= |list| == |all|
        invariant kept == before.Unready(all[..i]) && remaining == |kept| <= i
        invariant forall k :: 0 <= k < remaining ==> list[k] == kept[k]
        invariant forall k :: i <= k < |all| ==> list[k] == all[k]
        invariant settled == before.resolved + before.ReadyIds(all[..i])
      {
        var waiter := list[i];
        assert all[..i + 1] == all[..i] + [all[i]];
        before.UnreadySnoc(all[..i], waiter);
        var ready := CanReadNow(waiter.count);
        if ready {
          settled := settled + [waiter.id];
        } else {
          list := list[remaining := waiter];
          remaining, kept := remaining + 1, kept + [waiter];
        }
        i := i + 1;
      }
      assert all[..i] == all;
      list := list[..remaining];
    }

    /** `#canRead`: count available items without building them. */
    method CanReadNow(count: nat) returns (ready: bool)
      requires Linked()
      ensures ready <==> State().CanRead(count)
    {
      if ended { return true; }
      var wanted: int := count;
      var node := head;
      ghost var k := 0;
      ConcatFromStart(parts);
      while node != null && wanted > 0
        invariant k <= |spine| && node == (if k < |spine| then spine[k] else null)
        invariant wanted <= 0 ==> count <= |Concat(parts)|
        invariant wanted > 0 ==> count - wanted + |ConcatFrom(parts, k)| == |Concat(parts)|
        decreases |spine| - k
      {
        assert node.Holds(text, parts[k]);
        ghost var later := |ConcatFrom(parts, k + 1)|;
        if node.data.Text? {
          var offset := node.offset;
          while offset < |node.data.data| && wanted > 0
            invariant node.offset <= offset <= |node.data.data| && wanted >= 0
            invariant count - wanted + |ItemsFrom(node.data, offset)| + later == |Concat(parts)|
          {
            offset := offset + Width(node.data, offset);
            wanted := wanted - 1;
          }
        } else {
          ByteItems(node.data, node.offset);
          wanted := wanted - (|node.data.data| - node.offset);
        }
        node := node.next;
        k := k + 1;
      }
      ready := wanted <= 0;
    }

    /** `#advance`: drop the head node, which need not hold anything any more. */
    method Advance()
      requires Shape() && Unread(1) && spine != []
      modifies this`head, this`tail, this`spine, this`parts
      ensures Linked() && spine == old(spine)[1..] && parts == old(parts)[1..]
    {
      head := head.next;
      if head == null { tail := null; }
      spine, parts := spine[1..], parts[1..];
    }

    /** Set the head's offset; no other node is touched. */
    method Seek(next: nat)
      requires Linked() && spine != []
      modifies Repr`offset
      ensures Shape() && Unread(1) && spine[0].offset == next
    {
      assert forall i :: 1 <= i < |spine| ==> spine[i] != spine[0];
      head.offset := next;
    }

    /** Move past the head's first item, leaving `rest` of its part. */
    method Step() returns (item: nat, ghost rest: seq<nat>)
      requires Linked() && spine != []
      modifies `head, `tail, `spine, `parts, Repr`offset
      ensures Linked()
      ensures old(parts)[0] == [item] + rest && (!text ==> item < 256)
      ensures parts == if rest == [] then old(parts)[1..] else old(parts)[0 := rest]
    {
      var node := head;
      assert node.Holds(text, parts[0]);
      item := ItemAt(node.data, node.offset);
      var next := node.offset + Width(node.data, node.offset);
      rest := ItemsFrom(node.data, next);
      Seek(next);
      if next == |node.data.data| {
        Advance();
      } else {
        parts := parts[0 := rest];
      }
    }

    /** Read one item. */
    method ReadAvailable() returns (r: Read)
      requires Valid()
      modifies this, Repr
      ensures Valid() && Repr == old(Repr)
      ensures r == old(State()).ReadResult() && State() == old(State()).Drop(1)
      ensures !text && r.Item? ==> r.value < 256
    {
      hide QueueState.Fair;
      if head == null { return if ended then EndOfQueue else Waiting; }
      State().DropFair();
      ghost var before := parts;
      var item, rest := Step();
      ConcatStep(before, item, rest);
      r := Item(item);
    }

    /** Read the rest of the head chunk. */
    method ReadChunk() returns (r: ChunkRead)
      requires Valid()
      modifies this
      ensures Valid() && Repr == old(Repr)
      ensures old(parts) == [] ==>
        r == (if ended then ChunkEnd else ChunkWaiting) && State() == old(State()) && parts == []
      ensures old(parts) != [] ==>
        && r.Taken? && Items(r.chunk) == old(parts)[0] && r.chunk.Text? == text && WholeFrom(r.chunk, 0)
        && parts == old(parts)[1..] && Items(r.chunk) <= old(State()).items
        && State() == old(State()).Drop(|Items(r.chunk)|)
    {
      if head == null { return if ended then ChunkEnd else ChunkWaiting; }
      var node := head;
      assert node.Holds(text, parts[0]);
      SliceItems(node.data, node.offset, node.offset);
      r := Taken(if node.offset == 0 then node.data else Slice(node.data, node.offset));
      WholeSlice(node.data, node.offset, node.offset);
      Advance();
    }

    /** Look at the next `count` items without consuming them. */
    method Peek(count: nat) returns (r: Option<seq<nat>>)
      requires Linked()
      ensures r == State().Peek(count)
    {
      ghost var all := Concat(parts);
      var values := [];
      var node := head;
      ghost var k := 0;
      ConcatFromStart(parts);
      assert all[0..] == all;
      while node != null && |values| < count
        invariant k <= |spine| && node == (if k < |spine| then spine[k] else null)
        invariant |values| <= count && |values| <= |all| && values == all[..|values|]
        invariant |values| < count ==> ConcatFrom(parts, k) == all[|values|..]
        decreases |spine| - k
      {
        assert node.Holds(text, parts[k]);
        values := PeekChunk(node.data, node.offset, values, count, all, ConcatFrom(parts, k + 1));
        node := node.next;
        k := k + 1;
      }
      if |values| < count {
        assert |all[|values|..]| == 0;
        assert values == all;
      }
      r := if |values| == count || ended then Some(values) else None;
    }

    /** The inner loop of `peek`: items of one chunk, while any are wanted; `later` is what follows the chunk. */
    method PeekChunk(
      data: Chunk, start: nat, before: seq<nat>, count: nat, ghost all: seq<nat>, ghost later: seq<nat>)
      returns (values: seq<nat>)
      requires start <= |data.data| && |before| <= |all| && before == all[..|before|] && |before| <= count
      requires all[|before|..] == ItemsFrom(data, start) + later
      ensures |values| <= count && |values| <= |all| && values == all[..|values|]
      ensures |values| < count ==> all[|values|..] == later
    {
      values := before;
      var offset := start;
      while offset < |data.data| && |values| < count
        invariant start <= offset <= |data.data| && |values| <= count
        invariant |values| <= |all| && values == all[..|values|]
        invariant all[|values|..] == ItemsFrom(data, offset) + later
      {
        var item := ItemAt(data, offset);
        ghost var rest := ItemsFrom(data, offset + Width(data, offset));
        AdvanceItem(all, |values|, item, rest, later);
        values := values + [item];
        offset := offset + Width(data, offset);
      }
      assert offset == |data.data| ==> [] + later == later;
    }

    /** Read `count` items, or what is there when the end comes first. */
    method ReadCount(count: nat) returns (r: Option<seq<nat>>)
      requires Valid()
      modifies this, Repr
      ensures Valid() && Repr == old(Repr)
      ensures r == old(State()).Peek(count)
      ensures State() == if r.None? then old(State()) else old(State()).Drop(count)
    {
      r := Peek(count);
      if r == None { return; }
      var i := 0;
      while i < |r.value|
        invariant i <= |r.value| <= |old(State()).items|
        invariant Valid() && Repr == old(Repr)
        invariant State() == old(State()).Drop(i)
      {
        var _ := ReadAvailable();
        i := i + 1;
      }
      assert old(State()).Drop(i) == old(State()).Drop(count);
    }

    /** Consume every available item as a list. */
    method TakeList() returns (items: seq<nat>)
      requires Valid()
      modifies this, Repr
      ensures Valid() && Repr == old(Repr)
      ensures items == old(State()).items && State() == old(State()).(items := [])
    {
      hide QueueState.Fair, QueueState.Drop, QueueState.ReadResult;
      items := [];
      ghost var before, all := State(), State().items;
      before.NextItem(0);
      var item := ReadAvailable();
      while item.Item?
        invariant Valid() && Repr == old(Repr)
        invariant |items| <= |all| && items == all[..|items|] && State() == before.Drop(|items| + 1)
        invariant item == before.Drop(|items|).ReadResult()
        decreases |all| - |items|
      {
        before.NextItem(|items|);
        items := items + [item.value];
        before.NextItem(|items|);
        item := ReadAvailable();
      }
      before.NextItem(|items|);
    }

    /** Ask for a promise that settles once `count` items, or the end, are there. */
    method WaitFor(count: nat) returns (r: Wait)
      requires Valid()
      modifies `waiters, `nextId
      ensures Valid() && State() == old(State()).Wait(count)
      ensures r == if old(State()).CanRead(count) then Ready else Pending(old(nextId))
    {
      var ready := CanReadNow(count);
      if ready { return Ready; }
      r := Pending(nextId);
      waiters, nextId := waiters + [Waiter(nextId, count)], nextId + 1;
    }

    /** Consume the available scalar values as one string. */
    method TakeString() returns (r: seq<Unit>)
      requires Valid() && text
      modifies this
      ensures Valid() && Repr == old(Repr)
      ensures WellFormed(r) && CodePoints(r) == old(State()).items && State() == old(State()).(items := [])
    {
      if head == tail {
        assert |parts| <= 1;
        var chunk := ReadChunk();
        assert parts == [];
        if !chunk.Taken? { return []; }
        r := chunk.chunk.data;
        JoinedOne(chunk.chunk);
      } else {
        var list := TakeChunks();
        r := Joined(list);
        JoinedText(list);
      }
    }

    method TakeChunks() returns (list: seq<Chunk>)
      requires Valid()
      modifies this
      ensures Valid() && Repr == old(Repr)
      ensures forall c :: c in list ==> c.Text? == text && WholeFrom(c, 0)
      ensures AllItems(list) == old(State()).items && State() == old(State()).(items := [])
    {
      list := [];
      ghost var all := State().items;
      var more := true;
      while more
        invariant Valid() && Repr == old(Repr) && Rest() == old(Rest())
        invariant forall c :: c in list ==> c.Text? == text && WholeFrom(c, 0)
        invariant AllItems(list) + State().items == all
        invariant !more ==> State().items == []
        decreases |parts|, more
      {
        list, more := TakeNext(list);
      }
    }

    /** Move the head chunk, if there is one, to the end of `before`. */
    method TakeNext(before: seq<Chunk>) returns (list: seq<Chunk>, more: bool)
      requires Valid()
      modifies this
      ensures Valid() && Repr == old(Repr) && Rest() == old(Rest())
      ensures (forall c :: c in before ==> c.Text? == text && WholeFrom(c, 0)) ==>
        forall c :: c in list ==> c.Text? == text && WholeFrom(c, 0)
      ensures AllItems(list) + State().items == AllItems(before) + old(State()).items
      ensures if more then |parts| < |old(parts)| else parts == [] == old(parts) && State().items == []
    {
      hide QueueState.Fair, WholeFrom, Items, AllItems, Valid;
      PartsNonempty();
      var chunk := ReadChunk();
      more := chunk.Taken?;
      if !more { return before, false; }
      AllItemsSnoc(before, chunk.chunk);
      list := before + [chunk.chunk];
      assert old(State()).items == Items(chunk.chunk) + State().items;
    }

    /** The number of bytes left. */
    method Remaining() returns (length: nat)
      requires Linked() && !text
      ensures length == |Concat(parts)|
    {
      length := 0;
      var node := head;
      ghost var k := 0;
      ConcatFromStart(parts);
      while node != null
        invariant k <= |spine| && node == (if k < |spine| then spine[k] else null)
        invariant length + |ConcatFrom(parts, k)| == |Concat(parts)|
        decreases |spine| - k
      {
        assert node.Holds(text, parts[k]);
        ByteItems(node.data, node.offset);
        length := length + (|node.data.data| - node.offset);
        node, k := node.next, k + 1;
      }
    }

    /** Copy the bytes left, one chunk after the other. */
    method CopyInto(bytes: array<Unit>)
      requires Linked() && !text && bytes.Length == |Concat(parts)|
      modifies bytes
      ensures forall i :: 0 <= i < bytes.Length ==> bytes[i] as nat == Concat(parts)[i]
    {
      ghost var all := Concat(parts);
      var offset := 0;
      var node := head;
      ghost var k := 0;
      ConcatFromStart(parts);
      assert all[0..] == all;
      while node != null
        invariant k <= |spine| && node == (if k < |spine| then spine[k] else null)
        invariant 0 <= offset <= |all| && ConcatFrom(parts, k) == all[offset..]
        invariant forall i :: 0 <= i < offset ==> bytes[i] as nat == all[i]
        decreases |spine| - k
      {
        assert node.Holds(text, parts[k]);
        AdvanceBy(all, offset, parts[k], ConcatFrom(parts, k + 1));
        ByteItems(node.data, node.offset);
        var chunk := if node.offset == 0 then node.data else Slice(node.data, node.offset);
        CopyAt(bytes, offset, chunk.data, all);
        offset := offset + |chunk.data|;
        node, k := node.next, k + 1;
      }
    }

    /** One chunk, whose bytes are the next ones of `all`. */
    method CopyAt(bytes: array<Unit>, offset: nat, data: seq<Unit>, ghost all: seq<nat>)
      requires bytes.Length == |all| && offset + |data| <= |all|
      requires forall i :: 0 <= i < |data| ==> data[i] as nat == all[offset..offset + |data|][i]
      requires forall i :: 0 <= i < offset ==> bytes[i] as nat == all[i]
      modifies bytes
      ensures forall i :: 0 <= i < offset + |data| ==> bytes[i] as nat == all[i]
    {
      forall i | 0 <= i < |data| { bytes[offset + i] := data[i]; }
      forall i | offset <= i < offset + |data| ensures bytes[i] as nat == all[i] {
        assert data[i - offset] as nat == all[offset..offset + |data|][i - offset];
      }
    }

    /** Consume the available bytes into one array. */
    method TakeBytes() returns (bytes: array<Unit>)
      requires Valid() && !text
      modifies this
      ensures Valid() && spine == [] && Repr == old(Repr) && State() == old(State()).(items := [])
      ensures fresh(bytes) && bytes.Length == |old(State()).items|
      ensures forall i :: 0 <= i < bytes.Length ==> bytes[i] as nat == old(State()).items[i]
    {
      var length := Remaining();
      bytes := new Unit[length];
      CopyInto(bytes);
      head, tail := null, null;
      spine, parts := [], [];
    }
  }
}
