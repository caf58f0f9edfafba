/** LInsert: a new element beside the first occurrence of a pivot.  The pivot's buffer
    may be split, and RPush is reused on the list cut short after the pivot. */
module DequeInsert {
  import opened Bits
  import opened Decimal
  import opened EntryCodec
  import opened Cells
  import opened ByteLists
  import opened Deques
  import opened DequeScan
  import opened ListSpec

  // ---------- where an element goes ----------

  /** The chunks and spare capacities after an element is pushed to the right of `before`, and
      `after` follows. */
  ghost predicate GrownBetween(before: seq<seq<Cell>>, room: seq<int>, after: seq<seq<Cell>>, roomAfter: seq<int>,
                               size: nat, chunks': seq<seq<Cell>>, spare': seq<int>, c: Cell)
  {
    exists grown, spare :: SparePushedRight(before, room, size, grown, spare, c)
                           && chunks' == grown + after && spare' == spare + roomAfter
  }

  /** After element j of chunk k: pushed to the right of what ends there.  What follows it in its
      chunk gets a chunk of its own, in a copy with spare capacity s. */
  ghost predicate PlacedAfter(l: Layout, k: nat, j: nat, size: nat, l': Layout, c: Cell, s: int)
    requires k < |l.chunks| == |l.spare| && j < |l.chunks[k]|
  {
    var left, right := l.chunks[k][..j + 1], l.chunks[k][j + 1..];
    var after, roomAfter := l.chunks[k + 1..], l.spare[k + 1..];
    && l'.leftIdx == l.leftIdx
    && 0 <= s
    && GrownBetween(l.chunks[..k] + [left], l.spare[..k] + [l.spare[k] + |Bytes(right)|],
                    if right == [] then after else [right] + after,
                    if right == [] then roomAfter else [s] + roomAfter, size, l'.chunks, l'.spare, c)
  }

  /** Before element j of chunk k: pushed to the front of the whole deque, or in a full chunk of its
      own, and what precedes it in the split chunk in a copy with spare capacity s.  A split first
      chunk loses its free left part. */
  ghost predicate PlacedBefore(l: Layout, k: nat, j: nat, size: nat, l': Layout, c: Cell, s: int)
    requires k < |l.chunks| == |l.spare| && j < |l.chunks[k]|
  {
    if k == 0 && j == 0 then
      && PushedLeft(l.chunks, l.leftIdx, size, l'.chunks, l'.leftIdx, c)
      && SparePushedLeft(l.chunks, l.leftIdx, l.spare, size, l'.spare)
    else
      var left, right := l.chunks[k][..j], l.chunks[k][j..];
      && c.pad == 0 && 0 <= s
      && l'.leftIdx == (if k == 0 then 0 else l.leftIdx)
      && l'.chunks == l.chunks[..k] + (if left == [] then [[c]] else [left, [c]]) + ([right] + l.chunks[k + 1..])
      && l'.spare == l.spare[..k] + (if left == [] then [0] else [s, 0]) + l.spare[k..]
  }

  lemma PlacedInFront(l: Layout, size: nat, l': Layout, c: Cell, s: int)
    requires l.chunks != [] && |l.spare| == |l.chunks| && l.chunks[0] != []
    requires PushedLeft(l.chunks, l.leftIdx, size, l'.chunks, l'.leftIdx, c)
    requires SparePushedLeft(l.chunks, l.leftIdx, l.spare, size, l'.spare)
    ensures PlacedBefore(l, 0, 0, size, l', c, s)
  {
  }

  lemma PlacedWithin(l: Layout, k: nat, j: nat, size: nat, l': Layout, c: Cell, s: int)
    requires k < |l.chunks| == |l.spare| && j < |l.chunks[k]| && (k != 0 || j != 0) && c.pad == 0 && 0 <= s
    requires l'.leftIdx == if k == 0 then 0 else l.leftIdx
    requires var left, right := l.chunks[k][..j], l.chunks[k][j..];
             && l'.chunks == l.chunks[..k] + (if left == [] then [[c]] else [left, [c]]) + ([right] + l.chunks[k + 1..])
             && l'.spare == l.spare[..k] + (if left == [] then [0] else [s, 0]) + l.spare[k..]
    ensures PlacedBefore(l, k, j, size, l', c, s)
  {
  }

  /** Beside element j of chunk k. */
  ghost predicate Placed(l: Layout, where: string, k: nat, j: nat, size: nat, l': Layout, c: Cell, s: int) {
    && k < |l.chunks| == |l.spare| && j < |l.chunks[k]|
    && if where == "before" then PlacedBefore(l, k, j, size, l', c, s) else PlacedAfter(l, k, j, size, l', c, s)
  }

  // ---------- a list cut in two ----------

  /** A stretch of nodes that can follow the list of q: linked up to nil, with memory of its
      own, and holding the entries of cb. */
  ghost predicate Suffix(q: Deque, back: seq<ByteListNode>, cb: seq<seq<Cell>>)
    reads q.list`nodes, q.list.nodes`arr, back, ArraysOf(back)
  {
    && Chain(back)
    && Ended(back)
    && Apart(back)
    && AllHold(back, cb, 0)
    && Packed(cb)
    && Disjoint(q.list.nodes, back)
    && ArraysOf(q.list.nodes) !! ArraysOf(back)
  }

  /** The parts of a well-shaped list before, at and after its k-th node. */
  ghost predicate PartsAt(q: Deque, front: seq<ByteListNode>, cf: seq<seq<Cell>>, pn: ByteListNode,
                          mid: seq<Cell>, back: seq<ByteListNode>, cb: seq<seq<Cell>>)
    reads q`chunks, q.list`nodes
  {
    && |front| == |cf| && |back| == |cb|
    && q.list.nodes == front + [pn] + back
    && q.chunks == cf + [mid] + cb
  }

  lemma TakeApart(q: Deque, k: nat)
    returns (front: seq<ByteListNode>, cf: seq<seq<Cell>>, back: seq<ByteListNode>, cb: seq<seq<Cell>>)
    requires q.Shape() && Packed(q.chunks) && k < |q.chunks|
    ensures |q.list.nodes| == |q.chunks|
    ensures PartsAt(q, front, cf, q.list.nodes[k], q.chunks[k], back, cb)
    ensures |front| == k && cf == q.chunks[..k] && cb == q.chunks[k + 1..] && back == q.list.nodes[k + 1..]
    ensures var spare := SpareOf(q.list.nodes);
            SpareOf(front) == spare[..k] && q.list.nodes[k].Spare() == spare[k] && SpareOf(back) == spare[k + 1..]
    ensures q.list.nodes[k].Holds(if front == [] then q.leftIdx else 0, q.chunks[k])
  {
    hide ByteListNode.Holds, Apart, Packed, ByteList.Linked, SpareOf;
    var nodes, chunks := q.list.nodes, q.chunks;
    front, cf, back, cb := nodes[..k], chunks[..k], nodes[k + 1..], chunks[k + 1..];
    assert nodes == front + [nodes[k]] + back;
    assert chunks == cf + [chunks[k]] + cb;
    SpareParts(front, nodes[k], back);
  }

  lemma SpareParts(front: seq<ByteListNode>, pn: ByteListNode, back: seq<ByteListNode>)
    ensures var spare := SpareOf(front + [pn] + back);
            && spare == SpareOf(front) + [pn.Spare()] + SpareOf(back)
            && spare[..|front|] == SpareOf(front) && spare[|front|] == pn.Spare()
            && spare[|front| + 1..] == SpareOf(back)
  {
    SpareConcat(front + [pn], back);
    SpareConcat(front, [pn]);
    SpareOne(pn);
  }

  /** What a list in three parts holds, part by part. */
  lemma ThreeParts(front: seq<ByteListNode>, cf: seq<seq<Cell>>, pn: ByteListNode, mid: seq<Cell>,
                   back: seq<ByteListNode>, cb: seq<seq<Cell>>, base: nat)
    requires |front| == |cf| && |back| == |cb|
    ensures var nodes, chunks := front + [pn] + back, cf + [mid] + cb;
            && ArraysOf(nodes) == ArraysOf(front + [pn]) + ArraysOf(back)
            && (Apart(nodes) <==> Apart(front + [pn]) && Apart(back) && ArraysOf(front + [pn]) !! ArraysOf(back))
            && (AllHold(nodes, chunks, base) <==> AllHold(front + [pn], cf + [mid], base) && AllHold(back, cb, 0))
            && (Packed(chunks) <==> Packed(cf + [mid]) && Packed(cb))
            && (Chain(nodes) <==> Chain(front + [pn]) && Chain(back) && Disjoint(front + [pn], back)
                                  && Joined(front + [pn], back))
            && Flatten(chunks) == Flatten(cf + [mid]) + Flatten(cb)
    ensures forall a :: a in ArraysOf(back) ==> allocated(a)
    ensures forall a :: a in ArraysOf(front + [pn]) ==> allocated(a)
  {
    hide ByteListNode.Holds, Apart, AllHold, Packed, Chain, Flatten;
    ApartConcat(front + [pn], back);
    HoldConcat(front + [pn], cf + [mid], back, cb, base);
    PackedConcat(cf + [mid], cb);
    ChainConcat(front + [pn], back);
    FlattenConcat(cf + [mid], cb);
  }

  /** Makes pn the tail for the time being. */
  method CutAfter(q: Deque, pn: ByteListNode, ghost front: seq<ByteListNode>, ghost cf: seq<seq<Cell>>,
                  ghost mid: seq<Cell>, ghost back: seq<ByteListNode>, ghost cb: seq<seq<Cell>>)
    requires q.Shape() && Packed(q.chunks)
    requires PartsAt(q, front, cf, pn, mid, back, cb)
    modifies q`chunks, q.list`tail, q.list`nodes, pn`next
    ensures q.Shape() && q.list.nodes == front + [pn] && q.chunks == cf + [mid] && Packed(q.chunks)
    ensures Suffix(q, back, cb) && q.list.tail == pn
    ensures ArraysOf(q.list.nodes) + ArraysOf(back) == old(ArraysOf(q.list.nodes))
    ensures pn.Spare() == old(pn.Spare())
    ensures SpareOf(front) == old(SpareOf(front)) && SpareOf(back) == old(SpareOf(back))
  {
    hide ByteListNode.Holds, Apart, AllHold, Packed, ArraysOf, ByteList.Linked, Chain, At, Flatten, SpareOf;
    ThreeParts(front, cf, pn, mid, back, cb, q.leftIdx);
    Cut(q.list, pn, front, back);
    q.list.TailLast();
    q.chunks := cf + [mid];
  }

  /** Links a stretch of nodes to the tail of q; `last` is its last node. */
  method JoinAfter(q: Deque, first: ByteListNode, last: ByteListNode, ghost rest: seq<ByteListNode>,
                   ghost cb: seq<seq<Cell>>)
    requires q.Shape() && Packed(q.chunks) && q.chunks != []
    requires Suffix(q, [first] + rest, cb) && ([first] + rest)[|rest|] == last
    modifies q`chunks, q.list`tail, q.list`nodes, q.list.nodes`next, first`prev
    ensures q.Shape() && Packed(q.chunks)
    ensures q.list.nodes == old(q.list.nodes) + ([first] + rest) && q.chunks == old(q.chunks) + cb
    ensures q.Contents() == old(q.Contents()) + Flatten(cb)
    ensures SpareOf(q.list.nodes) == old(SpareOf(q.list.nodes) + SpareOf([first] + rest))
    ensures ArraysOf(q.list.nodes) == old(ArraysOf(q.list.nodes) + ArraysOf([first] + rest))
  {
    hide ByteListNode.Holds, Apart, AllHold, Packed, ArraysOf, ByteList.Linked, Chain, At, Flatten, SpareOf;
    ghost var nodes, chunks, back := q.list.nodes, q.chunks, [first] + rest;
    ghost var f, r, l := q.LastNode();
    ArraysAllocated(nodes);
    ArraysAllocated(back);
    ApartConcat(nodes, back);
    HoldConcat(nodes, chunks, back, cb, q.leftIdx);
    PackedConcat(chunks, cb);
    FlattenConcat(chunks, cb);
    SpareConcat(nodes, back);
    Rejoin(q.list, first, last, rest);
    q.chunks := chunks + cb;
  }

  /** RPush on a list cut short leaves the stretch that was cut off alone. */
  method PushBeforeSuffix(q: Deque, x: Str, ghost back: seq<ByteListNode>, ghost cb: seq<seq<Cell>>)
    returns (ghost c: Cell)
    requires q.Shape() && Packed(q.chunks) && q.chunks != [] && Suffix(q, back, cb)
    requires Encodable(x) && !LongNumber(x)
    modifies q, q.list, q.list.nodes, ArraysOf(q.list.nodes)
    ensures q.Shape() && Packed(q.chunks) && q.chunks != [] && Suffix(q, back, cb)
    ensures c.Ok() && c.x == Canon(x)
    ensures q.leftIdx == old(q.leftIdx)
    ensures SparePushedRight(old(q.chunks), old(SpareOf(q.list.nodes)), GetEncodeDeqEntrySize(x),
                             q.chunks, SpareOf(q.list.nodes), c)
    ensures SpareOf(back) == old(SpareOf(back))
    ensures q.Contents() == old(q.Contents()) + [c]
    ensures q.Length == old(q.Length) + 1
    ensures q.list.size - NODE_SIZE * |q.list.nodes| == old(q.list.size - NODE_SIZE * |q.list.nodes|)
    ensures forall n :: n in q.list.nodes ==> n in old(q.list.nodes) || fresh(n)
    ensures forall a :: a in ArraysOf(q.list.nodes) ==> a in old(ArraysOf(q.list.nodes)) || fresh(a)
    ensures ArraysOf(back) == old(ArraysOf(back))
  {
    hide ByteListNode.Holds, Apart, AllHold, Packed, ArraysOf, ByteList.Linked, Chain, At, Flatten, Canon, Cell.Ok,
         SparePushedRight, SpareOf, GetEncodeDeqEntrySize;
    ghost var nodes := q.list.nodes;
    ArraysAllocated(back);
    ArraysAllocated(nodes);
    c := q.RPush(x);
    NonEmptyPacked(q);
    assert forall i :: 0 <= i < |back| ==> back[i] !in nodes;
  }

  lemma NonEmptyPacked(q: Deque)
    requires q.Shape() && q.Contents() != []
    ensures Packed(q.chunks) && q.chunks != []
  {
    hide ByteListNode.Holds, Apart, AllHold, ArraysOf, ByteList.Linked, Packed;
    if q.Drained() {
      FlattenOne([]);
    }
  }

  /** RPush on a list cut short, and the stretch linked back in behind it. */
  method PushAndJoin(q: Deque, x: Str, first: ByteListNode, last: ByteListNode, ghost rest: seq<ByteListNode>,
                     ghost cb: seq<seq<Cell>>)
    returns (ghost c: Cell)
    requires q.Shape() && Packed(q.chunks) && q.chunks != []
    requires Suffix(q, [first] + rest, cb) && ([first] + rest)[|rest|] == last
    requires Encodable(x) && !LongNumber(x)
    modifies q, q.list, q.list.nodes, ArraysOf(q.list.nodes), first`prev
    ensures q.Shape() && Packed(q.chunks)
    ensures c.Ok() && c.x == Canon(x)
    ensures q.leftIdx == old(q.leftIdx)
    ensures GrownBetween(old(q.chunks), old(SpareOf(q.list.nodes)), cb, old(SpareOf([first] + rest)),
                         GetEncodeDeqEntrySize(x), q.chunks, SpareOf(q.list.nodes), c)
    ensures q.Contents() == old(q.Contents()) + [c] + Flatten(cb)
    ensures q.Length == old(q.Length) + 1
    ensures q.list.size - NODE_SIZE * |q.list.nodes|
            == old(q.list.size - NODE_SIZE * |q.list.nodes|) - NODE_SIZE * (|rest| + 1)
    ensures forall n :: n in q.list.nodes ==> n in old(q.list.nodes) || n in [first] + rest || fresh(n)
    ensures forall a :: a in ArraysOf(q.list.nodes) ==>
            a in old(ArraysOf(q.list.nodes) + ArraysOf([first] + rest)) || fresh(a)
  {
    hide ByteListNode.Holds, Apart, AllHold, Packed, ArraysOf, ByteList.Linked, Chain, At, Flatten, Canon, Cell.Ok,
         SparePushedRight, SpareOf, GetEncodeDeqEntrySize;
    ghost var back := [first] + rest;
    c := PushBeforeSuffix(q, x, back, cb);
    assert forall i :: 0 <= i < |q.list.nodes| ==> q.list.nodes[i] in old(q.list.nodes) || fresh(q.list.nodes[i]);
    ghost var grown, spare := q.chunks, SpareOf(q.list.nodes);
    JoinAfter(q, first, last, rest, cb);
  }

  // ---------- after the pivot ----------

  /** The pivot ends its buffer: the element goes between pn and the next node. */
  method InsertAfterNode(q: Deque, element: Str, pn: ByteListNode, next: ByteListNode, ghost front: seq<ByteListNode>,
                         ghost cf: seq<seq<Cell>>, ghost mid: seq<Cell>, ghost rest: seq<ByteListNode>,
                         ghost cb: seq<seq<Cell>>)
    returns (ghost c: Cell)
    requires q.Valid() && Packed(q.chunks)
    requires PartsAt(q, front, cf, pn, mid, [next] + rest, cb)
    requires Encodable(element) && !LongNumber(element)
    modifies q, q.list, q.list.nodes, ArraysOf(q.list.nodes)
    ensures q.Valid()
    ensures c.Ok() && c.x == Canon(element)
    ensures q.leftIdx == old(q.leftIdx)
    ensures GrownBetween(cf + [mid], old(SpareOf(front + [pn])), cb, old(SpareOf([next] + rest)),
                         GetEncodeDeqEntrySize(element), q.chunks, SpareOf(q.list.nodes), c)
    ensures q.Contents() == Flatten(cf + [mid]) + [c] + Flatten(cb)
    ensures forall n :: n in q.list.nodes ==> n in old(q.list.nodes) || fresh(n)
    ensures forall a :: a in ArraysOf(q.list.nodes) ==> a in old(ArraysOf(q.list.nodes)) || fresh(a)
  {
    hide ByteListNode.Holds, Apart, AllHold, Packed, ArraysOf, ByteList.Linked, Chain, At, Flatten, Canon, Cell.Ok,
         GrownBetween, SpareOf, GetEncodeDeqEntrySize;
    ghost var back := [next] + rest;
    ThreeParts(front, cf, pn, mid, back, cb, q.leftIdx);
    var prevTail := q.list.tail;
    q.list.TailLast();
    assert next in q.list.nodes && pn in q.list.nodes;
    assert forall n :: n in front + [pn] ==> n in q.list.nodes;
    ghost var arrays := ArraysOf(front + [pn]);
    CutAfter(q, pn, front, cf, mid, back, cb);
    assert q.list.nodes == front + [pn] && ArraysOf(q.list.nodes) == arrays;
    assert arrays <= old(ArraysOf(q.list.nodes));
    assert forall i :: 0 <= i < |q.list.nodes| ==> q.list.nodes[i] in old(q.list.nodes);
    c := PushAndJoin(q, element, next, prevTail, rest, cb);
  }

  /** Where the entries of a buffer are split in two. */
  lemma HoldsSplit(node: ByteListNode, base: nat, at: nat, left: seq<Cell>, right: seq<Cell>)
    requires node.Holds(base, left + right) && node.Holds(at, right)
    ensures base <= at <= node.len && node.Buf()[base..at] == Bytes(left) && node.Buf()[at..] == Bytes(right)
    ensures AllOk(left) && AllOk(right)
    ensures at == base + |Bytes(left)|
  {
    hide Cell.Ok, Cell.Bytes;
    HoldsBytes(node, base, left + right);
    HoldsBytes(node, at, right);
    BytesConcat(left, right);
    assert forall i :: 0 <= i < |left| ==> left[i] == (left + right)[i];
    assert node.Buf()[base..][..at - base] == node.Buf()[base..at];
  }

  /** Moves what follows position `at` of pn's buffer to the buffer of a new node. */
  method MoveRight(pn: ByteListNode, newNode: ByteListNode, at: nat, ghost base: nat, ghost left: seq<Cell>,
                   ghost right: seq<Cell>)
    requires pn.Holds(base, left + right) && pn.Holds(at, right) && newNode != pn
    modifies pn`len, newNode`arr, newNode`off, newNode`len
    ensures fresh(newNode.arr)
    ensures pn.Spare() == old(pn.Spare()) + |Bytes(right)| && 0 <= newNode.Spare()
    ensures pn.len == at && pn.Holds(base, left) && newNode.Holds(0, right)
  {
    hide Cell.Ok, Cell.Bytes;
    HoldsSplit(pn, base, at, left, right);
    ghost var was := pn.Buf();
    var copied := CopyOf(pn.Buf()[at..]);
    newNode.arr, newNode.off, newNode.len := copied, 0, pn.len - at;
    pn.len := at;
    assert |pn.Buf()| == at && forall i :: 0 <= i < at ==> pn.Buf()[i] == was[i];
    assert pn.Buf()[base..] == was[base..at];
  }

  /** append([]byte{}, s...): fresh memory, of any capacity that suffices. */
  method CopyOf(s: Str) returns (copied: array<byte>)
    ensures fresh(copied) && |s| <= copied.Length && copied[..|s|] == s
  {
    var room :| |s| <= room;
    copied := new byte[room](_ => 0);
    forall i | 0 <= i < |s| {
      copied[i] := s[i];
    }
  }

  /** Splits the tail: what follows position `at` goes to newNode, which is not in the list. */
  method SplitTail(q: Deque, newNode: ByteListNode, at: nat, ghost front: seq<ByteListNode>, ghost cf: seq<seq<Cell>>,
                   ghost left: seq<Cell>, ghost right: seq<Cell>)
    requires q.Shape() && Packed(q.chunks) && left != [] && right != []
    requires q.list.tail != null && q.list.nodes == front + [q.list.tail]
    requires q.chunks == cf + [left + right] && |front| == |cf|
    requires q.list.tail.Holds(at, right) && newNode !in q.list.nodes
    modifies q`chunks, q.list.tail`len, newNode`arr, newNode`off, newNode`len
    ensures q.Shape() && q.chunks == cf + [left] && Packed(q.chunks)
    ensures SpareOf(q.list.nodes) == old(SpareOf(front)) + [old(q.list.tail.Spare()) + |Bytes(right)|]
    ensures 0 <= newNode.Spare() && newNode.Holds(0, right) && fresh(newNode.arr)
    ensures ArraysOf(q.list.nodes) == old(ArraysOf(q.list.nodes))
  {
    hide ByteListNode.Holds, Apart, AllHold, Packed, ArraysOf, ByteList.Linked, Flatten, SpareOf, Bytes;
    var pn := q.list.tail;
    ghost var base := if front == [] then q.leftIdx else 0;
    LastPart(front, cf, pn, left + right, q.leftIdx);
    assert pn !in front by { Distinct(q.list, front, pn); }
    assert pn in q.list.nodes;
    assert forall i :: 0 <= i < |front| ==> front[i] in q.list.nodes;
    MoveRight(pn, newNode, at, base, left, right);
    LastPart(front, cf, pn, left, q.leftIdx);
    SpareLast(front, pn);
    q.chunks := cf + [left];
  }

  lemma ShapeLinked(q: Deque)
    requires q.Shape()
    ensures q.list.Linked() && q.list.bufLen == MIN_DEQUE_NODE_SIZE
    ensures Apart(q.list.nodes) && AllHold(q.list.nodes, q.chunks, q.leftIdx)
  {
    hide ByteListNode.Holds, Apart, AllHold, Packed, ArraysOf, ByteList.Linked;
  }

  lemma Distinct(list: ByteList, front: seq<ByteListNode>, pn: ByteListNode)
    requires list.Linked() && list.nodes == front + [pn]
    ensures pn !in front
  {
    LinkedChain(list);
    ChainConcat(front, [pn]);
  }

  /** A new node in front of a stretch that can follow the list of q. */
  method LinkSuffix(q: Deque, newNode: ByteListNode, next: ByteListNode?, ghost right: seq<Cell>,
                    ghost back: seq<ByteListNode>, ghost cb: seq<seq<Cell>>)
    requires Suffix(q, back, cb) && |back| == |cb|
    requires next == (if back == [] then null else back[0])
    requires newNode !in q.list.nodes && newNode !in back && newNode.next == null
    requires newNode.arr !in ArraysOf(q.list.nodes) && newNode.arr !in ArraysOf(back)
    requires newNode.Holds(0, right) && right != []
    modifies newNode`next, back`prev
    ensures Suffix(q, [newNode] + back, [right] + cb)
    ensures newNode.next == next
    ensures ArraysOf([newNode] + back) == ArraysOf(back) + {newNode.arr}
  {
    hide ByteListNode.Holds, Apart, AllHold, Packed, ArraysOf, Chain;
    FirstPart(newNode, right, back, cb, 0);
    ApartOne(newNode);
    ChainOne(newNode);
    if next != null {
      assert back == [next] + back[1..] && [] + [newNode] == [newNode] && next in back;
      assert back[|back| - 1] in back;
      Link(newNode, next, [], back[1..]);
    } else {
      assert [newNode] + back == [newNode];
    }
  }

  /** Splits the node of the pivot after it, and makes the left part the tail for the time being. */
  method SplitAfter(q: Deque, pn: ByteListNode, newNode: ByteListNode, at: nat, ghost front: seq<ByteListNode>,
                    ghost cf: seq<seq<Cell>>, ghost left: seq<Cell>, ghost right: seq<Cell>,
                    ghost back: seq<ByteListNode>, ghost cb: seq<seq<Cell>>)
    requires q.Shape() && Packed(q.chunks)
    requires PartsAt(q, front, cf, pn, left + right, back, cb) && left != [] && right != []
    requires pn.Holds(at, right)
    requires newNode !in q.list.nodes && newNode.next == null
    modifies q`chunks, q.list`tail, q.list`nodes, q.list.nodes`next, q.list.nodes`prev, pn`len
    modifies newNode`next, newNode`arr, newNode`off, newNode`len
    ensures fresh(newNode.arr)
    ensures q.Shape() && q.list.nodes == front + [pn] && q.chunks == cf + [left] && Packed(q.chunks)
    ensures Suffix(q, [newNode] + back, [right] + cb)
    ensures SpareOf(q.list.nodes) == old(SpareOf(front)) + [old(pn.Spare()) + |Bytes(right)|]
    ensures SpareOf([newNode] + back) == [newNode.Spare()] + old(SpareOf(back)) && 0 <= newNode.Spare()
    ensures newNode.next == null <==> back == []
    ensures ArraysOf(q.list.nodes) + ArraysOf([newNode] + back) == old(ArraysOf(q.list.nodes)) + {newNode.arr}
  {
    hide ByteListNode.Holds, Apart, AllHold, Packed, ArraysOf, ByteList.Linked, Chain, At, Flatten, SpareOf, Bytes,
         ByteListNode.Spare, Deque.Shape, Suffix;
    ShapeLinked(q);
    NextAt(q.list, front, pn, back);
    var next := pn.next;
    assert forall i :: 0 <= i < |back| ==> back[i] == q.list.nodes[|front| + 1 + i];
    CutAfter(q, pn, front, cf, left + right, back, cb);
    SplitCut(q, pn, newNode, next, at, front, cf, left, right, back, cb);
  }

  /** Moves the right part of the tail to a new node, and that in front of the stretch cut off. */
  method SplitCut(q: Deque, ghost pn: ByteListNode, newNode: ByteListNode, next: ByteListNode?, at: nat,
                  ghost front: seq<ByteListNode>, ghost cf: seq<seq<Cell>>, ghost left: seq<Cell>,
                  ghost right: seq<Cell>, ghost back: seq<ByteListNode>, ghost cb: seq<seq<Cell>>)
    requires q.Shape() && Packed(q.chunks) && left != [] && right != []
    requires q.list.tail == pn && q.list.nodes == front + [q.list.tail]
    requires q.chunks == cf + [left + right] && |front| == |cf|
    requires pn.Holds(at, right)
    requires newNode !in q.list.nodes && newNode !in back && newNode.next == null
    requires Suffix(q, back, cb) && |back| == |cb| && next == (if back == [] then null else back[0])
    modifies q`chunks, q.list.tail`len, back`prev
    modifies newNode`next, newNode`arr, newNode`off, newNode`len
    ensures fresh(newNode.arr)
    ensures q.Shape() && q.chunks == cf + [left] && Packed(q.chunks)
    ensures Suffix(q, [newNode] + back, [right] + cb)
    ensures SpareOf(q.list.nodes) == old(SpareOf(front)) + [old(pn.Spare()) + |Bytes(right)|]
    ensures SpareOf([newNode] + back) == [newNode.Spare()] + old(SpareOf(back)) && 0 <= newNode.Spare()
    ensures newNode.next == next
    ensures ArraysOf(q.list.nodes) == old(ArraysOf(q.list.nodes))
    ensures ArraysOf([newNode] + back) == old(ArraysOf(back)) + {newNode.arr}
  {
    hide ByteListNode.Holds, Apart, AllHold, Packed, ArraysOf, ByteList.Linked, Chain, At, Flatten, SpareOf, Bytes,
         ByteListNode.Spare;
    ArraysAllocated(back);
    ArraysAllocated(q.list.nodes);
    assert forall i :: 0 <= i < |back| ==> back[i] !in q.list.nodes && back[i] != newNode;
    assert q.list.tail in q.list.nodes;
    ghost var spareBack := SpareOf(back);
    SplitTail(q, newNode, at, front, cf, left, right);
    NotAmong(back, newNode.arr);
    NotAmong(q.list.nodes, newNode.arr);
    assert forall i :: 0 <= i < |q.list.nodes| ==> q.list.nodes[i] !in back;
    assert SpareOf(back) == spareBack;
    SpareFirst(newNode, back);
    LinkSuffix(q, newNode, next, right, back, cb);
  }

  lemma NextAt(list: ByteList, front: seq<ByteListNode>, pn: ByteListNode, back: seq<ByteListNode>)
    requires list.Linked() && list.nodes == front + [pn] + back
    ensures pn.next == (if back == [] then null else back[0])
    ensures pn in list.nodes && (back != [] ==> back[0] in list.nodes)
  {
    assert list.nodes[|front|] == pn;
    if back != [] {
      assert list.nodes[|front| + 1] == back[0];
    }
  }

  /** The pivot ends at position `at` inside pn's buffer: what follows it moves to a new
      node, and the element goes between the two. */
  method BreakPivotNodeAndInsertAfter(q: Deque, element: Str, pn: ByteListNode, at: nat, ghost front: seq<ByteListNode>,
                                      ghost cf: seq<seq<Cell>>, ghost left: seq<Cell>, ghost right: seq<Cell>,
                                      ghost back: seq<ByteListNode>, ghost cb: seq<seq<Cell>>)
    returns (ghost c: Cell, ghost s: int)
    requires q.Valid() && Packed(q.chunks)
    requires PartsAt(q, front, cf, pn, left + right, back, cb) && left != [] && right != []
    requires pn.Holds(at, right)
    requires Encodable(element) && !LongNumber(element)
    modifies q, q.list, q.list.nodes, ArraysOf(q.list.nodes)
    ensures q.Valid()
    ensures c.Ok() && c.x == Canon(element)
    ensures q.leftIdx == old(q.leftIdx) && 0 <= s
    ensures GrownBetween(cf + [left], old(SpareOf(front)) + [old(pn.Spare()) + |Bytes(right)|], [right] + cb,
                         [s] + old(SpareOf(back)), GetEncodeDeqEntrySize(element), q.chunks, SpareOf(q.list.nodes), c)
    ensures q.Contents() == Flatten(cf + [left]) + [c] + (right + Flatten(cb))
    ensures forall n :: n in q.list.nodes ==> n in old(q.list.nodes) || fresh(n)
    ensures forall a :: a in ArraysOf(q.list.nodes) ==> a in old(ArraysOf(q.list.nodes)) || fresh(a)
  {
    hide ByteListNode.Holds, Apart, AllHold, Packed, ArraysOf, ByteList.Linked, Chain, At, Flatten, Canon, Cell.Ok,
         Deque.Shape, Suffix, GrownBetween, Encodable, LongNumber, SpareOf, Bytes, GetEncodeDeqEntrySize;
    ShapeLinked(q);
    ThreeParts(front, cf, pn, left + right, back, cb, q.leftIdx);
    ArraysAllocated(q.list.nodes);
    ghost var arrays := ArraysOf(front + [pn]);
    var prevTail := q.list.tail;
    q.list.TailLast();
    assert q.list.nodes[|front|] == pn;
    var newNode := q.list.NewNode();
    SplitAfter(q, pn, newNode, at, front, cf, left, right, back, cb);
    assert forall i :: 0 <= i < |q.list.nodes| ==> q.list.nodes[i] in old(q.list.nodes);
    var last := if newNode.next == null then newNode else prevTail;
    s := newNode.Spare();
    c := PushAndJoin(q, element, newNode, last, back, [right] + cb);
    FlattenFirst(right, cb);
    FlattenLast(cf, left);
    FlattenLast(cf, left + right);
  }

  // ---------- before the pivot ----------

  /** What a list in two parts holds, part by part. */
  lemma TwoParts(a: seq<ByteListNode>, ca: seq<seq<Cell>>, b: seq<ByteListNode>, cb: seq<seq<Cell>>, base: nat)
    requires |a| == |ca| && |b| == |cb|
    ensures ArraysOf(a + b) == ArraysOf(a) + ArraysOf(b)
    ensures Apart(a + b) <==> Apart(a) && Apart(b) && ArraysOf(a) !! ArraysOf(b)
    ensures AllHold(a + b, ca + cb, base) <==> AllHold(a, ca, base) && AllHold(b, cb, if a == [] then base else 0)
    ensures Packed(ca + cb) <==> Packed(ca) && Packed(cb)
    ensures Flatten(ca + cb) == Flatten(ca) + Flatten(cb)
    ensures forall x :: x in ArraysOf(a) ==> allocated(x)
    ensures forall x :: x in ArraysOf(b) ==> allocated(x)
  {
    hide ByteListNode.Holds, Apart, AllHold, Packed, Flatten;
    ApartConcat(a, b);
    HoldConcat(a, ca, b, cb, base);
    PackedConcat(ca, cb);
    FlattenConcat(ca, cb);
  }

  /** A new node that holds the entry of an element alone and has no spare capacity. */
  method GetNewNodeWithElement(q: Deque, element: Str) returns (elementNode: ByteListNode, ghost c: Cell)
    requires Encodable(element) && !LongNumber(element)
    modifies q.list`size
    ensures fresh(elementNode) && fresh(elementNode.arr)
    ensures elementNode.Spare() == 0 && elementNode.next == null && elementNode.prev == null
    ensures c == Cell(Canon(element), 0) && c.Ok() && elementNode.Holds(0, [c])
    ensures q.list.size == old(q.list.size) + NODE_SIZE
  {
    hide GetEncodeDeqEntrySize, ByteListNode.Holds, Cell.Ok;
    var elementEntryLen := GetEncodeDeqEntrySize(element);
    elementNode := q.list.NewNodeWithCapacity(elementEntryLen);
    c := Deque.FillNewTail(elementNode, element, elementEntryLen);
  }

  /** Links new nodes that hold the chunks cm in before pn, which then starts its buffer. */
  method SpliceBefore(q: Deque, first: ByteListNode, last: ByteListNode, pn: ByteListNode,
                      ghost mid: seq<ByteListNode>, ghost cm: seq<seq<Cell>>, ghost front: seq<ByteListNode>,
                      ghost cf: seq<seq<Cell>>, ghost back: seq<ByteListNode>, ghost cb: seq<seq<Cell>>)
    requires q.list.bufLen == MIN_DEQUE_NODE_SIZE && q.list.Linked()
    requires q.list.nodes == front + ([pn] + back) && |front| == |cf| && |[pn] + back| == |cb| && |mid| == |cm|
    requires mid != [] && mid[0] == first && mid[|mid| - 1] == last && first.prev == null
    requires Chain(mid) && Disjoint(q.list.nodes, mid)
    requires Apart(q.list.nodes) && Apart(mid) && ArraysOf(q.list.nodes) !! ArraysOf(mid)
    requires AllHold(front, cf, q.leftIdx) && AllHold(mid, cm, 0) && AllHold([pn] + back, cb, 0)
    requires Packed(cf) && Packed(cm) && Packed(cb)
    modifies q`chunks, q`leftIdx, q.list`head, q.list`nodes, q.list.nodes`next, pn`prev, first`prev, last`next
    ensures SpareOf(q.list.nodes) == old(SpareOf(front)) + old(SpareOf(mid)) + old([pn.Spare()] + SpareOf(back))
    ensures q.Shape() && Packed(q.chunks)
    ensures |q.list.nodes| == |old(q.list.nodes)| + |mid|
    ensures forall n :: n in q.list.nodes ==> n in old(q.list.nodes) || n in mid
    ensures q.leftIdx == (if front == [] then 0 else old(q.leftIdx)) && q.chunks == cf + cm + cb
    ensures q.Contents() == Flatten(cf) + Flatten(cm) + Flatten(cb)
    ensures ArraysOf(q.list.nodes) == old(ArraysOf(q.list.nodes) + ArraysOf(mid))
  {
    hide ByteListNode.Holds, Apart, AllHold, Packed, ArraysOf, ByteList.Linked, Chain, At, Flatten, SpareOf;
    TwoParts(front, cf, [pn] + back, cb, q.leftIdx);
    ArraysAllocated(mid);
    SpareConcat(front, mid);
    SpareFirst(pn, back);
    SpareConcat(front + mid, [pn] + back);
    InsertBefore(q.list, first, last, pn, mid, front, back);
    if first.prev == null {
      q.leftIdx := 0;
      assert cf == [];
      HoldNone(0);
    }
    assert q.list.nodes == front + mid + ([pn] + back);
    KeepSpliced(q, front, cf, mid, cm, [pn] + back, cb);
  }

  /** Records what a list holds that nodes have been linked into. */
  ghost method KeepSpliced(q: Deque, front: seq<ByteListNode>, cf: seq<seq<Cell>>, mid: seq<ByteListNode>,
                           cm: seq<seq<Cell>>, rest: seq<ByteListNode>, cb: seq<seq<Cell>>)
    requires q.list.bufLen == MIN_DEQUE_NODE_SIZE && q.list.Linked() && q.list.nodes == front + mid + rest
    requires |front| == |cf| && |mid| == |cm| && |rest| == |cb| && mid != []
    requires Apart(front) && Apart(mid) && Apart(rest)
    requires ArraysOf(front) !! ArraysOf(mid) && ArraysOf(front) !! ArraysOf(rest) && ArraysOf(mid) !! ArraysOf(rest)
    requires AllHold(front, cf, q.leftIdx) && AllHold(mid, cm, 0) && AllHold(rest, cb, 0)
    requires Packed(cf) && Packed(cm) && Packed(cb) && (front == [] ==> q.leftIdx == 0)
    modifies q`chunks
    ensures q.Shape() && Packed(q.chunks) && q.chunks == cf + cm + cb
    ensures q.Contents() == Flatten(cf) + Flatten(cm) + Flatten(cb)
    ensures ArraysOf(q.list.nodes) == ArraysOf(front) + ArraysOf(mid) + ArraysOf(rest)
  {
    hide ByteListNode.Holds, Apart, AllHold, Packed, ArraysOf, ByteList.Linked, Chain, At, Flatten;
    TwoParts(front, cf, mid, cm, q.leftIdx);
    TwoParts(front + mid, cf + cm, rest, cb, q.leftIdx);
    q.chunks := cf + cm + cb;
  }

  method CountOne(q: Deque)
    requires q.Shape()
    modifies q`Length
    ensures q.Shape() && q.Length == old(q.Length) + 1
  {
    hide ByteListNode.Holds, Packed, ByteList.Linked, At;
    q.Length := q.Length + 1;
  }

  /** The pivot starts pn's buffer: the element's node goes between the previous node and pn. */
  method InsertBeforeNode(q: Deque, element: Str, pn: ByteListNode, ghost front: seq<ByteListNode>,
                          ghost cf: seq<seq<Cell>>,
                          ghost mid: seq<Cell>, ghost back: seq<ByteListNode>, ghost cb: seq<seq<Cell>>)
    returns (ghost c: Cell)
    requires q.Valid() && Packed(q.chunks)
    requires PartsAt(q, front, cf, pn, mid, back, cb) && front != []
    requires Encodable(element) && !LongNumber(element)
    modifies q, q.list, q.list.nodes
    ensures SpareOf(q.list.nodes) == old(SpareOf(front)) + [0] + old([pn.Spare()] + SpareOf(back))
    ensures q.Valid()
    ensures c == Cell(Canon(element), 0) && c.Ok()
    ensures q.leftIdx == old(q.leftIdx) && q.chunks == cf + [[c]] + ([mid] + cb)
    ensures q.Contents() == Flatten(cf) + [c] + (mid + Flatten(cb))
    ensures forall n :: n in q.list.nodes ==> n in old(q.list.nodes) || fresh(n)
    ensures forall a :: a in ArraysOf(q.list.nodes) ==> a in old(ArraysOf(q.list.nodes)) || fresh(a)
  {
    hide ByteListNode.Holds, Apart, AllHold, Packed, ArraysOf, ByteList.Linked, Chain, At, Flatten, Canon, Cell.Ok,
         SpareOf;
    ghost var nodes := q.list.nodes;
    assert nodes == front + ([pn] + back) && q.chunks == cf + ([mid] + cb);
    assert nodes[|front|] == pn;
    TwoParts(front, cf, [pn] + back, [mid] + cb, q.leftIdx);
    ArraysAllocated(nodes);
    var elementNode: ByteListNode;
    elementNode, c := GetNewNodeWithElement(q, element);
    NotAmong(nodes, elementNode.arr);
    SpareOne(elementNode);
    ApartOne(elementNode);
    ChainOne(elementNode);
    HoldOne(elementNode, [c], 0);
    PackedOne([c]);
    FlattenOne([c]);
    FlattenFirst(mid, cb);
    assert q.Length == |Flatten(cf)| + |mid + Flatten(cb)|;
    SpliceBefore(q, elementNode, elementNode, pn, [elementNode], [[c]], front, cf, back, [mid] + cb);
    CountOne(q);
  }

  /** Moves what precedes position `at` of pn's buffer to the buffer of a new node. */
  method MoveLeft(pn: ByteListNode, newNode: ByteListNode, at: nat, base: nat, ghost left: seq<Cell>,
                  ghost right: seq<Cell>)
    requires pn.Holds(base, left + right) && pn.Holds(at, right) && base <= at && newNode != pn
    modifies pn`off, pn`len, newNode`arr, newNode`off, newNode`len
    ensures fresh(newNode.arr) && pn.Spare() == old(pn.Spare()) && 0 <= newNode.Spare()
    ensures newNode.Holds(0, left) && pn.Holds(0, right)
  {
    hide Cell.Ok, Cell.Bytes;
    HoldsSplit(pn, base, at, left, right);
    ghost var was := pn.Buf();
    var copied := CopyOf(pn.Buf()[base..at]);
    newNode.arr, newNode.off, newNode.len := copied, 0, at - base;
    pn.off, pn.len := pn.off + at, pn.len - at;
    assert pn.Buf() == was[at..];
  }

  /** Splits pn before position `at` and links the new node and the element's node in before it. */
  method SplitBefore(q: Deque, newNode: ByteListNode, elementNode: ByteListNode, ghost mid: seq<ByteListNode>,
                     ghost c: Cell,
                     pn: ByteListNode, at: nat, base: nat, ghost front: seq<ByteListNode>, ghost cf: seq<seq<Cell>>,
                     ghost left: seq<Cell>, ghost right: seq<Cell>, ghost back: seq<ByteListNode>,
                     ghost cb: seq<seq<Cell>>)
    requires q.Shape() && Packed(q.chunks)
    requires q.list.nodes == front + ([pn] + back) && q.chunks == cf + ([left + right] + cb)
    requires |front| == |cf| && |back| == |cb| && left != [] && right != []
    requires base == (if front == [] then q.leftIdx else 0) && base <= at
    requires pn.Holds(at, right) && elementNode.Holds(0, [c])
    requires |mid| == 2 && mid[0] == newNode && mid[1] == elementNode && newNode != elementNode
    requires Chain(mid) && newNode !in q.list.nodes && elementNode !in q.list.nodes
    requires forall n :: n in mid ==> n == newNode || n == elementNode
    requires newNode.prev == null && elementNode.arr !in ArraysOf(q.list.nodes)
    modifies q`chunks, q`leftIdx, q.list`head, q.list`nodes, q.list.nodes`next, pn`prev, pn`off, pn`len
    modifies newNode, elementNode`next
    ensures SpareOf(q.list.nodes)
            == old(SpareOf(front)) + [newNode.Spare(), elementNode.Spare()] + old([pn.Spare()] + SpareOf(back))
    ensures q.Shape() && Packed(q.chunks)
    ensures |q.list.nodes| == |old(q.list.nodes)| + 2
    ensures q.leftIdx == (if front == [] then 0 else old(q.leftIdx))
    ensures q.chunks == cf + [left, [c]] + ([right] + cb)
    ensures q.Contents() == Flatten(cf) + left + [c] + (right + Flatten(cb))
    ensures 0 <= newNode.Spare() && elementNode.Spare() == old(elementNode.Spare())
    ensures ArraysOf(q.list.nodes) == old(ArraysOf(q.list.nodes)) + {newNode.arr, elementNode.arr} && fresh(newNode.arr)
    ensures forall n :: n in q.list.nodes ==> n in old(q.list.nodes) || n == newNode || n == elementNode
  {
    hide ByteListNode.Holds, Apart, AllHold, Packed, ArraysOf, ByteList.Linked, Chain, At, Flatten, SpareOf,
         ByteListNode.Spare;
    TwoParts(front, cf, [pn] + back, [left + right] + cb, q.leftIdx);
    NotTwice(q.list, front, pn, back);
    ghost var nodes, arrays, spareFront := q.list.nodes, ArraysOf(q.list.nodes), SpareOf(front);
    SplitFirst(q, newNode, pn, at, base, left, right, back, cb);
    assert q.list.Linked() && AllHold(front, cf, q.leftIdx);
    assert ArraysOf(nodes) == arrays && Apart(nodes) && SpareOf(front) == spareFront;
    NotAmong(nodes, newNode.arr);
    assert elementNode != pn && elementNode.Holds(0, [c]);
    SplicePair(q, newNode, left, elementNode, [c], mid, pn, front, cf, right, back, cb);
  }

  lemma SpareTwo(mid: seq<ByteListNode>, a: ByteListNode, b: ByteListNode)
    requires |mid| == 2 && mid[0] == a && mid[1] == b
    ensures SpareOf(mid) == [a.Spare(), b.Spare()]
  {
    assert mid == [a] + [b];
    SpareLast([a], b);
    SpareOne(a);
  }

  /** Links two nodes in before pn. */
  method SplicePair(q: Deque, newNode: ByteListNode, ghost left: seq<Cell>, elementNode: ByteListNode,
                    ghost elem: seq<Cell>,
                    ghost mid: seq<ByteListNode>, pn: ByteListNode, ghost front: seq<ByteListNode>,
                    ghost cf: seq<seq<Cell>>,
                    ghost right: seq<Cell>, ghost back: seq<ByteListNode>, ghost cb: seq<seq<Cell>>)
    requires q.list.bufLen == MIN_DEQUE_NODE_SIZE && q.list.Linked()
    requires q.list.nodes == front + ([pn] + back) && |front| == |cf| && |back| == |cb|
    requires |mid| == 2 && mid[0] == newNode && mid[1] == elementNode && newNode != elementNode && Chain(mid)
    requires newNode.prev == null && Disjoint(q.list.nodes, mid)
    requires forall n :: n in mid ==> n == newNode || n == elementNode
    requires newNode.Holds(0, left) && elementNode.Holds(0, elem) && left != [] && elem != []
    requires newNode.arr != elementNode.arr
    requires Apart(q.list.nodes) && newNode.arr !in ArraysOf(q.list.nodes) && elementNode.arr !in ArraysOf(q.list.nodes)
    requires AllHold(front, cf, q.leftIdx) && AllHold([pn] + back, [right] + cb, 0)
    requires Packed(cf) && Packed([right] + cb)
    modifies q`chunks, q`leftIdx, q.list`head, q.list`nodes, q.list.nodes`next, pn`prev, newNode`prev, elementNode`next
    ensures SpareOf(q.list.nodes)
            == old(SpareOf(front)) + old([newNode.Spare(), elementNode.Spare()]) + old([pn.Spare()] + SpareOf(back))
    ensures q.Shape() && Packed(q.chunks)
    ensures |q.list.nodes| == |old(q.list.nodes)| + 2
    ensures q.leftIdx == (if front == [] then 0 else old(q.leftIdx))
    ensures q.chunks == cf + [left, elem] + ([right] + cb)
    ensures q.Contents() == Flatten(cf) + left + elem + (right + Flatten(cb))
    ensures ArraysOf(q.list.nodes) == old(ArraysOf(q.list.nodes)) + {newNode.arr, elementNode.arr}
    ensures forall n :: n in q.list.nodes ==> n in old(q.list.nodes) || n == newNode || n == elementNode
  {
    hide ByteListNode.Holds, Apart, AllHold, Packed, ArraysOf, ByteList.Linked, Chain, At, Flatten,
         Deque.Shape, SpareOf;
    FlattenFirst(right, cb);
    SpareTwo(mid, newNode, elementNode);
    ghost var cm := PairParts(mid, left, elem);
    SpliceBefore(q, newNode, elementNode, pn, mid, cm, front, cf, back, [right] + cb);
  }

  /** Splits the first node of a stretch. */
  method SplitFirst(q: Deque, newNode: ByteListNode, pn: ByteListNode, at: nat, base: nat, ghost left: seq<Cell>,
                    ghost right: seq<Cell>, ghost back: seq<ByteListNode>, ghost cb: seq<seq<Cell>>)
    requires |back| == |cb| && Apart([pn] + back)
    requires AllHold([pn] + back, [left + right] + cb, base) && Packed([left + right] + cb)
    requires pn.Holds(at, right) && base <= at && newNode != pn && newNode !in back && pn !in back
    requires left != [] && right != []
    modifies pn`off, pn`len, newNode`arr, newNode`off, newNode`len
    ensures fresh(newNode.arr) && newNode.Holds(0, left) && 0 <= newNode.Spare()
    ensures pn.Spare() == old(pn.Spare()) && SpareOf(back) == old(SpareOf(back))
    ensures AllHold([pn] + back, [right] + cb, 0) && Packed([right] + cb)
  {
    hide ByteListNode.Holds, Apart, AllHold, Packed, ArraysOf, SpareOf;
    FirstPart(pn, left + right, back, cb, base);
    MoveLeft(pn, newNode, at, base, left, right);
    FirstPart(pn, right, back, cb, 0);
  }

  /** Links two nodes into a stretch of their own. */
  method LinkPair(a: ByteListNode, b: ByteListNode) returns (ghost mid: seq<ByteListNode>)
    requires a != b
    modifies a`next, b`prev
    ensures Chain(mid) && mid == [a, b]
  {
    hide Chain;
    ChainOne(a);
    ChainOne(b);
    assert [] + [a] == [a] && [b] + [] == [b];
    Link(a, b, [], []);
    mid := [a] + [b];
  }

  lemma PairParts(mid: seq<ByteListNode>, left: seq<Cell>, right: seq<Cell>) returns (cm: seq<seq<Cell>>)
    requires |mid| == 2 && mid[0].Holds(0, left) && mid[1].Holds(0, right) && mid[0].arr != mid[1].arr
    requires left != [] && right != []
    ensures cm == [left, right] && AllHold(mid, cm, 0) && Apart(mid) && Packed(cm)
    ensures ArraysOf(mid) == {mid[0].arr, mid[1].arr}
    ensures Flatten(cm) == left + right
  {
    hide ByteListNode.Holds, Apart, AllHold, Packed, ArraysOf, Flatten;
    var a, b := mid[0], mid[1];
    LastPart([a], [left], b, right, 0);
    assert mid == [a] + [b];
    cm := [left] + [right];
    ApartOne(a);
    HoldOne(a, left, 0);
    PackedOne(left);
    FlattenOne(left);
    FlattenLast([left], right);
  }

  lemma NotTwice(list: ByteList, front: seq<ByteListNode>, pn: ByteListNode, back: seq<ByteListNode>)
    requires list.Linked() && list.nodes == front + ([pn] + back)
    ensures pn !in front && pn !in back
  {
    LinkedChain(list);
    ChainConcat(front, [pn] + back);
    ChainConcat([pn], back);
    assert pn in [pn] + back && pn in [pn];
  }

  /** A new node, and one that holds the entry of an element alone, linked in this order. */
  method NewPair(q: Deque, element: Str, capacity: nat)
    returns (newNode: ByteListNode, elementNode: ByteListNode, ghost mid: seq<ByteListNode>, ghost c: Cell)
    requires Encodable(element) && !LongNumber(element)
    modifies q.list`size
    ensures fresh(newNode) && fresh(elementNode) && fresh(elementNode.arr) && newNode != elementNode
    ensures Chain(mid) && mid == [newNode, elementNode] && newNode.prev == null
    ensures c == Cell(Canon(element), 0) && c.Ok() && elementNode.Holds(0, [c])
    ensures elementNode.Spare() == 0
    ensures q.list.size == old(q.list.size) + 2 * NODE_SIZE
  {
    hide ByteListNode.Holds, Chain, Cell.Ok, Canon, Encodable, LongNumber;
    elementNode, c := GetNewNodeWithElement(q, element);
    newNode := q.list.NewNodeWithCapacity(capacity);
    mid := LinkPair(newNode, elementNode);
  }

  /** The pivot starts at position `at` inside pn's buffer: what precedes it moves to a new
      node, and the element's node goes between the two. */
  method BreakPivotNodeAndInsertBefore(q: Deque, element: Str, pn: ByteListNode, at: nat, base: nat,
                                       ghost front: seq<ByteListNode>,
                                       ghost cf: seq<seq<Cell>>, ghost left: seq<Cell>, ghost right: seq<Cell>,
                                       ghost back: seq<ByteListNode>, ghost cb: seq<seq<Cell>>)
    returns (ghost c: Cell, ghost s: int)
    requires q.Valid() && Packed(q.chunks)
    requires PartsAt(q, front, cf, pn, left + right, back, cb) && left != [] && right != []
    requires base == (if front == [] then q.leftIdx else 0) && base <= at
    requires pn.Holds(at, right)
    requires Encodable(element) && !LongNumber(element)
    modifies q, q.list, q.list.nodes
    ensures 0 <= s && SpareOf(q.list.nodes) == old(SpareOf(front)) + [s, 0] + old([pn.Spare()] + SpareOf(back))
    ensures q.Valid()
    ensures c == Cell(Canon(element), 0) && c.Ok()
    ensures q.leftIdx == (if front == [] then 0 else old(q.leftIdx))
    ensures q.chunks == cf + [left, [c]] + ([right] + cb)
    ensures q.Contents() == Flatten(cf) + left + [c] + (right + Flatten(cb))
    ensures forall n :: n in q.list.nodes ==> n in old(q.list.nodes) || fresh(n)
    ensures forall a :: a in ArraysOf(q.list.nodes) ==> a in old(ArraysOf(q.list.nodes)) || fresh(a)
  {
    hide ByteListNode.Holds, Apart, AllHold, Packed, ArraysOf, ByteList.Linked, Chain, At, Flatten, Canon, Cell.Ok,
         Deque.Shape, Encodable, LongNumber, SpareOf;
    ShapeLinked(q);
    ghost var nodes := q.list.nodes;
    ghost var whole := left + right;
    assert nodes == front + ([pn] + back) && q.chunks == cf + ([whole] + cb);
    assert nodes[|front|] == pn;
    FlattenConcat(cf, [whole] + cb);
    FlattenFirst(whole, cb);
    assert q.Length == |Flatten(cf)| + |left| + |right| + |Flatten(cb)|;
    ArraysAllocated(nodes);
    var newNode, elementNode;
    ghost var mid;
    newNode, elementNode, mid, c := NewPair(q, element, at - base);
    NotAmong(nodes, elementNode.arr);
    SplitBefore(q, newNode, elementNode, mid, c, pn, at, base, front, cf, left, right, back, cb);
    s := newNode.Spare();
    CountOne(q);
  }

  // ---------- LInsert ----------

  /** Where the iterator stands after it returned element jp of node kp, whose entry starts at `start`. */
  ghost predicate JustPassed(q: Deque, it: DequeIterator, pn: ByteListNode, kp: nat, jp: nat, start: nat)
    reads it, q`chunks, q.list`nodes, pn`arr, pn`off, pn`len, pn.arr
  {
    && kp < |q.list.nodes| == |q.chunks| && jp < |q.chunks[kp]|
    && pn == q.list.nodes[kp]
    && pn.Holds(start, q.chunks[kp][jp..])
    && it.ElementsTraversed == |Flatten(q.chunks[..kp])| + jp + 1
    && start + |q.chunks[kp][jp].Bytes()| == (if it.k == kp then it.BufIndex else pn.len)
    && (if jp + 1 < |q.chunks[kp]| then it.k == kp && it.j == jp + 1
        else it.k == kp + 1 && it.j == 0 && it.BufIndex == 0)
  }

  /** How the iterator's fields tell the three places of an insertion after the pivot apart. */
  lemma AfterCases(q: Deque, it: DequeIterator, pn: ByteListNode, kp: nat, jp: nat, start: nat)
    requires it.Valid() && it.deque == q && Packed(q.chunks)
    requires JustPassed(q, it, pn, kp, jp, start)
    ensures q.Valid() && kp < |q.list.nodes| == |q.chunks| && jp < |q.chunks[kp]| && pn == q.list.nodes[kp]
    ensures it.ElementsTraversed == |Flatten(q.chunks[..kp])| + jp + 1
    ensures it.ElementsTraversed <= q.Length == |q.Contents()|
    ensures it.BufIndex == 0 <==> jp + 1 == |q.chunks[kp]|
    ensures it.BufIndex == 0 && it.ElementsTraversed != q.Length ==>
              kp + 1 < |q.list.nodes| && it.CurrentNode == q.list.nodes[kp + 1]
    ensures it.BufIndex != 0 ==> pn.Holds(it.BufIndex, q.chunks[kp][jp + 1..])
    ensures it.ElementsTraversed == q.Length ==> q.Contents()[..it.ElementsTraversed] == q.Contents()
  {
    hide ByteListNode.Holds, Apart, AllHold, ArraysOf, ByteList.Linked, Packed, Cell.Bytes;
    FlattenSplit(q.chunks, kp);
    FlattenNext(q.chunks, kp);
    TakeAll(q.chunks);
  }

  lemma PackedNow(q: Deque, it: DequeIterator)
    requires it.Valid() && it.deque == q && q.Length != 0
    ensures q.Valid() && q.Shape() && Packed(q.chunks)
  {
    q.NotDrained();
  }

  /** After the last element of all. */
  lemma PlacedLast(l: Layout, k: nat, j: nat, size: nat, l': Layout, c: Cell)
    requires Packed(l.chunks) && k < |l.chunks| == |l.spare| && j < |l.chunks[k]|
    requires |Flatten(l.chunks[..k])| + j + 1 == |Flatten(l.chunks)|
    requires SparePushedRight(l.chunks, l.spare, size, l'.chunks, l'.spare, c) && l'.leftIdx == l.leftIdx
    ensures PlacedAfter(l, k, j, size, l', c, 0)
  {
    hide SparePushedRight, GrownBetween;
    FlattenSplit(l.chunks, k);
    assert l.chunks[k + 1..] == [] && j + 1 == |l.chunks[k]|;
    assert l.chunks[..k] + [l.chunks[k]] == l.chunks;
    assert l.spare[..k] + [l.spare[k]] == l.spare && l.spare[k + 1..] == [];
    assert GrownBetween(l.chunks, l.spare, [], [], size, l'.chunks, l'.spare, c) by {
      assert l'.chunks + [] == l'.chunks && l'.spare + [] == l'.spare;
      GrownIs(l.chunks, l.spare, [], [], size, l'.chunks, l'.spare, c);
    }
    PlacedWhole(l, k, j, size, l', c);
  }

  lemma GrownIs(before: seq<seq<Cell>>, room: seq<int>, after: seq<seq<Cell>>, roomAfter: seq<int>,
                size: nat, grown: seq<seq<Cell>>, spare: seq<int>, c: Cell)
    requires SparePushedRight(before, room, size, grown, spare, c)
    ensures GrownBetween(before, room, after, roomAfter, size, grown + after, spare + roomAfter, c)
  {
    hide SparePushedRight;
  }

  /** After the last element of a chunk. */
  lemma PlacedWhole(l: Layout, k: nat, j: nat, size: nat, l': Layout, c: Cell)
    requires k < |l.chunks| == |l.spare| && j + 1 == |l.chunks[k]| && l'.leftIdx == l.leftIdx
    requires GrownBetween(l.chunks[..k] + [l.chunks[k]], l.spare[..k] + [l.spare[k]],
                          l.chunks[k + 1..], l.spare[k + 1..], size, l'.chunks, l'.spare, c)
    ensures PlacedAfter(l, k, j, size, l', c, 0)
  {
    hide GrownBetween;
    BytesEmpty([]);
    assert l.chunks[k][..j + 1] == l.chunks[k] && l.chunks[k][j + 1..] == [];
  }

  /** After an element that others follow in its chunk. */
  lemma PlacedSplit(l: Layout, k: nat, j: nat, size: nat, l': Layout, c: Cell, s: int)
    requires k < |l.chunks| == |l.spare| && j + 1 < |l.chunks[k]| && l'.leftIdx == l.leftIdx && 0 <= s
    requires var left, right := l.chunks[k][..j + 1], l.chunks[k][j + 1..];
             GrownBetween(l.chunks[..k] + [left], l.spare[..k] + [l.spare[k] + |Bytes(right)|],
                          [right] + l.chunks[k + 1..], [s] + l.spare[k + 1..], size, l'.chunks, l'.spare, c)
    ensures PlacedAfter(l, k, j, size, l', c, s)
  {
    hide GrownBetween, Bytes;
  }

  method InsertAfterPivotNode(q: Deque, element: Str, it: DequeIterator, pn: ByteListNode, ghost kp: nat, ghost jp: nat,
                              ghost start: nat)
    returns (ghost c: Cell, ghost s: int)
    requires it.Valid() && it.deque == q && q.Length != 0
    requires JustPassed(q, it, pn, kp, jp, start)
    requires Encodable(element) && !LongNumber(element)
    modifies q, q.list, q.list.nodes, ArraysOf(q.list.nodes)
    ensures q.Valid()
    ensures c.Ok() && c.x == Canon(element)
    ensures kp < |old(q.chunks)| == |old(SpareOf(q.list.nodes))| && jp < |old(q.chunks)[kp]|
    ensures PlacedAfter(old(LayoutOf(q)), kp, jp, GetEncodeDeqEntrySize(element), LayoutOf(q), c, s)
    ensures 0 <= it.ElementsTraversed <= |old(q.Contents())|
    ensures q.Contents() == old(q.Contents()[..it.ElementsTraversed]) + [c] + old(q.Contents()[it.ElementsTraversed..])
    ensures forall n :: n in q.list.nodes ==> n in old(q.list.nodes) || fresh(n)
    ensures forall a :: a in ArraysOf(q.list.nodes) ==> a in old(ArraysOf(q.list.nodes)) || fresh(a)
  {
    hide ByteListNode.Holds, Apart, AllHold, Packed, ArraysOf, ByteList.Linked, Chain, At, Flatten, Canon, Cell.Ok,
         Cell.Bytes, Deque.Shape, DequeIterator.Valid, JustPassed, Encodable, LongNumber, PlacedAfter, GrownBetween,
         SparePushedRight, SpareOf, Bytes, GetEncodeDeqEntrySize;
    PackedNow(q, it);
    AfterCases(q, it, pn, kp, jp, start);
    ghost var front, cf, back, cb := TakeApart(q, kp);
    ghost var mid := q.chunks[kp];
    ghost var left, right := mid[..jp + 1], mid[jp + 1..];
    assert mid == left + right;
    Halves(q.chunks, kp, left, right);
    ghost var all, t, l, size := q.Contents(), it.ElementsTraversed, LayoutOf(q), GetEncodeDeqEntrySize(element);
    s := 0;
    assert right == [] ==> left == mid && right + Flatten(cb) == Flatten(cb);
    if it.ElementsTraversed == q.Length {
      assert all[..t] + [] == all && all[t..] == [];
      c := q.RPush(element);
      PlacedLast(l, kp, jp, size, LayoutOf(q), c);
      assert q.Contents() == all[..t] + [c] + all[t..];
    } else if it.BufIndex == 0 {
      assert back == [it.CurrentNode] + back[1..];
      SpareLast(front, pn);
      c := InsertAfterNode(q, element, pn, it.CurrentNode, front, cf, mid, back[1..], cb);
      PlacedWhole(l, kp, jp, size, LayoutOf(q), c);
    } else {
      c, s := BreakPivotNodeAndInsertAfter(q, element, pn, it.BufIndex, front, cf, left, right, back, cb);
      PlacedSplit(l, kp, jp, size, LayoutOf(q), c, s);
    }
  }

  /** Where the pivot's entry starts, seen from the iterator's fields: at 0 exactly when it
      opens its buffer, and then it does not open the deque unless it is the first element. */
  lemma BeforeCases(q: Deque, it: DequeIterator, pn: ByteListNode, kp: nat, jp: nat, start: nat)
    requires it.Valid() && it.deque == q && Packed(q.chunks)
    requires JustPassed(q, it, pn, kp, jp, start)
    ensures kp < |q.chunks| && jp < |q.chunks[kp]|
    ensures var n := GetEncodeDeqEntrySize(q.chunks[kp][jp].x);
            && (start == 0 <==> it.BufIndex == n || (it.BufIndex == 0 && pn.len == n))
            && (if it.BufIndex == 0 then pn.len else it.BufIndex) - n == start
    ensures it.ElementsTraversed == 1 <==> kp == 0 && jp == 0
    ensures it.ElementsTraversed != 1 ==> (start == 0 <==> jp == 0)
    ensures (if kp == 0 then q.leftIdx else 0) <= start
    ensures pn.Holds(start, q.chunks[kp][jp..])
  {
    hide ByteListNode.Holds, Apart, AllHold, ArraysOf, ByteList.Linked, Packed, Cell.Bytes, Flatten,
         GetEncodeDeqEntrySize, Deque.Shape, Deque.Contents;
    var front, cf, back, cb := TakeApart(q, kp);
    EntryStart(pn, if kp == 0 then q.leftIdx else 0, start, q.chunks[kp], jp);
    FlattenPositive(q.chunks, kp);
  }

  /** Where an entry of a node starts, and how long it is. */
  lemma EntryStart(pn: ByteListNode, base: nat, start: nat, mid: seq<Cell>, j: nat)
    requires pn.Holds(base, mid) && j < |mid| && pn.Holds(start, mid[j..])
    ensures base <= start && (start == base <==> j == 0)
    ensures |mid[j].Bytes()| == GetEncodeDeqEntrySize(mid[j].x) >= 2
  {
    hide ByteListNode.Holds, Cell.Bytes, Cell.Ok, GetEncodeDeqEntrySize, Bytes;
    assert mid == mid[..j] + mid[j..];
    HoldsSplit(pn, base, start, mid[..j], mid[j..]);
    BytesEmpty(mid[..j]);
    assert mid[j..][0] == mid[j];
    SizePositive(mid[j].x);
    SizeFits(mid[j]);
  }

  lemma FlattenPositive(chunks: seq<seq<Cell>>, k: nat)
    requires Packed(chunks) && k < |chunks|
    ensures Flatten(chunks[..k]) == [] <==> k == 0
  {
    if k > 0 {
      assert chunks[..k][0] == chunks[0] != [];
    }
  }

  method InsertBeforePivotNode(q: Deque, pivot: Str, element: Str, it: DequeIterator, pn: ByteListNode,
                               ghost kp: nat, ghost jp: nat, ghost start: nat)
    returns (ghost c: Cell, ghost s: int)
    requires it.Valid() && it.deque == q && q.Length != 0
    requires JustPassed(q, it, pn, kp, jp, start) && q.chunks[kp][jp].x == pivot
    requires Encodable(element) && !LongNumber(element)
    requires it.ElementsTraversed == 1 ==> q.LPushFits(element)
    modifies q, q.list, q.list.nodes, ArraysOf(q.list.nodes)
    ensures q.Valid()
    ensures c.Ok() && c.x == Canon(element)
    ensures kp < |old(q.chunks)| == |old(SpareOf(q.list.nodes))| && jp < |old(q.chunks)[kp]|
    ensures PlacedBefore(old(LayoutOf(q)), kp, jp, GetEncodeDeqEntrySize(element), LayoutOf(q), c, s)
    ensures 1 <= it.ElementsTraversed <= |old(q.Contents())|
    ensures q.Contents()
            == old(q.Contents()[..it.ElementsTraversed - 1]) + [c] + old(q.Contents()[it.ElementsTraversed - 1..])
    ensures forall n :: n in q.list.nodes ==> n in old(q.list.nodes) || fresh(n)
    ensures forall a :: a in ArraysOf(q.list.nodes) ==> a in old(ArraysOf(q.list.nodes)) || fresh(a)
  {
    hide ByteListNode.Holds, Apart, AllHold, Packed, ArraysOf, ByteList.Linked, Chain, At, Flatten, Canon, Cell.Ok,
         Cell.Bytes,
         Deque.Shape, Deque.Valid, Deque.Contents, Deque.LPushFits, Deque.LeftPad, DequeIterator.Valid, JustPassed,
         Encodable, GetEncodeDeqEntrySize, LongNumber, PushedLeft, SparePushedLeft, PlacedBefore, SpareOf;
    ghost var front, cf, left, right, back, cb := Around(q, it, pn, kp, jp, start);
    ghost var all, t := q.Contents(), it.ElementsTraversed - 1;
    ghost var l, size := LayoutOf(q), GetEncodeDeqEntrySize(element);
    s := 0;
    if it.ElementsTraversed == 1 {
      assert all[..0] == [] && all[0..] == all;
      var ok;
      ok, c := q.LPush(element);
      PlacedInFront(l, size, LayoutOf(q), c, s);
      assert q.Contents() == all[..t] + [c] + all[t..];
    } else {
      c, s := InsertBeforePivotHelper(q, pivot, element, it, pn, kp, jp, start, front, cf, left, right, back, cb);
      PlacedWithin(l, kp, jp, size, LayoutOf(q), c, s);
    }
  }

  /** The list and its elements before the element just passed, and from it on. */
  lemma Around(q: Deque, it: DequeIterator, pn: ByteListNode, kp: nat, jp: nat, start: nat)
    returns (front: seq<ByteListNode>, cf: seq<seq<Cell>>, left: seq<Cell>, right: seq<Cell>, back: seq<ByteListNode>,
             cb: seq<seq<Cell>>)
    requires it.Valid() && it.deque == q && q.Length != 0
    requires JustPassed(q, it, pn, kp, jp, start)
    ensures q.Valid() && q.Shape() && Packed(q.chunks)
    ensures PartsAt(q, front, cf, pn, left + right, back, cb) && |front| == kp && |left| == jp && right != []
    ensures pn.Holds(start, right)
    ensures |SpareOf(q.list.nodes)| == |q.chunks|
    ensures var spare := SpareOf(q.list.nodes);
            SpareOf(front) == spare[..kp] && [pn.Spare()] + SpareOf(back) == spare[kp..]
    ensures kp < |q.chunks| && jp < |q.chunks[kp]|
    ensures cf == q.chunks[..kp] && cb == q.chunks[kp + 1..]
    ensures left == q.chunks[kp][..jp] && right == q.chunks[kp][jp..]
    ensures it.ElementsTraversed == 1 <==> kp == 0 && jp == 0
    ensures 1 <= it.ElementsTraversed <= |q.Contents()|
    ensures q.Contents()[..it.ElementsTraversed - 1] == Flatten(cf) + left
    ensures q.Contents()[it.ElementsTraversed - 1..] == right + Flatten(cb)
  {
    hide ByteListNode.Holds, Apart, AllHold, Packed, ArraysOf, ByteList.Linked, Chain, At, Flatten, Cell.Ok, Cell.Bytes,
         Deque.Shape, DequeIterator.Valid, JustPassed, GetEncodeDeqEntrySize, SpareOf;
    PackedNow(q, it);
    AfterCases(q, it, pn, kp, jp, start);
    BeforeCases(q, it, pn, kp, jp, start);
    front, cf, back, cb := TakeApart(q, kp);
    var mid := q.chunks[kp];
    left, right := mid[..jp], mid[jp..];
    assert mid == left + right;
    assert SpareOf(q.list.nodes)[kp..] == [pn.Spare()] + SpareOf(back);
    Halves(q.chunks, kp, left, right);
  }

  method InsertBeforePivotHelper(q: Deque, pivot: Str, element: Str, it: DequeIterator, pn: ByteListNode,
                                 ghost kp: nat, ghost jp: nat, ghost start: nat,
                                 ghost front: seq<ByteListNode>, ghost cf: seq<seq<Cell>>, ghost left: seq<Cell>,
                                 ghost right: seq<Cell>, ghost back: seq<ByteListNode>, ghost cb: seq<seq<Cell>>)
    returns (ghost c: Cell, ghost s: int)
    requires it.Valid() && it.deque == q && Packed(q.chunks) && it.ElementsTraversed != 1
    requires JustPassed(q, it, pn, kp, jp, start) && q.chunks[kp][jp].x == pivot
    requires PartsAt(q, front, cf, pn, left + right, back, cb) && |front| == kp && |left| == jp && right != []
    requires pn.Holds(start, right)
    requires Encodable(element) && !LongNumber(element)
    modifies q, q.list, q.list.nodes
    ensures SpareOf(q.list.nodes)
            == old(SpareOf(front)) + (if left == [] then [0] else [s, 0]) + old([pn.Spare()] + SpareOf(back))
    ensures q.Valid()
    ensures c == Cell(Canon(element), 0) && c.Ok()
    ensures q.leftIdx == (if kp == 0 then 0 else old(q.leftIdx))
    ensures q.chunks == cf + (if left == [] then [[c]] else [left, [c]]) + ([right] + cb)
    ensures 0 <= s
    ensures q.Contents() == Flatten(cf) + left + [c] + (right + Flatten(cb))
    ensures forall n :: n in q.list.nodes ==> n in old(q.list.nodes) || fresh(n)
    ensures forall a :: a in ArraysOf(q.list.nodes) ==> a in old(ArraysOf(q.list.nodes)) || fresh(a)
  {
    hide ByteListNode.Holds, Apart, AllHold, Packed, ArraysOf, ByteList.Linked, Chain, At, Flatten, Canon, Cell.Ok,
         Cell.Bytes, GetEncodeDeqEntrySize, LongNumber, SpareOf;
    BeforeCases(q, it, pn, kp, jp, start);
    assert q.list.nodes == front + ([pn] + back);
    PrevAt(q.list, front, pn, back);
    assert q.chunks[kp] == left + right;
    var pivotEntryLen := GetEncodeDeqEntrySize(pivot);
    var leftIdx := q.leftIdx;
    s := 0;
    if pn.prev != null {
      leftIdx := 0;
    }
    if it.BufIndex == pivotEntryLen || (it.BufIndex == 0 && pn.len == pivotEntryLen) {
      assert left == [] && left + right == right;
      c := InsertBeforeNode(q, element, pn, front, cf, right, back, cb);
    } else {
      var bufIndex := if it.BufIndex == 0 then pn.len else it.BufIndex;
      c, s := BreakPivotNodeAndInsertBefore(q, element, pn, bufIndex - pivotEntryLen, leftIdx, front, cf, left, right,
        back, cb);
    }
  }

  /** The contents before and after a position inside the chunk kp. */
  lemma Halves(chunks: seq<seq<Cell>>, kp: nat, left: seq<Cell>, right: seq<Cell>)
    requires kp < |chunks| && chunks[kp] == left + right
    ensures var all, t := Flatten(chunks), |Flatten(chunks[..kp])| + |left|;
            && t <= |all|
            && all[..t] == Flatten(chunks[..kp]) + left
            && all[..t] == Flatten(chunks[..kp] + [left])
            && all[t..] == right + Flatten(chunks[kp + 1..])
  {
    FlattenSplit(chunks, kp);
    FlattenLast(chunks[..kp], left);
    assert Flatten(chunks) == Flatten(chunks[..kp]) + left + (right + Flatten(chunks[kp + 1..]));
  }

  /** Moves the iterator past one element, and remembers where that element is. */
  method Step(it: DequeIterator) returns (x: Str, pn: ByteListNode, ghost kp: nat, ghost jp: nat, ghost start: nat)
    requires it.Valid() && it.HasNext()
    modifies it
    ensures it.Valid() && it.ElementsTraversed == old(it.ElementsTraversed) + 1
    ensures 0 <= old(it.ElementsTraversed) < |it.deque.Contents()|
    ensures x == it.deque.Contents()[old(it.ElementsTraversed)].x
    ensures JustPassed(it.deque, it, pn, kp, jp, start) && it.deque.chunks[kp][jp].x == x
    ensures |Flatten(it.deque.chunks[..kp])| + jp == old(it.ElementsTraversed)
  {
    hide ByteListNode.Holds, ArraysOf, Flatten, At, Deque.Valid, Deque.Contents, Cell.Bytes;
    LengthIs(it.deque);
    ghost var cells := it.AtCursor();
    pn := it.CurrentNode;
    kp, jp, start := it.k, it.j, it.BufIndex;
    var v := it.Next();
    x := v.value;
  }

  /** Inserts the element beside the one just passed. */
  method InsertBesidePivotNode(q: Deque, pivot: Str, element: Str, where: string, it: DequeIterator, pn: ByteListNode,
                               ghost kp: nat, ghost jp: nat, ghost start: nat)
    returns (ghost at: int, ghost c: Cell, ghost s: int)
    requires it.Valid() && it.deque == q && q.Length != 0
    requires JustPassed(q, it, pn, kp, jp, start) && q.chunks[kp][jp].x == pivot
    requires Encodable(element) && !LongNumber(element)
    requires where == BEFORE && it.ElementsTraversed == 1 ==> q.LPushFits(element)
    modifies q, q.list, q.list.nodes, ArraysOf(q.list.nodes)
    ensures q.Valid()
    ensures c.Ok() && c.x == Canon(element)
    ensures 1 <= it.ElementsTraversed <= |old(q.Contents())|
    ensures at == if where == BEFORE then it.ElementsTraversed - 1 else it.ElementsTraversed
    ensures q.Contents() == old(q.Contents())[..at] + [c] + old(q.Contents())[at..]
    ensures Placed(old(LayoutOf(q)), where, kp, jp, GetEncodeDeqEntrySize(element), LayoutOf(q), c, s)
    ensures forall n :: n in q.list.nodes ==> n in old(q.list.nodes) || fresh(n)
    ensures forall a :: a in ArraysOf(q.list.nodes) ==> a in old(ArraysOf(q.list.nodes)) || fresh(a)
  {
    hide Deque.Valid, Deque.Contents, DequeIterator.Valid, ArraysOf, JustPassed, Cell.Ok, Canon, LongNumber, Encodable,
         Deque.LPushFits, PlacedAfter, PlacedBefore, GetEncodeDeqEntrySize, SpareOf;
    TraversedSome(q, it, pn, kp, jp, start);
    if where == BEFORE {
      at := it.ElementsTraversed - 1;
      c, s := InsertBeforePivotNode(q, pivot, element, it, pn, kp, jp, start);
    } else {
      at := it.ElementsTraversed;
      c, s := InsertAfterPivotNode(q, element, it, pn, kp, jp, start);
    }
  }

  lemma TraversedSome(q: Deque, it: DequeIterator, pn: ByteListNode, kp: nat, jp: nat, start: nat)
    requires it.Valid() && it.deque == q && q.Length != 0
    requires JustPassed(q, it, pn, kp, jp, start)
    ensures 1 <= it.ElementsTraversed <= |q.Contents()|
    ensures kp < |q.chunks| && jp < |q.chunks[kp]|
  {
    hide ByteListNode.Holds, ArraysOf, Flatten;
    PackedNow(q, it);
    AfterCases(q, it, pn, kp, jp, start);
  }

  /** Inserts the element beside the first occurrence of the pivot: c is what was stored, at
      position `at`, and the pivot was element j of chunk k. */
  method LInsert(q: Deque, pivot: Str, element: Str, where: string)
    returns (reply: InsertReply, ghost at: int, ghost c: Cell, ghost k: nat, ghost j: nat, ghost s: int)
    requires q.Valid() && Encodable(element) && !LongNumber(element)
    requires where == BEFORE && q.Contents() != [] && q.Contents()[0].x == pivot ==> q.LPushFits(element)
    modifies q, q.list, q.list.nodes, ArraysOf(q.list.nodes)
    ensures q.Valid()
    ensures reply == old(ReplyOf(Values(q.Contents()), pivot, where))
    ensures Values(q.Contents()) == old(Inserted(Values(q.Contents()), pivot, Canon(element), where))
    ensures reply.length == -1 ==> LayoutOf(q) == old(LayoutOf(q))
    ensures reply.length != -1 ==>
              && c.Ok() && c.x == Canon(element) && 0 <= at <= |old(q.Contents())|
              && q.Contents() == old(q.Contents())[..at] + [c] + old(q.Contents())[at..]
              && Placed(old(LayoutOf(q)), where, k, j, GetEncodeDeqEntrySize(element), LayoutOf(q), c, s)
              && pivot in old(Values(q.Contents()))
              && |Flatten(old(q.chunks)[..k])| + j == old(IndexOf(Values(q.Contents()), pivot))
    ensures forall n :: n in q.list.nodes ==> n in old(q.list.nodes) || fresh(n)
    ensures forall a :: a in ArraysOf(q.list.nodes) ==> a in old(ArraysOf(q.list.nodes)) || fresh(a)
  {
    hide Deque.Valid, Deque.Contents, DequeIterator.Valid, ArraysOf, Values, JustPassed, Cell.Ok, Canon, LongNumber,
         Encodable, IndexOf, Deque.LPushFits, ReplyOf, Inserted, Placed, Flatten, GetEncodeDeqEntrySize, LayoutOf;
    at, c, k, j, s := 0, Cell([], 0), 0, 0, 0;
    ghost var all, values := q.Contents(), Values(q.Contents());
    ghost var nodes, arrays := q.list.nodes, ArraysOf(q.list.nodes);
    ghost var chunks, layout := q.chunks, LayoutOf(q);
    LengthIs(q);
    if pivot !in values || (where != BEFORE && where != AFTER) {
      NotInserted(values, pivot, Canon(element), where);
    }
    if q.Length == 0 {
      return InsertReply(-1, false), at, c, k, j, s;
    }
    if where != BEFORE && where != AFTER {
      return InsertReply(-1, true), at, c, k, j, s;
    }
    var it := new DequeIterator(q);
    var hasNext := it.HasNext();
    while hasNext
      invariant it.Valid() && it.deque == q && fresh(it)
      invariant q.Length == |all| && hasNext == it.HasNext()
      invariant q.chunks == chunks && LayoutOf(q) == layout
      invariant q.Contents() == all && q.list.nodes == nodes && ArraysOf(nodes) == arrays
      invariant where == BEFORE && all[0].x == pivot ==> q.LPushFits(element)
      invariant 0 <= it.ElementsTraversed <= |all| && pivot !in values[..it.ElementsTraversed]
      decreases |all| - it.ElementsTraversed
    {
      ghost var i := it.ElementsTraversed;
      var x, pivotNode;
      ghost var start;
      x, pivotNode, k, j, start := Step(it);
      assert values[..i + 1] == values[..i] + [x];
      if x == pivot {
        InsertedAt(values, pivot, Canon(element), where, i);
        FirstIs(values, pivot, i);
        at, c, s := InsertBesidePivotNode(q, pivot, element, where, it, pivotNode, k, j, start);
        ValuesInserted(all, at, c);
        LengthIs(q);
        return InsertReply(q.Length, false), at, c, k, j, s;
      }
      hasNext := it.HasNext();
    }
    assert values[..|values|] == values;
    ItsDeque(it);
    return InsertReply(-1, false), at, c, k, j, s;
  }

  lemma ItsDeque(it: DequeIterator)
    requires it.Valid()
    ensures it.deque.Valid()
  {
  }
}
