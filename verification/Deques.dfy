/** The list type of internal/eval/deque.go: entries in a linked list of buffers.  The
    left end grows down from leftIdx in the head buffer, the right end up into the spare
    capacity of the tail buffer. */
module Deques {
  import opened Bits
  import opened Options
  import opened Decimal
  import opened EntryCodec
  import opened EntryDecode
  import opened Cells
  import opened ByteLists

  const MIN_DEQUE_NODE_SIZE: nat := 256

  /** The chunks after an element joins the last one. */
  ghost function AppendLast(chunks: seq<seq<Cell>>, c: Cell): seq<seq<Cell>>
    requires chunks != []
  {
    var n := |chunks| - 1;
    chunks[..n] + [chunks[n] + [c]]
  }

  /** The chunks after an element joins the first one. */
  ghost function PrependFirst(chunks: seq<seq<Cell>>, c: Cell): seq<seq<Cell>>
    requires chunks != []
  {
    [[c] + chunks[0]] + chunks[1..]
  }

  lemma AppendLastParts(rest: seq<seq<Cell>>, last: seq<Cell>, c: Cell)
    ensures AppendLast(rest + [last], c) == rest + [last + [c]]
    ensures Flatten(rest + [last + [c]]) == Flatten(rest + [last]) + [c]
  {
    assert (rest + [last])[..|rest|] == rest;
    FlattenLast(rest, last);
    FlattenLast(rest, last + [c]);
  }

  lemma PrependFirstParts(first: seq<Cell>, rest: seq<seq<Cell>>, c: Cell)
    ensures PrependFirst([first] + rest, c) == [[c] + first] + rest
    ensures Flatten([[c] + first] + rest) == [c] + Flatten([first] + rest)
  {
    assert ([first] + rest)[1..] == rest;
    assert ([[c] + first] + rest)[1..] == rest;
  }

  /** What the right end of a deque looks like after a push: the element joined the last
      buffer, or a new buffer holds it alone. */
  ghost predicate PushedRight(nodes: seq<ByteListNode>, chunks: seq<seq<Cell>>,
                              nodes': seq<ByteListNode>, chunks': seq<seq<Cell>>, c: Cell)
  {
    || (chunks != [] && nodes' == nodes && chunks' == AppendLast(chunks, c))
    || (|nodes'| == |nodes| + 1 && nodes <= nodes' && chunks' == chunks + [[c]] && c.pad == 0)
  }

  /** What the left end looks like after a push: the element joined the first buffer, in its
      free left part or in a buffer that starts with it, or a new buffer holds it at its end. */
  ghost predicate PushedLeft(chunks: seq<seq<Cell>>, leftIdx: nat, size: nat,
                             chunks': seq<seq<Cell>>, leftIdx': nat, c: Cell)
  {
    && (leftIdx < size ==> c.pad == 0)
    && if leftIdx > 0 then
         && chunks != [] && chunks' == PrependFirst(chunks, c)
         && leftIdx' == if leftIdx < size then 0 else leftIdx - size
       else
         && chunks' == [[c]] + chunks
         && leftIdx' == if size > 256 then 0 else 256 - size
  }

  /** What the left end looks like after a pop: the left index has moved past the element, or its
      buffer is gone, and the next one has no left part. */
  ghost predicate PoppedLeft(chunks: seq<seq<Cell>>, leftIdx: nat, chunks': seq<seq<Cell>>, leftIdx': nat)
    requires chunks != [] && chunks[0] != []
  {
    if |chunks[0]| > 1 then
      && chunks' == [chunks[0][1..]] + chunks[1..]
      && leftIdx' == leftIdx + |chunks[0][0].Bytes()|
    else
      chunks' == chunks[1..] && leftIdx' == 0
  }

  /** What the right end looks like after a pop: the last buffer is cut short.  It is gone when
      nothing is left of it, not even a left part. */
  ghost predicate PoppedRight(chunks: seq<seq<Cell>>, leftIdx: nat, chunks': seq<seq<Cell>>, leftIdx': nat)
    requires chunks != [] && chunks[|chunks| - 1] != []
  {
    var front, last := chunks[..|chunks| - 1], chunks[|chunks| - 1];
    var cut := last[..|last| - 1];
    && leftIdx' == leftIdx
    && chunks' == if cut == [] && (front != [] || leftIdx == 0) then front else front + [cut]
  }

  /** A push to the right joins the last buffer exactly when that has spare capacity; a pad can be
      dirty only where it suffices for the entry. */
  ghost predicate SparePushedRight(chunks: seq<seq<Cell>>, spare: seq<int>, size: nat,
                                   chunks': seq<seq<Cell>>, spare': seq<int>, c: Cell)
  {
    var n := |spare| - 1;
    if spare == [] || spare[n] == 0 then
      && chunks' == chunks + [[c]] && c.pad == 0
      && spare' == spare + [if size > 256 then 0 else 256 - size]
    else
      && chunks != [] && chunks' == AppendLast(chunks, c)
      && (spare[n] < size ==> c.pad == 0)
      && spare' == spare[..n] + [if spare[n] < size then 0 else spare[n] - size]
  }

  /** A push to the left leaves the spare capacities alone, but for a buffer made for it: one made
      without a free left part is full, and one that grew has what make leaves, or append. */
  ghost predicate SparePushedLeft(chunks: seq<seq<Cell>>, leftIdx: nat, spare: seq<int>, size: nat, spare': seq<int>) {
    if leftIdx == 0 then spare' == [0] + spare
    else if size <= leftIdx then spare' == spare
    else
      && chunks != [] && spare != [] && spare' != [] && spare'[1..] == spare[1..] && 0 <= spare'[0]
      && var room := 256 - leftIdx - |Bytes(chunks[0])|;
         0 <= room ==> spare'[0] == room
  }

  ghost predicate SparePoppedLeft(chunks: seq<seq<Cell>>, spare: seq<int>, spare': seq<int>)
    requires chunks != []
  {
    spare != [] && spare' == if |chunks[0]| > 1 then spare else spare[1..]
  }

  /** What a pop from the right cuts off becomes spare capacity. */
  ghost predicate SparePoppedRight(chunks: seq<seq<Cell>>, leftIdx: nat, spare: seq<int>, spare': seq<int>)
    requires chunks != [] && chunks[|chunks| - 1] != []
  {
    var n, last := |spare| - 1, chunks[|chunks| - 1];
    && n == |chunks| - 1
    && spare' == if |last| == 1 && (n > 0 || leftIdx == 0) then spare[..n]
                 else spare[..n] + [spare[n] + |last[|last| - 1].Bytes()|]
  }

  /** How a deque is laid out: the elements in each buffer, where those of the first one start, and
      the spare capacity behind each buffer. */
  datatype Layout = Layout(chunks: seq<seq<Cell>>, leftIdx: nat, spare: seq<int>)

  ghost function LayoutOf(q: Deque): Layout
    reads q`chunks, q`leftIdx, q.list`nodes, q.list.nodes`arr, q.list.nodes`off, q.list.nodes`len
  {
    Layout(q.chunks, q.leftIdx, SpareOf(q.list.nodes))
  }

  lemma SpareLast(front: seq<ByteListNode>, tail: ByteListNode)
    ensures var s := SpareOf(front + [tail]);
            |s| == |front| + 1 && s[|front|] == tail.Spare() && s[..|front|] == SpareOf(front)
    ensures SpareOf(front + [tail]) == SpareOf(front) + [tail.Spare()]
  {
    SpareConcat(front, [tail]);
    SpareOne(tail);
  }

  lemma SpareFirst(head: ByteListNode, back: seq<ByteListNode>)
    ensures SpareOf([head] + back) == [head.Spare()] + SpareOf(back)
    ensures SpareOf([head] + back)[1..] == SpareOf(back)
  {
    SpareConcat([head], back);
    SpareOne(head);
  }

  lemma PoppedRightParts(rest: seq<seq<Cell>>, last: seq<Cell>, leftIdx: nat)
    requires last != []
    ensures var chunks, cut := rest + [last], last[..|last| - 1];
            && (cut == [] && (rest != [] || leftIdx == 0) ==> PoppedRight(chunks, leftIdx, rest, leftIdx))
            && (cut != [] || (rest == [] && leftIdx > 0) ==> PoppedRight(chunks, leftIdx, rest + [cut], leftIdx))
            && Flatten(chunks) != [] && Flatten(chunks)[..|Flatten(chunks)| - 1] == Flatten(rest) + cut
  {
    hide Flatten;
    assert (rest + [last])[..|rest|] == rest;
    FlattenLast(rest, last);
  }

  // ---------- what the nodes of a list hold ----------

  ghost function ArraysOf(nodes: seq<ByteListNode>): set<array<byte>>
    reads nodes`arr
  {
    set n | n in nodes :: n.arr
  }

  /** No two nodes share memory. */
  ghost predicate Apart(nodes: seq<ByteListNode>)
    reads nodes`arr
  {
    forall i, j :: 0 <= i < j < |nodes| ==> nodes[i].arr != nodes[j].arr
  }

  /** The nodes hold the entries of the chunks, those of the first one from `base` on. */
  ghost predicate AllHold(nodes: seq<ByteListNode>, chunks: seq<seq<Cell>>, base: nat)
    reads nodes`arr, nodes`off, nodes`len, ArraysOf(nodes)
    ensures AllHold(nodes, chunks, base) ==> |nodes| == |chunks|
  {
    && |nodes| == |chunks|
    && forall i :: 0 <= i < |nodes| ==> nodes[i].Holds(if i == 0 then base else 0, chunks[i])
  }

  ghost predicate Packed(chunks: seq<seq<Cell>>) {
    forall i :: 0 <= i < |chunks| ==> chunks[i] != []
  }

  lemma PackedConcat(a: seq<seq<Cell>>, b: seq<seq<Cell>>)
    ensures Packed(a + b) <==> Packed(a) && Packed(b)
  {
    if Packed(a + b) {
      assert forall i :: 0 <= i < |a| ==> a[i] == (a + b)[i];
      assert forall i :: 0 <= i < |b| ==> b[i] == (a + b)[|a| + i];
    }
  }

  lemma PackedNone()
    ensures Packed([])
  {
  }

  lemma PackedOne(c: seq<Cell>)
    ensures Packed([c]) <==> c != []
  {
    assert [c][0] == c;
  }

  lemma ApartConcat(a: seq<ByteListNode>, b: seq<ByteListNode>)
    ensures Apart(a + b) <==> Apart(a) && Apart(b) && ArraysOf(a) !! ArraysOf(b)
    ensures ArraysOf(a + b) == ArraysOf(a) + ArraysOf(b)
  {
    var s := a + b;
    if Apart(s) {
      forall i, j | 0 <= i < j < |a|
        ensures a[i].arr != a[j].arr
      {
        assert s[i] == a[i] && s[j] == a[j];
      }
      forall i, j | 0 <= i < j < |b|
        ensures b[i].arr != b[j].arr
      {
        assert s[|a| + i] == b[i] && s[|a| + j] == b[j];
      }
      forall i, j | 0 <= i < |a| && 0 <= j < |b|
        ensures a[i].arr != b[j].arr
      {
        assert s[i] == a[i] && s[|a| + j] == b[j];
      }
    } else if Apart(a) && Apart(b) {
      var i, j :| 0 <= i < j < |s| && s[i].arr == s[j].arr;
      assert i < |a| <= j;
      assert a[i] in a && b[j - |a|] in b;
      assert a[i].arr in ArraysOf(a) && b[j - |a|].arr in ArraysOf(b);
    }
    assert forall n :: n in s <==> n in a || n in b;
  }

  lemma ApartOne(n: ByteListNode)
    ensures Apart([n]) && ArraysOf([n]) == {n.arr}
  {
  }

  lemma ArraysAllocated(nodes: seq<ByteListNode>)
    ensures forall a :: a in ArraysOf(nodes) ==> allocated(a)
  {
  }

  lemma NotAmong(nodes: seq<ByteListNode>, a: array<byte>)
    requires forall i :: 0 <= i < |nodes| ==> nodes[i].arr != a
    ensures a !in ArraysOf(nodes)
  {
  }

  lemma HoldConcat(a: seq<ByteListNode>, ca: seq<seq<Cell>>, b: seq<ByteListNode>, cb: seq<seq<Cell>>, base: nat)
    requires |a| == |ca|
    ensures AllHold(a + b, ca + cb, base) <==> AllHold(a, ca, base) && AllHold(b, cb, if a == [] then base else 0)
  {
    hide ByteListNode.Holds;
    var s, c := a + b, ca + cb;
    if AllHold(s, c, base) {
      forall i | 0 <= i < |a|
        ensures a[i].Holds(if i == 0 then base else 0, ca[i])
      {
        assert s[i] == a[i] && c[i] == ca[i];
      }
      forall i | 0 <= i < |b|
        ensures b[i].Holds(if i == 0 && a == [] then base else 0, cb[i])
      {
        assert s[|a| + i] == b[i] && c[|a| + i] == cb[i];
      }
    }
  }

  lemma HoldNone(base: nat)
    ensures AllHold([], [], base)
  {
  }

  lemma HoldOne(n: ByteListNode, c: seq<Cell>, base: nat)
    ensures AllHold([n], [c], base) <==> n.Holds(base, c)
  {
    hide ByteListNode.Holds;
    if AllHold([n], [c], base) {
      assert [n][0] == n;
    }
  }

  /** A list taken apart at its last node. */
  lemma LastPart(front: seq<ByteListNode>, rest: seq<seq<Cell>>, tail: ByteListNode, last: seq<Cell>, base: nat)
    requires |front| == |rest|
    ensures var nodes, chunks := front + [tail], rest + [last];
            && ArraysOf(nodes) == ArraysOf(front) + {tail.arr}
            && (Apart(nodes) <==> Apart(front) && tail.arr !in ArraysOf(front))
            && (AllHold(nodes, chunks, base) <==>
                AllHold(front, rest, base) && tail.Holds(if front == [] then base else 0, last))
            && (Packed(chunks) <==> Packed(rest) && last != [])
    ensures forall a :: a in ArraysOf(front) ==> allocated(a)
  {
    hide ByteListNode.Holds, Apart, AllHold, Packed;
    ApartConcat(front, [tail]);
    ApartOne(tail);
    HoldConcat(front, rest, [tail], [last], base);
    HoldOne(tail, last, if front == [] then base else 0);
    PackedConcat(rest, [last]);
    PackedOne(last);
  }

  /** A list taken apart at its first node. */
  lemma FirstPart(head: ByteListNode, first: seq<Cell>, back: seq<ByteListNode>, rest: seq<seq<Cell>>, base: nat)
    requires |back| == |rest|
    ensures var nodes, chunks := [head] + back, [first] + rest;
            && ArraysOf(nodes) == ArraysOf(back) + {head.arr}
            && (Apart(nodes) <==> Apart(back) && head.arr !in ArraysOf(back))
            && (AllHold(nodes, chunks, base) <==> AllHold(back, rest, 0) && head.Holds(base, first))
            && (Packed(chunks) <==> Packed(rest) && first != [])
    ensures forall a :: a in ArraysOf(back) ==> allocated(a)
  {
    hide ByteListNode.Holds, Apart, AllHold, Packed;
    ApartConcat([head], back);
    ApartOne(head);
    HoldConcat([head], [first], back, rest, base);
    HoldOne(head, first, base);
    PackedConcat([first], rest);
    PackedOne(first);
  }

  class Deque {
    var Length: int
    const list: ByteList
    var leftIdx: nat
    ghost var chunks: seq<seq<Cell>>

    constructor ()
      ensures Valid() && Contents() == []
      ensures fresh(list) && list.nodes == [] && chunks == [] && leftIdx == 0
    {
      Length := 0;
      list := new ByteList(MIN_DEQUE_NODE_SIZE);
      leftIdx := 0;
      chunks := [];
    }

    ghost function Contents(): seq<Cell>
      reads this`chunks
    {
      Flatten(chunks)
    }

    /** The only buffer has been emptied from the right; it keeps its stale left part and
        has spare capacity. */
    ghost predicate Drained()
      reads this`leftIdx, this`chunks, list`nodes, list.nodes
    {
      && |list.nodes| == 1
      && chunks == [[]]
      && 0 < leftIdx
      && list.nodes[0].InBounds()
      && list.nodes[0].len < list.nodes[0].Cap()
    }

    /** The buffers are linked, do not share memory, and hold the entries of `chunks`. */
    ghost predicate Shape()
      reads this`leftIdx, this`chunks, list`head, list`tail, list`nodes, list.nodes, ArraysOf(list.nodes)
    {
      && list.bufLen == MIN_DEQUE_NODE_SIZE
      && list.Linked()
      && Apart(list.nodes)
      && AllHold(list.nodes, chunks, leftIdx)
      && (Packed(chunks) || Drained())
      && (list.nodes == [] ==> leftIdx == 0)
    }

    ghost predicate Valid()
      reads this, list, list.nodes, ArraysOf(list.nodes)
    {
      && Shape()
      && Length == |Contents()|
      && list.size == NODE_SIZE * |list.nodes|
    }

    /** The tail is the last node: the list and its chunks taken apart there. */
    lemma LastNode() returns (front: seq<ByteListNode>, rest: seq<seq<Cell>>, last: seq<Cell>)
      requires Shape()
      ensures list.tail == null <==> list.nodes == []
      ensures list.tail == null <==> chunks == []
      ensures list.tail != null ==>
                && list.nodes == front + [list.tail] && chunks == rest + [last] && |front| == |rest|
                && list.tail in list.nodes
                && list.tail !in front && list.tail.InBounds()
                && list.tail.Holds(if front == [] then leftIdx else 0, last)
                && Contents() == Flatten(rest) + last
    {
      hide ByteListNode.Holds;
      front, rest, last := [], [], [];
      if list.tail != null {
        var k := |list.nodes| - 1;
        front, rest, last := list.nodes[..k], chunks[..k], chunks[k];
        assert chunks == rest + [last];
        FlattenLast(rest, last);
      }
    }

    /** The head is the first node: the list and its chunks taken apart there. */
    lemma FirstNode() returns (first: seq<Cell>, back: seq<ByteListNode>, rest: seq<seq<Cell>>)
      requires Shape()
      ensures list.head == null <==> list.nodes == []
      ensures list.head == null <==> chunks == []
      ensures list.head != null ==>
                && list.nodes == [list.head] + back && chunks == [first] + rest && |back| == |rest|
                && list.head in list.nodes
                && list.head !in back && list.head.InBounds() && leftIdx <= list.head.len
                && list.head.Holds(leftIdx, first)
                && Contents() == first + Flatten(rest)
    {
      hide ByteListNode.Holds;
      first, back, rest := [], [], [];
      if list.head != null {
        first, back, rest := chunks[0], list.nodes[1..], chunks[1..];
      }
    }

    /** Records what the tail node holds now; when it is the only one, maybe nothing. */
    ghost method KeepTail(front: seq<ByteListNode>, rest: seq<seq<Cell>>, last: seq<Cell>)
      requires list.bufLen == MIN_DEQUE_NODE_SIZE && list.Linked()
      requires list.tail != null && list.nodes == front + [list.tail]
      requires Apart(front) && AllHold(front, rest, leftIdx) && Packed(rest)
      requires list.tail.arr !in ArraysOf(front)
      requires list.tail.Holds(if front == [] then leftIdx else 0, last)
      requires last == [] ==> front == [] && 0 < leftIdx && list.tail.len < list.tail.Cap()
      modifies this`chunks
      ensures Shape()
      ensures chunks == rest + [last]
      ensures ArraysOf(list.nodes) == ArraysOf(front) + {list.tail.arr}
    {
      hide ByteListNode.Holds, Apart, AllHold, ArraysOf, Packed, ByteList.Linked;
      LastPart(front, rest, list.tail, last, leftIdx);
      chunks := rest + [last];
    }

    /** Records what the head node holds now. */
    ghost method KeepHead(first: seq<Cell>, back: seq<ByteListNode>, rest: seq<seq<Cell>>)
      requires list.bufLen == MIN_DEQUE_NODE_SIZE && list.Linked()
      requires list.head != null && list.nodes == [list.head] + back
      requires Apart(back) && AllHold(back, rest, 0) && Packed(rest)
      requires list.head.arr !in ArraysOf(back)
      requires list.head.Holds(leftIdx, first) && first != []
      modifies this`chunks
      ensures Shape()
      ensures chunks == [first] + rest
      ensures ArraysOf(list.nodes) == ArraysOf(back) + {list.head.arr}
    {
      hide ByteListNode.Holds, Apart, AllHold, ArraysOf, Packed, ByteList.Linked;
      FirstPart(list.head, first, back, rest, leftIdx);
      chunks := [first] + rest;
    }

    // ---------- pushing right ----------

    /** The pad byte RPush leaves: not zero only where the tail's spare memory is reused. */
    ghost function RightPad(x: Str): byte
      requires !LongNumber(x) && Encodable(x)
      requires list.tail != null ==> list.tail.InBounds()
      reads list, list.tail, if list.tail == null then {} else {list.tail.arr}
    {
      var tail := list.tail;
      var size := GetEncodeDeqEntrySize(x);
      if tail == null || tail.Cap() - tail.len < size then 0
      else SpareRight(tail, x)
    }

    method RPush(x: Str) returns (ghost c: Cell)
      requires Shape() && Encodable(x) && !LongNumber(x)
      modifies this, list, list.nodes, ArraysOf(list.nodes)
      ensures Shape() && leftIdx == old(leftIdx)
      ensures c == Cell(Canon(x), old(RightPad(x))) && c.Ok()
      ensures PushedRight(old(list.nodes), old(chunks), list.nodes, chunks, c)
      ensures SparePushedRight(old(chunks), old(SpareOf(list.nodes)), GetEncodeDeqEntrySize(x),
                               chunks, SpareOf(list.nodes), c)
      ensures Contents() == old(Contents()) + [c]
      ensures old(Valid()) ==> Valid()
      ensures forall n :: n in list.nodes ==> n in old(list.nodes) || fresh(n)
      ensures fresh(ArraysOf(list.nodes) - old(ArraysOf(list.nodes)))
      ensures Length == old(Length) + 1
      ensures list.size - NODE_SIZE * |list.nodes| == old(list.size - NODE_SIZE * |list.nodes|)
    {
      hide GetEncodeDeqEntrySize, Canon, EntryData, Entry, ParseInt, At, ByteListNode.Holds, Apart, AllHold, Packed,
           ArraysOf, ByteList.Linked, Flatten, Cell.Ok, SpareRight, AppendLast, SpareOf, SparePushedRight;
      var entrySize := GetEncodeDeqEntrySize(x);
      var tail := list.tail;
      SizePositive(x);
      ghost var front, rest, last := LastNode();
      if tail == null || tail.len == tail.Cap() {
        c := AddTail(x, entrySize);
        FlattenLast(old(chunks), [c]);
      } else {
        c := ExtendTail(x, entrySize);
        AppendLastParts(rest, last, c);
      }
      Length := Length + 1;
    }

    /** An empty node with room for an entry: of the standard capacity unless that is too small. */
    method NewNodeFor(entrySize: nat) returns (bn: ByteListNode)
      requires list.bufLen == MIN_DEQUE_NODE_SIZE
      modifies list`size
      ensures fresh(bn) && fresh(bn.arr) && entrySize <= bn.arr.Length
      ensures bn.arr.Length == if entrySize > MIN_DEQUE_NODE_SIZE then entrySize else MIN_DEQUE_NODE_SIZE
      ensures bn.off == 0 && bn.len == 0 && bn.next == null && bn.prev == null
      ensures forall k :: 0 <= k < bn.arr.Length ==> bn.arr[k] == 0
      ensures list.size == old(list.size) + NODE_SIZE
    {
      if entrySize > MIN_DEQUE_NODE_SIZE {
        bn := list.NewNodeWithCapacity(entrySize);
      } else {
        bn := list.NewNode();
      }
    }

    /** Appends a node that holds the entry of x alone. */
    method AddTail(x: Str, entrySize: nat) returns (ghost c: Cell)
      requires Shape() && Encodable(x) && !LongNumber(x) && entrySize == GetEncodeDeqEntrySize(x)
      requires list.tail == null || (list.tail.InBounds() && list.tail.len == list.tail.Cap())
      modifies this`chunks, list, list.nodes`next
      ensures Shape()
      ensures c == Cell(Canon(x), 0) && c.Ok()
      ensures chunks == old(chunks) + [[c]]
      ensures list.tail != null && list.nodes == old(list.nodes) + [list.tail] && fresh(list.tail)
      ensures SparePushedRight(old(chunks), old(SpareOf(list.nodes)), entrySize, chunks, SpareOf(list.nodes), c)
      ensures list.size == old(list.size) + NODE_SIZE
      ensures ArraysOf(list.nodes) == old(ArraysOf(list.nodes)) + {list.tail.arr} && fresh(list.tail.arr)
    {
      hide GetEncodeDeqEntrySize, Canon, EntryData, Entry, ParseInt, At, ByteListNode.Holds, Apart, AllHold, Packed,
           ArraysOf, ByteList.Linked, Flatten, Cell.Ok, SpareOf, Encodable, LongNumber;
      ghost var nodes, arrays, spare := list.nodes, ArraysOf(list.nodes), SpareOf(list.nodes);
      ghost var front, rest, last := LastNode();
      assert Packed(chunks) by {
        assert Drained() ==> front == [];
      }
      if list.tail != null {
        SpareLast(front, list.tail);
      }
      SizePositive(x);
      var tail := AppendNew(entrySize);
      ArraysAllocated(nodes);
      c := FillNewTail(tail, x, entrySize);
      assert ArraysOf(nodes) == arrays && SpareOf(nodes) == spare;
      SpareLast(nodes, tail);
      KeepTail(nodes, chunks, [c]);
    }

    /** Appends an empty node with room for an entry. */
    method AppendNew(entrySize: nat) returns (tail: ByteListNode)
      requires Shape() && Packed(chunks)
      modifies list, list.nodes`next
      ensures list.Linked() && list.nodes == old(list.nodes) + [tail] && list.tail == tail
      ensures fresh(tail) && fresh(tail.arr) && entrySize <= tail.arr.Length && tail.off == 0 && tail.len == 0
      ensures tail.arr.Length == if entrySize > MIN_DEQUE_NODE_SIZE then entrySize else MIN_DEQUE_NODE_SIZE
      ensures forall k :: 0 <= k < tail.arr.Length ==> tail.arr[k] == 0
      ensures Apart(old(list.nodes)) && AllHold(old(list.nodes), chunks, leftIdx) && tail !in old(list.nodes)
      ensures ArraysOf(old(list.nodes)) == old(ArraysOf(list.nodes)) && tail.arr !in ArraysOf(old(list.nodes))
      ensures SpareOf(old(list.nodes)) == old(SpareOf(list.nodes))
      ensures list.size == old(list.size) + NODE_SIZE
    {
      hide At, ByteListNode.Holds, Apart, AllHold, Packed, ArraysOf, ByteList.Linked, SpareOf;
      ghost var nodes := list.nodes;
      ArraysAllocated(nodes);
      tail := NewNodeFor(entrySize);
      list.Append(tail);
      NotAmong(nodes, tail.arr);
      list.TailLast();
    }

    /** Adds the entry of x to the last node. */
    method ExtendTail(x: Str, entrySize: nat) returns (ghost c: Cell)
      requires Shape() && Encodable(x) && !LongNumber(x) && entrySize == GetEncodeDeqEntrySize(x)
      requires list.tail != null && list.tail.InBounds() && list.tail.len < list.tail.Cap()
      modifies this`chunks, list.nodes`arr, list.nodes`off, list.nodes`len, ArraysOf(list.nodes)
      ensures Shape()
      ensures c == Cell(Canon(x), old(RightPad(x))) && c.Ok()
      ensures old(chunks) != [] && chunks == old(AppendLast(chunks, c))
      ensures SparePushedRight(old(chunks), old(SpareOf(list.nodes)), entrySize, chunks, SpareOf(list.nodes), c)
      ensures fresh(ArraysOf(list.nodes) - old(ArraysOf(list.nodes)))
    {
      hide GetEncodeDeqEntrySize, Canon, EntryData, Entry, ParseInt, At, ByteListNode.Holds, Apart, AllHold, Packed,
           ArraysOf, ByteList.Linked, Flatten, Cell.Ok, AppendLast, SpareOf;
      var tail := list.tail;
      ghost var front, rest, last := LastNode();
      SpareLast(front, tail);
      ghost var base := if front == [] then leftIdx else 0;
      LastPart(front, rest, tail, last, leftIdx);
      assert Drained() ==> Packed(rest) by { PackedNone(); }
      ghost var arrays := ArraysOf(front);
      if tail.Cap() - tail.len < entrySize {
        GrowRight(tail, x, entrySize, base, last);
        NotAmong(front, tail.arr);
        c := Cell(Canon(x), 0);
        StoreOk(x, 0);
      } else {
        c := FillRight(tail, x, entrySize, base, last);
      }
      assert ArraysOf(front) == arrays && tail.arr !in arrays;
      SpareLast(front, tail);
      AppendLastParts(rest, last, c);
      KeepTail(front, rest, last + [c]);
    }

    // ---------- pushing left ----------

    /** LPush panics on the one branch where it asks for less capacity than the entry needs. */
    predicate LPushFits(x: Str)
      reads this`leftIdx
    {
      !(MIN_DEQUE_NODE_SIZE < leftIdx < GetEncodeDeqEntrySize(x))
    }

    /** The pad byte LPush leaves: not zero only where the head's stale left part is reused. */
    ghost function LeftPad(x: Str): byte
      requires !LongNumber(x) && Encodable(x)
      requires list.head != null ==> list.head.InBounds() && leftIdx <= list.head.len
      requires list.head == null ==> leftIdx == 0
      reads this`leftIdx, list, list.head, if list.head == null then {} else {list.head.arr}
    {
      SizePositive(x);
      if leftIdx < GetEncodeDeqEntrySize(x) then 0 else SpareLeft(list.head, x, leftIdx)
    }

    /** False stands for the panic in make, before anything has changed. */
    method LPush(x: Str) returns (ok: bool, ghost c: Cell)
      requires Shape() && Encodable(x) && !LongNumber(x)
      modifies this, list, list.nodes, ArraysOf(list.nodes)
      ensures Shape()
      ensures ok <==> old(LPushFits(x))
      ensures !ok ==> unchanged(this) && unchanged(list) && unchanged(list.nodes) && unchanged(ArraysOf(list.nodes))
      ensures ok ==> c == Cell(Canon(x), old(LeftPad(x))) && c.Ok()
      ensures ok ==> PushedLeft(old(chunks), old(leftIdx), GetEncodeDeqEntrySize(x), chunks, leftIdx, c)
      ensures ok ==> SparePushedLeft(old(chunks), old(leftIdx), old(SpareOf(list.nodes)), GetEncodeDeqEntrySize(x),
                                     SpareOf(list.nodes))
      ensures ok ==> Contents() == [c] + old(Contents())
      ensures old(Valid()) ==> Valid()
      ensures forall a :: a in ArraysOf(list.nodes) ==> a in old(ArraysOf(list.nodes)) || fresh(a)
      ensures forall n :: n in list.nodes ==> n in old(list.nodes) || fresh(n)
      ensures ok ==> Length == old(Length) + 1
      ensures list.size - NODE_SIZE * |list.nodes| == old(list.size - NODE_SIZE * |list.nodes|)
    {
      hide GetEncodeDeqEntrySize, Canon, EntryData, Entry, ParseInt, At, ByteListNode.Holds, Apart, AllHold, Packed,
           ArraysOf, ByteList.Linked, Cell.Ok, PrependFirst, SpareLeft, SpareOf, SparePushedLeft;
      var entrySize := GetEncodeDeqEntrySize(x);
      SizePositive(x);
      ok := true;
      ghost var first, back, rest := FirstNode();
      if leftIdx > 0 {
        if leftIdx < entrySize && MIN_DEQUE_NODE_SIZE - leftIdx < 0 {
          return false, Cell([], 0);
        }
        c := ExtendHead(x, entrySize);
        PrependFirstParts(first, rest, c);
      } else {
        c := AddHead(x, entrySize);
      }
      Length := Length + 1;
    }

    /** Prepends a node that holds the entry of x alone, at its right end. */
    method AddHead(x: Str, entrySize: nat) returns (ghost c: Cell)
      requires Shape() && Encodable(x) && !LongNumber(x) && entrySize == GetEncodeDeqEntrySize(x)
      requires leftIdx == 0
      modifies this`chunks, this`leftIdx, list, list.nodes`prev
      ensures Shape()
      ensures c == Cell(Canon(x), 0) && c.Ok()
      ensures chunks == [[c]] + old(chunks)
      ensures leftIdx == if entrySize > MIN_DEQUE_NODE_SIZE then 0 else MIN_DEQUE_NODE_SIZE - entrySize
      ensures list.head != null && list.nodes == [list.head] + old(list.nodes) && fresh(list.head)
      ensures SparePushedLeft(old(chunks), old(leftIdx), old(SpareOf(list.nodes)), entrySize, SpareOf(list.nodes))
      ensures list.size == old(list.size) + NODE_SIZE
      ensures ArraysOf(list.nodes) == old(ArraysOf(list.nodes)) + {list.head.arr} && fresh(list.head.arr)
    {
      hide GetEncodeDeqEntrySize, Canon, EntryData, Entry, ParseInt, At, ByteListNode.Holds, Apart, AllHold, Packed,
           ArraysOf, ByteList.Linked, Flatten, Cell.Ok, SpareOf, Encodable, LongNumber;
      ghost var nodes, arrays, spare := list.nodes, ArraysOf(list.nodes), SpareOf(list.nodes);
      assert Packed(chunks);
      SizePositive(x);
      var head := PrependNew(entrySize);
      ArraysAllocated(nodes);
      c := FillNewHead(head, x, entrySize);
      assert ArraysOf(nodes) == arrays && SpareOf(nodes) == spare;
      leftIdx := head.len - entrySize;
      SpareFirst(head, nodes);
      KeepHead([c], nodes, chunks);
    }

    /** Prepends an empty node with room for an entry. */
    method PrependNew(entrySize: nat) returns (head: ByteListNode)
      requires Shape() && Packed(chunks)
      modifies list, list.nodes`prev
      ensures list.Linked() && list.nodes == [head] + old(list.nodes) && list.head == head
      ensures fresh(head) && fresh(head.arr) && entrySize <= head.arr.Length && head.off == 0 && head.len == 0
      ensures head.arr.Length == if entrySize > MIN_DEQUE_NODE_SIZE then entrySize else MIN_DEQUE_NODE_SIZE
      ensures forall k :: 0 <= k < head.arr.Length ==> head.arr[k] == 0
      ensures Apart(old(list.nodes)) && AllHold(old(list.nodes), chunks, leftIdx) && head !in old(list.nodes)
      ensures ArraysOf(old(list.nodes)) == old(ArraysOf(list.nodes)) && head.arr !in ArraysOf(old(list.nodes))
      ensures SpareOf(old(list.nodes)) == old(SpareOf(list.nodes))
      ensures list.size == old(list.size) + NODE_SIZE
    {
      hide At, ByteListNode.Holds, Apart, AllHold, Packed, ArraysOf, ByteList.Linked, SpareOf;
      ghost var nodes := list.nodes;
      ArraysAllocated(nodes);
      head := NewNodeFor(entrySize);
      list.Prepend(head);
      NotAmong(nodes, head.arr);
      list.HeadFirst();
    }

    /** Adds the entry of x at the left end of the first node. */
    method ExtendHead(x: Str, entrySize: nat) returns (ghost c: Cell)
      requires Shape() && Encodable(x) && !LongNumber(x) && entrySize == GetEncodeDeqEntrySize(x)
      requires 0 < leftIdx && LPushFits(x)
      modifies this`chunks, this`leftIdx, list.nodes`arr, list.nodes`off, list.nodes`len, ArraysOf(list.nodes)
      ensures Shape()
      ensures c == Cell(Canon(x), old(LeftPad(x))) && c.Ok()
      ensures old(chunks) != [] && chunks == old(PrependFirst(chunks, c))
      ensures leftIdx == if old(leftIdx) < entrySize then 0 else old(leftIdx) - entrySize
      ensures SparePushedLeft(old(chunks), old(leftIdx), old(SpareOf(list.nodes)), entrySize, SpareOf(list.nodes))
      ensures fresh(ArraysOf(list.nodes) - old(ArraysOf(list.nodes)))
    {
      hide GetEncodeDeqEntrySize, Canon, EntryData, Entry, ParseInt, At, ByteListNode.Holds, Apart, AllHold, Packed,
           ArraysOf, ByteList.Linked, Flatten, Cell.Ok, PrependFirst, SpareOf, Bytes;
      ghost var first, back, rest := FirstNode();
      var head := list.head;
      FirstPart(head, first, back, rest, leftIdx);
      assert Drained() ==> Packed(rest) by { PackedNone(); }
      SpareFirst(head, back);
      ghost var arrays, spare := ArraysOf(back), SpareOf(back);
      if leftIdx >= entrySize {
        c := FillLeft(head, x, entrySize, leftIdx, first);
        leftIdx := leftIdx - entrySize;
      } else {
        GrowLeft(head, x, entrySize, leftIdx, first);
        NotAmong(back, head.arr);
        c := Cell(Canon(x), 0);
        StoreOk(x, 0);
        leftIdx := 0;
      }
      assert ArraysOf(back) == arrays && head.arr !in arrays && SpareOf(back) == spare;
      SpareFirst(head, back);
      PrependFirstParts(first, rest, c);
      KeepHead([c] + first, back, rest);
    }

    // ---------- popping left ----------

    /** A buffer that still holds elements stays as it is; only the left index moves. */
    method LPop() returns (x: Option<Str>)
      requires Valid()
      modifies this, list, list.nodes`next, list.nodes`prev
      ensures Valid()
      ensures old(Contents()) != [] ==>
                && old(chunks) != [] && old(chunks)[0] != []
                && PoppedLeft(old(chunks), old(leftIdx), chunks, leftIdx)
                && SparePoppedLeft(old(chunks), old(SpareOf(list.nodes)), SpareOf(list.nodes))
                && (|old(chunks)[0]| > 1 ==> list.head == old(list.head))
      ensures old(Contents()) == [] ==> x == None && chunks == old(chunks) && leftIdx == old(leftIdx)
      ensures old(Contents()) == [] ==> SpareOf(list.nodes) == old(SpareOf(list.nodes))
      ensures old(Contents()) != [] ==> x == Some(old(Contents()[0].x)) && Contents() == old(Contents()[1..])
      ensures forall n :: n in list.nodes ==> n in old(list.nodes)
      ensures ArraysOf(list.nodes) <= old(ArraysOf(list.nodes))
    {
      hide DecodeDeqEntry, Decodable, ByteListNode.Holds, Apart, AllHold, ArraysOf, Packed, ByteList.Linked,
           Cell.Bytes, Cell.Ok, Cell.Stored, Flatten, SpareOf, SparePoppedLeft, PoppedLeft;
      if Length == 0 {
        return None;
      }
      NotDrained();
      ghost var first, back, rest := FirstNode();
      DropFirst(list.head, leftIdx, first);
      var (v, entryLen) := DecodeDeqEntry(list.head.Buf()[leftIdx..]);
      TakeHead(entryLen);
      Length := Length - 1;
      x := Some(v);
    }

    /** Moves past the first entry, and unlinks the head node when that was its last one. */
    method TakeHead(entryLen: nat)
      requires Shape() && Packed(chunks) && chunks != [] && chunks[0] != []
      requires entryLen == |chunks[0][0].Bytes()|
      modifies this`leftIdx, this`chunks, list, list.nodes`next, list.nodes`prev
      ensures Shape()
      ensures PoppedLeft(old(chunks), old(leftIdx), chunks, leftIdx)
      ensures SparePoppedLeft(old(chunks), old(SpareOf(list.nodes)), SpareOf(list.nodes))
      ensures |old(chunks)[0]| > 1 ==> list.head == old(list.head)
      ensures Contents() == old(Contents()[1..])
      ensures forall n :: n in list.nodes ==> n in old(list.nodes)
      ensures ArraysOf(list.nodes) <= old(ArraysOf(list.nodes))
      ensures list.size - NODE_SIZE * |list.nodes| == old(list.size - NODE_SIZE * |list.nodes|)
    {
      hide DecodeDeqEntry, Decodable, At, ByteListNode.Holds, Apart, AllHold, ArraysOf, Packed, ByteList.Linked,
           Cell.Bytes, Cell.Ok, Flatten, SpareOf;
      ghost var first, back, rest := FirstNode();
      var head := list.head;
      FirstPart(head, first, back, rest, leftIdx);
      DropFirst(head, leftIdx, first);
      assert Contents()[1..] == first[1..] + Flatten(rest);
      SpareFirst(head, back);
      leftIdx := leftIdx + entryLen;
      if leftIdx == head.len {
        UnlinkHead(back, rest);
      } else {
        FlattenFirst(first[1..], rest);
        KeepHead(first[1..], back, rest);
      }
    }

    /** Takes the head node out of the list; the next one has no left part. */
    method UnlinkHead(ghost back: seq<ByteListNode>, ghost rest: seq<seq<Cell>>)
      requires list.bufLen == MIN_DEQUE_NODE_SIZE && list.Linked()
      requires list.head != null && list.nodes == [list.head] + back
      requires Apart(back) && AllHold(back, rest, 0) && Packed(rest)
      modifies this`leftIdx, this`chunks, list, list.nodes`next, list.nodes`prev
      ensures Shape()
      ensures list.nodes == back && chunks == rest && leftIdx == 0
      ensures list.size == old(list.size) - NODE_SIZE
    {
      hide At, ByteListNode.Holds, Apart, AllHold, ArraysOf, Packed, ByteList.Linked;
      ArraysAllocated(back);
      list.Delete(list.head, 0);
      assert list.nodes == back;
      leftIdx := 0;
      chunks := rest;
    }

    // ---------- popping right ----------

    /** The parse from the right needs the last backlen to be clean, which it is unless a
        boundary length was written over stale memory. */
    method RPop() returns (x: Option<Str>)
      requires Valid()
      requires Contents() != [] ==> Contents()[|Contents()| - 1].pad == 0
      modifies this, list, list.nodes
      ensures Valid()
      ensures old(Contents()) == [] ==> x == None && chunks == old(chunks) && leftIdx == old(leftIdx)
      ensures old(Contents()) == [] ==> SpareOf(list.nodes) == old(SpareOf(list.nodes))
      ensures old(Contents()) != [] ==>
                var n := old(|Contents()| - 1);
                x == Some(old(Contents())[n].x) && Contents() == old(Contents())[..n]
      ensures old(Contents()) != [] ==>
                && old(chunks) != [] && old(chunks[|chunks| - 1]) != []
                && PoppedRight(old(chunks), old(leftIdx), chunks, leftIdx)
                && SparePoppedRight(old(chunks), old(leftIdx), old(SpareOf(list.nodes)), SpareOf(list.nodes))
      ensures forall n :: n in list.nodes ==> n in old(list.nodes)
      ensures ArraysOf(list.nodes) <= old(ArraysOf(list.nodes))
    {
      hide DecodeDeqEntry, Decodable, ByteListNode.Holds, Apart, AllHold, ArraysOf, Packed, ByteList.Linked,
           Cell.Bytes, Cell.Ok, Cell.Stored, Flatten, Shape, Drained, PoppedRight, SpareOf, SparePoppedRight;
      if Length == 0 {
        return None;
      }
      NotDrained();
      ArraysAllocated(list.nodes);
      var v, entryStart := LastEntry();
      TakeTail(entryStart);
      Length := Length - 1;
      x := Some(v);
    }

    /** Finds the last entry of the tail's buffer from the right. */
    method LastEntry() returns (v: Str, entryStart: nat)
      requires Shape() && Packed(chunks) && chunks != [] && chunks[|chunks| - 1] != []
      requires Contents() != [] && Contents()[|Contents()| - 1].pad == 0
      ensures v == Contents()[|Contents()| - 1].x
      ensures list.tail != null && list.tail.InBounds()
      ensures var last := chunks[|chunks| - 1]; entryStart + |last[|last| - 1].Bytes()| == list.tail.len
    {
      hide DecodeDeqEntry, Decodable, ByteListNode.Holds, Apart, AllHold, ArraysOf, Packed, ByteList.Linked,
           Cell.Bytes, Cell.Ok, Cell.Stored, Flatten, Shape;
      ghost var front, rest, last := LastNode();
      var tail := list.tail;
      ghost var c := last[|last| - 1];
      HoldsLast(tail, if front == [] then leftIdx else 0, last);
      OkStored(c);
      v, entryStart := ParseLast(tail.Buf(), tail.Buf()[..tail.len - |c.Bytes()|], c);
    }

    /** Reslices a node's buffer to end before its last entry. */
    static method CutRight(tail: ByteListNode, entryStart: nat, ghost base: nat, ghost cells: seq<Cell>)
      requires tail.Holds(base, cells) && cells != []
      requires entryStart + |cells[|cells| - 1].Bytes()| == tail.len
      modifies tail`len
      ensures tail.len == entryStart < tail.Cap()
      ensures tail.Holds(base, cells[..|cells| - 1])
    {
      hide Cell.Bytes, Cell.Ok;
      HoldsLast(tail, base, cells);
      ghost var was := tail.Buf();
      tail.len := entryStart;
      assert |tail.Buf()| == entryStart && forall i :: 0 <= i < entryStart ==> tail.Buf()[i] == was[i];
      assert tail.Buf()[base..] == was[base..entryStart];
    }

    /** Cuts the last entry off, and unlinks the tail node when nothing is left of its buffer. */
    method TakeTail(entryStart: nat)
      requires Shape() && Packed(chunks) && chunks != [] && chunks[|chunks| - 1] != []
      requires list.tail != null && list.tail.InBounds()
      requires var last := chunks[|chunks| - 1]; entryStart + |last[|last| - 1].Bytes()| == list.tail.len
      modifies this`leftIdx, this`chunks, list, list.nodes`next, list.nodes`prev, list.nodes`len
      ensures Shape()
      ensures PoppedRight(old(chunks), old(leftIdx), chunks, leftIdx)
      ensures SparePoppedRight(old(chunks), old(leftIdx), old(SpareOf(list.nodes)), SpareOf(list.nodes))
      ensures Contents() == old(Contents()[..|Contents()| - 1])
      ensures forall n :: n in list.nodes ==> n in old(list.nodes)
      ensures ArraysOf(list.nodes) <= old(ArraysOf(list.nodes))
      ensures list.size - NODE_SIZE * |list.nodes| == old(list.size - NODE_SIZE * |list.nodes|)
    {
      hide DecodeDeqEntry, Decodable, At, ByteListNode.Holds, Apart, AllHold, ArraysOf, Packed, ByteList.Linked,
           Cell.Bytes, Cell.Ok, Flatten, PoppedRight, SpareOf;
      ghost var front, rest, last := LastNode();
      var tail := list.tail;
      LastPart(front, rest, tail, last, leftIdx);
      ghost var base := if front == [] then leftIdx else 0;
      ghost var cut := last[..|last| - 1];
      HoldsLast(tail, base, last);
      PoppedRightParts(rest, last, leftIdx);
      SpareLast(front, tail);
      CutRight(tail, entryStart, base, last);
      SpareLast(front, tail);
      if tail.len == 0 {
        UnlinkTail(front, rest);
      } else {
        KeepTail(front, rest, cut);
        FlattenLast(rest, cut);
      }
    }

    /** Takes the tail node out of the list; when it was the only one, there is no left part either. */
    method UnlinkTail(ghost front: seq<ByteListNode>, ghost rest: seq<seq<Cell>>)
      requires list.bufLen == MIN_DEQUE_NODE_SIZE && list.Linked()
      requires list.tail != null && list.nodes == front + [list.tail]
      requires Apart(front) && AllHold(front, rest, leftIdx) && Packed(rest)
      modifies this`leftIdx, this`chunks, list, list.nodes`next, list.nodes`prev
      ensures Shape()
      ensures list.nodes == front && chunks == rest && leftIdx == if front == [] then 0 else old(leftIdx)
      ensures list.size == old(list.size) - NODE_SIZE
    {
      hide ByteListNode.Holds, Apart, AllHold, ArraysOf, Packed, ByteList.Linked;
      ArraysAllocated(front);
      list.Delete(list.tail, |front|);
      assert list.nodes == front;
      list.TailNil();
      if list.tail == null {
        leftIdx := 0;
        HoldNone(leftIdx);
      }
      chunks := rest;
    }

    /** A deque with elements has them in every buffer. */
    lemma NotDrained()
      requires Valid() && Length != 0
      ensures Packed(chunks) && chunks != [] && list.nodes != [] && !Drained()
      ensures chunks[0] != [] && chunks[|chunks| - 1] != []
      ensures Contents()[0] == chunks[0][0]
    {
      if Drained() {
        FlattenOne([]);
      }
    }

    /** What decoding at position `base` of a node finds, and what the node holds after it. */
    static lemma DropFirst(node: ByteListNode, base: nat, cells: seq<Cell>)
      requires node.Holds(base, cells) && cells != []
      ensures Decodable(node.Buf()[base..])
      ensures var (x, n) := DecodeDeqEntry(node.Buf()[base..]);
              && x == cells[0].x && n == |cells[0].Bytes()|
              && base + n <= node.len && node.Holds(base + n, cells[1..])
              && (base + n == node.len <==> cells[1..] == [])
    {
      hide DecodeDeqEntry, Decodable, Cell.Bytes, Cell.Ok, Cell.Stored;
      OkStored(cells[0]);
      DecodeFirst(cells[0], Bytes(cells[1..]));
      BytesEmpty(cells[1..]);
      var n := |cells[0].Bytes()|;
      assert node.Buf()[base + n..] == node.Buf()[base..][n..] == Bytes(cells[1..]);
    }

    // ---------- one node ----------

    /** Writes the entry of x just before position `base` of a node's buffer. */
    static method FillLeft(head: ByteListNode, x: Str, entrySize: nat, base: nat, ghost cells: seq<Cell>)
      returns (ghost c: Cell)
      requires Encodable(x) && !LongNumber(x) && entrySize == GetEncodeDeqEntrySize(x)
      requires head.Holds(base, cells) && entrySize <= base
      modifies head.arr
      ensures c == Cell(Canon(x), old(SpareLeft(head, x, base))) && c.Ok()
      ensures head.Holds(base - entrySize, [c] + cells)
    {
      hide GetEncodeDeqEntrySize, Canon, EntryData, Entry, ParseInt, ByteListNode.Holds;
      HoldsBytes(head, base, cells);
      c := Cell(Canon(x), SpareLeft(head, x, base));
      ghost var right := head.Buf()[base..];
      var lo, hi := head.off + base - entrySize, head.off + base;
      var ok := EncodeDeqEntryInPlace(x, head.arr, lo, hi);
      StoreOk(x, c.pad);
      assert right == old(head.arr[hi..])[..head.len - base] == head.arr[hi..][..head.len - base];
      assert head.Buf()[base - entrySize..] == head.arr[lo..hi] + head.arr[hi..][..head.len - base];
      HoldsGrownLeft(head, base - entrySize, right, cells, c);
    }

    /** Replaces the buffer of a node by one that starts with the entry of x. */
    static method GrowLeft(head: ByteListNode, x: Str, entrySize: nat, base: nat, ghost cells: seq<Cell>)
      requires Encodable(x) && !LongNumber(x) && entrySize == GetEncodeDeqEntrySize(x)
      requires head.Holds(base, cells) && base < entrySize && base <= MIN_DEQUE_NODE_SIZE
      modifies head`arr, head`off, head`len
      ensures fresh(head.arr) && 0 <= head.Spare()
      ensures var room := MIN_DEQUE_NODE_SIZE - base - |Bytes(cells)|; 0 <= room ==> head.Spare() == room
      ensures head.Holds(0, [Cell(Canon(x), 0)] + cells)
    {
      hide GetEncodeDeqEntrySize, Canon, EntryData, Entry, ParseInt, ByteListNode.Holds;
      HoldsBytes(head, base, cells);
      var right := head.Buf()[base..];
      var newBuf := NewBufThen(x, entrySize, entrySize + MIN_DEQUE_NODE_SIZE - base, right);
      StoreOk(x, 0);
      head.arr, head.off, head.len := newBuf, 0, entrySize + |right|;
      HoldsGrownLeft(head, 0, right, cells, Cell(Canon(x), 0));
    }

    /** make([]byte, entrySize, capacity), the entry of x, and append(..., right...). */
    static method NewBufThen(x: Str, entrySize: nat, capacity: nat, right: Str) returns (newBuf: array<byte>)
      requires Encodable(x) && !LongNumber(x) && entrySize == GetEncodeDeqEntrySize(x)
      requires entrySize <= capacity
      ensures fresh(newBuf) && entrySize + |right| <= newBuf.Length
      ensures entrySize + |right| <= capacity ==> newBuf.Length == capacity
      ensures newBuf[..entrySize + |right|] == Entry(x, 0) + right
    {
      hide GetEncodeDeqEntrySize, Canon, EntryData, Entry, ParseInt;
      var room := capacity;
      if room < entrySize + |right| {
        room :| entrySize + |right| <= room; // append allocates anew, with any capacity that suffices
      }
      newBuf := new byte[room](_ => 0);
      var ok := EncodeDeqEntryInPlace(x, newBuf, 0, entrySize);
      assert newBuf[0..entrySize] == Entry(x, 0);
      forall i | 0 <= i < |right| {
        newBuf[entrySize + i] := right[i];
      }
      assert newBuf[0..entrySize] == Entry(x, 0);
    }

    static ghost function SpareLeft(head: ByteListNode, x: Str, base: nat): byte
      requires Encodable(x) && !LongNumber(x)
      requires head.InBounds() && GetEncodeDeqEntrySize(x) <= base <= head.len
      reads head, head.arr
    {
      SizeIsLength(x, 0);
      PadLeft(x, head.arr[head.off + base - GetEncodeDeqEntrySize(x)..head.off + base])
    }

    static lemma ZeroLeft(node: ByteListNode, x: Str, base: nat)
      requires Encodable(x) && !LongNumber(x)
      requires node.InBounds() && GetEncodeDeqEntrySize(x) <= base <= node.len
      requires forall k :: 0 <= k < node.arr.Length ==> node.arr[k] == 0
      ensures SpareLeft(node, x, base) == 0
    {
      hide GetEncodeDeqEntrySize, EntryData, ParseInt;
      SizeIsLength(x, 0);
    }

    static lemma HoldsEnd(node: ByteListNode)
      requires node.InBounds()
      ensures node.Holds(node.len, [])
    {
    }

    static lemma ZeroSpare(node: ByteListNode, x: Str)
      requires Encodable(x) && !LongNumber(x)
      requires node.InBounds() && node.len + GetEncodeDeqEntrySize(x) <= node.Cap()
      requires forall k :: node.off + node.len <= k < node.arr.Length ==> node.arr[k] == 0
      ensures SpareRight(node, x) == 0
    {
      hide GetEncodeDeqEntrySize, EntryData, ParseInt;
      SizeIsLength(x, 0);
    }

    static lemma HoldsNothing(node: ByteListNode)
      requires node.InBounds() && node.len == 0
      ensures node.Holds(0, [])
    {
    }

    /** Writes the entry of x at the start of a new node. */
    static method FillNewTail(tail: ByteListNode, x: Str, entrySize: nat) returns (ghost c: Cell)
      requires Encodable(x) && !LongNumber(x) && entrySize == GetEncodeDeqEntrySize(x)
      requires tail.off == 0 && tail.len == 0 && entrySize <= tail.arr.Length
      requires forall k :: 0 <= k < tail.arr.Length ==> tail.arr[k] == 0
      modifies tail`len, tail.arr
      ensures c == Cell(Canon(x), 0) && c.Ok()
      ensures tail.len == entrySize && tail.Holds(0, [c])
    {
      hide GetEncodeDeqEntrySize, ByteListNode.Holds;
      HoldsNothing(tail);
      ZeroSpare(tail, x);
      c := FillRight(tail, x, entrySize, 0, []);
      assert [] + [c] == [c];
    }

    /** Extends a new node to its capacity and writes the entry of x at its end. */
    static method FillNewHead(head: ByteListNode, x: Str, entrySize: nat) returns (ghost c: Cell)
      requires Encodable(x) && !LongNumber(x) && entrySize == GetEncodeDeqEntrySize(x)
      requires head.off == 0 && head.len == 0 && entrySize <= head.arr.Length
      requires forall k :: 0 <= k < head.arr.Length ==> head.arr[k] == 0
      modifies head`len, head.arr
      ensures c == Cell(Canon(x), 0) && c.Ok()
      ensures head.len == head.arr.Length && head.Holds(head.len - entrySize, [c])
    {
      hide GetEncodeDeqEntrySize, ByteListNode.Holds;
      head.len := head.Cap();
      HoldsEnd(head);
      ZeroLeft(head, x, head.len);
      c := FillLeft(head, x, entrySize, head.len, []);
      assert [c] + [] == [c];
    }

    /** Replaces the buffer of a node by a longer copy that ends in the entry of x. */
    static method GrowRight(tail: ByteListNode, x: Str, entrySize: nat, ghost base: nat, ghost cells: seq<Cell>)
      requires Encodable(x) && !LongNumber(x) && entrySize == GetEncodeDeqEntrySize(x)
      requires tail.Holds(base, cells)
      modifies tail`arr, tail`off, tail`len
      ensures fresh(tail.arr) && tail.Spare() == 0
      ensures tail.Holds(base, cells + [Cell(Canon(x), 0)])
    {
      hide GetEncodeDeqEntrySize, Canon, EntryData, Entry, ParseInt, ByteListNode.Holds;
      HoldsBytes(tail, base, cells);
      var newBuf := new byte[tail.len + entrySize](_ => 0);
      forall i | 0 <= i < tail.len {
        newBuf[i] := tail.arr[tail.off + i];
      }
      ghost var front := newBuf[..tail.len];
      assert front == tail.Buf();
      var ok := EncodeDeqEntryInPlace(x, newBuf, tail.len, tail.len + entrySize);
      assert newBuf[..] == front + newBuf[tail.len..tail.len + entrySize];
      StoreOk(x, 0);
      tail.arr, tail.off, tail.len := newBuf, 0, tail.len + entrySize;
      assert tail.Buf() == newBuf[..];
      HoldsGrown(tail, front, base, cells, Cell(Canon(x), 0));
    }

    /** Writes the entry of x into the spare memory after the end of a node's buffer. */
    static method FillRight(tail: ByteListNode, x: Str, entrySize: nat, ghost base: nat, ghost cells: seq<Cell>)
      returns (ghost c: Cell)
      requires Encodable(x) && !LongNumber(x) && entrySize == GetEncodeDeqEntrySize(x)
      requires tail.Holds(base, cells) && tail.len + entrySize <= tail.Cap()
      modifies tail`len, tail.arr
      ensures c == Cell(Canon(x), old(SpareRight(tail, x))) && c.Ok()
      ensures tail.len == old(tail.len) + entrySize && tail.Holds(base, cells + [c])
    {
      hide GetEncodeDeqEntrySize, Canon, EntryData, Entry, ParseInt, ByteListNode.Holds;
      HoldsBytes(tail, base, cells);
      var oriLen := tail.len;
      ghost var front := tail.Buf();
      c := Cell(Canon(x), SpareRight(tail, x));
      tail.len := oriLen + entrySize;
      var ok := EncodeDeqEntryInPlace(x, tail.arr, tail.off + oriLen, tail.off + tail.len);
      StoreOk(x, c.pad);
      assert tail.Buf() == tail.arr[..tail.off + oriLen][tail.off..] + tail.arr[tail.off + oriLen..tail.off + tail.len];
      assert front == old(tail.arr[..tail.off + oriLen])[tail.off..];
      HoldsGrown(tail, front, base, cells, c);
    }

    static ghost function SpareRight(tail: ByteListNode, x: Str): byte
      requires Encodable(x) && !LongNumber(x)
      requires tail.InBounds() && tail.len + GetEncodeDeqEntrySize(x) <= tail.Cap()
      reads tail, tail.arr
    {
      SizeIsLength(x, 0);
      PadLeft(x, tail.arr[tail.off + tail.len..tail.off + tail.len + GetEncodeDeqEntrySize(x)])
    }
  }

  lemma SizePositive(x: Str)
    ensures 2 <= GetEncodeDeqEntrySize(x)
  {
  }

  lemma HoldsBytes(node: ByteListNode, base: nat, cells: seq<Cell>)
    requires node.Holds(base, cells)
    ensures node.Buf()[base..] == Bytes(cells) && AllOk(cells)
  {
  }

  /** A buffer that has grown by one entry on the right. */
  lemma HoldsGrown(node: ByteListNode, front: Str, base: nat, cells: seq<Cell>, c: Cell)
    requires base <= |front| && front[base..] == Bytes(cells)
    requires AllOk(cells) && c.Ok()
    requires node.InBounds() && node.Buf() == front + c.Bytes()
    ensures node.Holds(base, cells + [c])
  {
    hide Cell.Bytes, Cell.Ok, Bytes;
    CellsGrow(front, base, cells, c);
  }

  /** The bytes of the last entry end the buffer. */
  lemma HoldsLast(node: ByteListNode, base: nat, cells: seq<Cell>)
    requires node.Holds(base, cells) && cells != []
    ensures var c := cells[|cells| - 1];
            var start := node.len - |c.Bytes()|;
            && base <= start && (base == start <==> |cells| == 1)
            && c.Ok()
            && node.Buf() == node.Buf()[..start] + c.Bytes()
            && node.Buf()[base..start] == Bytes(cells[..|cells| - 1])
  {
    hide Cell.Bytes, Cell.Ok;
    var front, c := cells[..|cells| - 1], cells[|cells| - 1];
    assert cells == front + [c];
    BytesConcat(front, [c]);
    BytesOne(c);
    BytesEmpty(front);
    var start := node.len - |c.Bytes()|;
    assert node.Buf()[base..] == Bytes(front) + c.Bytes();
    assert node.Buf()[base..][..start - base] == Bytes(front);
    assert node.Buf()[base..][start - base..] == c.Bytes();
  }

  /** A buffer that has grown by one entry on the left. */
  lemma HoldsGrownLeft(node: ByteListNode, base: nat, right: Str, cells: seq<Cell>, c: Cell)
    requires right == Bytes(cells) && AllOk(cells) && c.Ok()
    requires node.InBounds() && base <= node.len && node.Buf()[base..] == c.Bytes() + right
    ensures node.Holds(base, [c] + cells)
  {
    hide Cell.Bytes, Cell.Ok;
    assert ([c] + cells)[1..] == cells;
  }

  lemma CellsGrow(front: Str, base: nat, cells: seq<Cell>, c: Cell)
    requires base <= |front| && front[base..] == Bytes(cells)
    ensures (front + c.Bytes())[base..] == Bytes(cells + [c])
  {
    hide Cell.Bytes, Bytes;
    BytesOne(c);
    BytesConcat(cells, [c]);
    assert (front + c.Bytes())[base..] == front[base..] + c.Bytes();
  }
}
