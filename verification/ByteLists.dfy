/** The doubly linked list of byte buffers of internal/eval/bytelist.go. */
module ByteLists {
  import opened Bits
  import opened Decimal
  import opened Cells

  /** unsafe.Sizeof of a node on a 64-bit machine: a slice and two pointers. */
  const NODE_SIZE: int := 40

  /** A node.  Its buf is the slice arr[off..off+len], with the rest of arr as spare capacity. */
  class ByteListNode {
    var arr: array<byte>
    var off: nat
    var len: nat
    var next: ByteListNode?
    var prev: ByteListNode?

    constructor (capacity: nat)
      ensures fresh(arr) && arr.Length == capacity
      ensures off == 0 && len == 0 && next == null && prev == null
      ensures forall k :: 0 <= k < capacity ==> arr[k] == 0
    {
      arr := new byte[capacity](_ => 0);
      off, len := 0, 0;
      next, prev := null, null;
    }

    predicate InBounds()
      reads this`arr, this`off, this`len
    {
      off + len <= arr.Length
    }

    function Cap(): nat
      requires InBounds()
      reads this`arr, this`off, this`len
    {
      arr.Length - off
    }

    /** The spare capacity behind the buffer. */
    ghost function Spare(): int
      reads this`arr, this`off, this`len
    {
      arr.Length - off - len
    }

    function Buf(): (s: Str)
      requires InBounds()
      reads this`arr, this`off, this`len, arr
      ensures |s| == len
    {
      arr[off..off + len]
    }

    /** From position base on, the buffer holds exactly the given entries. */
    ghost predicate Holds(base: nat, cells: seq<Cell>)
      reads this`arr, this`off, this`len, arr
      ensures Holds(base, cells) ==> InBounds() && base <= len && AllOk(cells)
      ensures Holds(base, cells) ==> (cells == [] <==> base == len)
    {
      BytesEmpty(cells);
      && InBounds()
      && base <= len
      && Buf()[base..] == Bytes(cells)
      && AllOk(cells)
    }
  }

  /** The spare capacity of each node. */
  ghost function SpareOf(nodes: seq<ByteListNode>): (s: seq<int>)
    reads nodes`arr, nodes`off, nodes`len
    ensures |s| == |nodes|
  {
    if nodes == [] then [] else [nodes[0].Spare()] + SpareOf(nodes[1..])
  }

  lemma {:induction false} SpareConcat(a: seq<ByteListNode>, b: seq<ByteListNode>)
    ensures SpareOf(a + b) == SpareOf(a) + SpareOf(b)
  {
    if a == [] {
      assert a + b == b;
    } else {
      SpareConcat(a[1..], b);
      assert (a + b)[1..] == a[1..] + b;
    }
  }

  lemma SpareOne(n: ByteListNode)
    ensures SpareOf([n]) == [n.Spare()]
  {
  }

  /** The node at position i, or nil on either side of the list. */
  ghost function At(nodes: seq<ByteListNode>, i: int): ByteListNode? {
    if 0 <= i < |nodes| then nodes[i] else null
  }

  class ByteList {
    const bufLen: nat
    var size: int
    var head: ByteListNode?
    var tail: ByteListNode?
    ghost var nodes: seq<ByteListNode>

    constructor (bufLen: nat)
      ensures this.bufLen == bufLen && size == 0 && nodes == [] && Linked()
    {
      this.bufLen := bufLen;
      size := 0;
      head, tail := null, null;
      nodes := [];
    }

    /** The links run through `nodes` in both directions, and through nothing else. */
    ghost predicate Linked()
      reads this`head, this`tail, this`nodes, nodes`next, nodes`prev
    {
      && head == At(nodes, 0)
      && tail == At(nodes, |nodes| - 1)
      && (forall i, j :: 0 <= i < j < |nodes| ==> nodes[i] != nodes[j])
      && (forall i {:trigger nodes[i].next} :: 0 <= i < |nodes| ==> nodes[i].next == At(nodes, i + 1))
      && (forall i {:trigger nodes[i].prev} :: 0 <= i < |nodes| ==> nodes[i].prev == At(nodes, i - 1))
    }

    lemma TailNil()
      requires Linked()
      ensures tail == null <==> nodes == []
    {
    }

    lemma TailLast()
      requires Linked() && nodes != []
      ensures tail == nodes[|nodes| - 1]
    {
    }

    lemma HeadFirst()
      requires Linked() && nodes != []
      ensures head == nodes[0]
    {
    }

    method NewNode() returns (bn: ByteListNode)
      modifies this`size
      ensures fresh(bn) && fresh(bn.arr) && bn.arr.Length == bufLen
      ensures bn.off == 0 && bn.len == 0 && bn.next == null && bn.prev == null
      ensures forall k :: 0 <= k < bufLen ==> bn.arr[k] == 0
      ensures size == old(size) + 40
    {
      bn := new ByteListNode(bufLen);
      size := size + NODE_SIZE;
    }

    method NewNodeWithCapacity(capacity: nat) returns (bn: ByteListNode)
      modifies this`size
      ensures fresh(bn) && fresh(bn.arr) && bn.arr.Length == capacity
      ensures bn.off == 0 && bn.len == 0 && bn.next == null && bn.prev == null
      ensures forall k :: 0 <= k < capacity ==> bn.arr[k] == 0
      ensures size == old(size) + 40
    {
      bn := new ByteListNode(capacity);
      size := size + NODE_SIZE;
    }

    method Append(bn: ByteListNode)
      requires Linked() && bn !in nodes && bn.next == null
      modifies this`head, this`tail, this`nodes, bn`prev, nodes`next
      ensures Linked() && nodes == old(nodes) + [bn]
    {
      bn.prev := tail;
      if tail != null {
        tail.next := bn;
      }
      tail := bn;
      if head == null {
        head := bn;
      }
      nodes := nodes + [bn];
    }

    method Prepend(bn: ByteListNode)
      requires Linked() && bn !in nodes && bn.prev == null
      modifies this`head, this`tail, this`nodes, bn`next, nodes`prev
      ensures Linked() && nodes == [bn] + old(nodes)
    {
      bn.next := head;
      if head != null {
        head.prev := bn;
      }
      head := bn;
      if tail == null {
        tail := bn;
      }
      ghost var was := nodes;
      nodes := [bn] + was;
      forall k | 0 <= k < |nodes|
        ensures nodes[k].next == At(nodes, k + 1) && nodes[k].prev == At(nodes, k - 1)
      {
        if 0 < k {
          assert nodes[k] == was[k - 1];
        }
      }
    }

    /** Unlinks a node anywhere in the list; its own links are left as they are. */
    method Delete(bn: ByteListNode, ghost i: nat)
      requires Linked() && i < |nodes| && nodes[i] == bn
      modifies this, nodes`next, nodes`prev
      ensures Linked() && nodes == old(nodes[..i] + nodes[i + 1..])
      ensures size == old(size) - 40
    {
      hide At;
      ghost var was := nodes;
      AtEnds(was, i);
      if bn == head {
        head := bn.next;
      }
      if bn == tail {
        tail := bn.prev;
      }
      if bn.prev != null {
        bn.prev.next := bn.next;
      }
      if bn.next != null {
        bn.next.prev := bn.prev;
      }
      assert forall j {:trigger was[j].next} :: 0 <= j < |was| ==>
             was[j].next == At(was, if j == i - 1 then i + 1 else j + 1);
      assert forall j {:trigger was[j].prev} :: 0 <= j < |was| ==>
             was[j].prev == At(was, if j == i + 1 then i - 1 else j - 1);
      size := size - NODE_SIZE;
      nodes := was[..i] + was[i + 1..];
      forall k | 0 <= k < |nodes|
        ensures nodes[k].next == At(nodes, k + 1) && nodes[k].prev == At(nodes, k - 1)
      {
        Unlinked(was, i, nodes, k);
      }
      UnlinkedEnds(was, i, nodes);
    }
  }

  lemma AtEnds(was: seq<ByteListNode>, i: nat)
    requires i < |was|
    ensures At(was, i) == was[i] && At(was, 0) == was[0] && At(was, |was| - 1) == was[|was| - 1]
    ensures At(was, i - 1) == (if i == 0 then null else was[i - 1])
    ensures At(was, i + 1) == (if i + 1 == |was| then null else was[i + 1])
  {
  }

  // ---------- stretches of a list ----------

  /** Distinct nodes, each linked to the next one in both directions. */
  ghost predicate Chain(nodes: seq<ByteListNode>)
    reads nodes`next, nodes`prev
  {
    && (forall i, j :: 0 <= i < j < |nodes| ==> nodes[i] != nodes[j])
    && (forall i {:trigger nodes[i].next} :: 0 <= i < |nodes| - 1 ==> nodes[i].next == nodes[i + 1])
    && (forall i {:trigger nodes[i].prev} :: 0 < i < |nodes| ==> nodes[i].prev == nodes[i - 1])
  }

  ghost predicate Disjoint(a: seq<ByteListNode>, b: seq<ByteListNode>) {
    forall n :: n in a ==> n !in b
  }

  /** Whether the right end of a is linked to the left end of b. */
  ghost predicate Joined(a: seq<ByteListNode>, b: seq<ByteListNode>)
    reads a`next, b`prev
  {
    a != [] && b != [] ==> a[|a| - 1].next == b[0] && b[0].prev == a[|a| - 1]
  }

  lemma ChainConcat(a: seq<ByteListNode>, b: seq<ByteListNode>)
    ensures Chain(a + b) <==> Chain(a) && Chain(b) && Disjoint(a, b) && Joined(a, b)
  {
    if Chain(a + b) {
      ChainSplit(a, b);
    } else if Chain(a) && Chain(b) && Disjoint(a, b) && Joined(a, b) {
      ChainJoin(a, b);
    }
  }

  lemma ChainSplit(a: seq<ByteListNode>, b: seq<ByteListNode>)
    requires Chain(a + b)
    ensures Chain(a) && Chain(b) && Disjoint(a, b) && Joined(a, b)
  {
    var s := a + b;
    assert Chain(a) by {
      assert forall i :: 0 <= i < |a| ==> a[i] == s[i];
    }
    assert Chain(b) by {
      assert forall i :: 0 <= i < |b| ==> b[i] == s[|a| + i];
    }
    assert Disjoint(a, b) by {
      forall n | n in a
        ensures n !in b
      {
        var i :| 0 <= i < |a| && a[i] == n;
        forall j | 0 <= j < |b|
          ensures b[j] != n
        {
          assert s[i] == n && s[|a| + j] == b[j];
        }
      }
    }
    if a != [] && b != [] {
      assert s[|a| - 1] == a[|a| - 1] && s[|a|] == b[0];
      assert s[|a| - 1].next == s[|a|] && s[|a|].prev == s[|a| - 1];
    }
  }

  lemma ChainJoin(a: seq<ByteListNode>, b: seq<ByteListNode>)
    requires Chain(a) && Chain(b) && Disjoint(a, b) && Joined(a, b)
    ensures Chain(a + b)
  {
    var s := a + b;
    forall i, j | 0 <= i < j < |s|
      ensures s[i] != s[j]
    {
      if i < |a| <= j {
        assert s[i] in a && s[j] in b;
      }
    }
    forall i | 0 <= i < |s| - 1
      ensures s[i].next == s[i + 1]
    {
      assert s[i] == if i < |a| then a[i] else b[i - |a|];
    }
    forall i | 0 < i < |s|
      ensures s[i].prev == s[i - 1]
    {
      assert s[i] == if i < |a| then a[i] else b[i - |a|];
    }
  }

  lemma ChainOne(n: ByteListNode)
    ensures Chain([n])
  {
  }

  /** A list is a chain with nil at both ends. */
  lemma LinkedChain(list: ByteList)
    ensures list.Linked() <==>
              && list.head == At(list.nodes, 0) && list.tail == At(list.nodes, |list.nodes| - 1)
              && Chain(list.nodes) && Closed(list.nodes)
  {
    hide At;
    var nodes := list.nodes;
    if list.Linked() {
      LinkedIsChain(list);
    } else if list.head == At(nodes, 0) && list.tail == At(nodes, |nodes| - 1) && Chain(nodes) && Closed(nodes) {
      ChainIsLinked(list);
    }
  }

  ghost predicate Closed(nodes: seq<ByteListNode>)
    reads nodes`next, nodes`prev
  {
    nodes != [] ==> nodes[0].prev == null && nodes[|nodes| - 1].next == null
  }

  lemma LinkedIsChain(list: ByteList)
    requires list.Linked()
    ensures list.head == At(list.nodes, 0) && list.tail == At(list.nodes, |list.nodes| - 1)
    ensures Chain(list.nodes) && Closed(list.nodes)
  {
  }

  lemma ChainIsLinked(list: ByteList)
    requires list.head == At(list.nodes, 0) && list.tail == At(list.nodes, |list.nodes| - 1)
    requires Chain(list.nodes) && Closed(list.nodes)
    ensures list.Linked()
  {
  }

  // ---------- cutting and joining ----------

  /** Makes pn, in the middle of the list, its tail. */
  method Cut(list: ByteList, pn: ByteListNode, ghost front: seq<ByteListNode>, ghost back: seq<ByteListNode>)
    requires list.Linked() && list.nodes == front + [pn] + back
    modifies list`tail, list`nodes, pn`next
    ensures list.Linked() && list.nodes == front + [pn]
    ensures Chain(back) && Ended(back) && Disjoint(front + [pn], back)
  {
    hide ByteList.Linked, Chain, At;
    LinkedChain(list);
    ChainConcat(front + [pn], back);
    Ends(front, pn, back);
    assert pn in front + [pn];
    CutLink(pn, front);
    list.tail := pn;
    list.nodes := front + [pn];
    LinkedChain(list);
  }

  /** The outgoing link of its last node does not matter to a chain. */
  method CutLink(pn: ByteListNode, ghost front: seq<ByteListNode>)
    requires Chain(front + [pn])
    modifies pn`next
    ensures pn.next == null && Chain(front + [pn])
  {
    ghost var s := front + [pn];
    assert s[|front|] == pn;
    pn.next := null;
    assert forall i {:trigger s[i].next} :: 0 <= i < |s| - 1 ==> s[i].next == old(s[i].next);
  }

  /** Links two chains. */
  method Link(tail: ByteListNode, first: ByteListNode, ghost front: seq<ByteListNode>, ghost rest: seq<ByteListNode>)
    requires Chain(front + [tail]) && Chain([first] + rest) && Disjoint(front + [tail], [first] + rest)
    modifies tail`next, first`prev
    ensures Chain(front + [tail] + ([first] + rest))
    ensures tail.next == first && first.prev == tail
  {
    ghost var a, b := front + [tail], [first] + rest;
    assert a[|front|] == tail && b[0] == first;
    assert tail in a && first in b;
    tail.next := first;
    first.prev := tail;
    assert Chain(a) by {
      assert forall i {:trigger a[i].next} :: 0 <= i < |a| - 1 ==> a[i].next == old(a[i].next);
      assert forall i {:trigger a[i].prev} :: 0 < i < |a| ==> a[i] in a && a[i].prev == old(a[i].prev);
    }
    assert Chain(b) by {
      assert forall i {:trigger b[i].next} :: 0 <= i < |b| - 1 ==> b[i] in b && b[i].next == old(b[i].next);
      assert forall i {:trigger b[i].prev} :: 0 < i < |b| ==> b[i].prev == old(b[i].prev);
    }
    ChainJoin(a, b);
  }

  /** Links the stretch that starts at `first` to the tail; `last` ends it. */
  method Rejoin(list: ByteList, first: ByteListNode, last: ByteListNode, ghost rest: seq<ByteListNode>)
    requires list.Linked() && list.tail != null
    requires var back := [first] + rest;
             back[|back| - 1] == last && Chain(back) && Ended(back) && Disjoint(list.nodes, back)
    modifies list`tail, list`nodes, list.tail`next, first`prev
    ensures list.Linked() && list.nodes == old(list.nodes) + ([first] + rest)
  {
    hide ByteList.Linked, Chain, At;
    LinkedChain(list);
    list.TailNil();
    list.TailLast();
    ghost var nodes, back := list.nodes, [first] + rest;
    ghost var front := nodes[..|nodes| - 1];
    assert nodes == front + [list.tail];
    assert list.tail in nodes && first in back;
    Link(list.tail, first, front, rest);
    list.tail := last;
    list.nodes := nodes + back;
    JoinedEnds(nodes, back);
    LinkedChain(list);
  }

  /** Links a chain of new nodes, from `first` to `last`, in before pn. */
  method InsertBefore(list: ByteList, first: ByteListNode, last: ByteListNode, pn: ByteListNode,
                      ghost mid: seq<ByteListNode>, ghost front: seq<ByteListNode>, ghost back: seq<ByteListNode>)
    requires list.Linked() && list.nodes == front + ([pn] + back)
    requires mid != [] && mid[0] == first && mid[|mid| - 1] == last && first.prev == null
    requires Chain(mid) && Disjoint(list.nodes, mid)
    modifies list`head, list`nodes, list.nodes`next, pn`prev, first`prev, last`next
    ensures list.Linked() && list.nodes == front + mid + ([pn] + back)
    ensures first.prev == null <==> front == []
  {
    hide ByteList.Linked, Chain, At;
    PrevAt(list, front, pn, back);
    InsertedEnds(front, mid, pn, back);
    LinkedChain(list);
    ChainConcat(front, [pn] + back);
    DisjointParts(front, [pn] + back, mid);
    ghost var left := mid[..|mid| - 1];
    assert mid == left + [last] && last in mid && first in mid;
    if pn.prev != null {
      LinkBetween(pn.prev, first, last, pn, mid, front, back);
    } else {
      Link(last, pn, left, back);
      list.head := first;
      assert front + mid == mid;
    }
    list.nodes := front + mid + ([pn] + back);
    LinkedChain(list);
  }

  /** Links a chain of new nodes in between the last node of front and pn. */
  method LinkBetween(prev: ByteListNode, first: ByteListNode, last: ByteListNode, pn: ByteListNode,
                     ghost mid: seq<ByteListNode>, ghost front: seq<ByteListNode>, ghost back: seq<ByteListNode>)
    requires front != [] && front[|front| - 1] == prev
    requires mid != [] && mid[0] == first && mid[|mid| - 1] == last
    requires Chain(front) && Chain(mid) && Chain([pn] + back) && Disjoint(front, mid)
    requires Disjoint(front, [pn] + back) && Disjoint(mid, [pn] + back)
    modifies prev`next, first`prev, last`next, pn`prev
    ensures Chain(front + mid + ([pn] + back))
    ensures Ended([pn] + back) == old(Ended([pn] + back))
    ensures front[0].prev == old(front[0].prev) && first.prev == prev
  {
    hide Chain;
    ghost var f, left := front[..|front| - 1], mid[..|mid| - 1];
    assert front == f + [prev] && mid == [first] + mid[1..] && mid == left + [last];
    assert prev in front && first in mid && last in mid && pn in [pn] + back;
    assert front[0] in front && ([pn] + back)[|back|] in [pn] + back;
    Link(prev, first, f, mid[1..]);
    assert front + mid == (front + left) + [last];
    Link(last, pn, front + left, back);
  }

  lemma PrevAt(list: ByteList, front: seq<ByteListNode>, pn: ByteListNode, back: seq<ByteListNode>)
    requires list.Linked() && list.nodes == front + ([pn] + back)
    ensures pn.prev == (if front == [] then null else front[|front| - 1])
    ensures pn in list.nodes && (front != [] ==> front[|front| - 1] in list.nodes)
  {
    assert list.nodes[|front|] == pn;
    if front != [] {
      assert list.nodes[|front| - 1] == front[|front| - 1];
    }
  }

  lemma DisjointParts(a: seq<ByteListNode>, b: seq<ByteListNode>, c: seq<ByteListNode>)
    requires Disjoint(a + b, c)
    ensures Disjoint(a, c) && Disjoint(c, b)
    ensures Disjoint(a, b) ==> Disjoint(a + c, b)
  {
    assert forall n :: n in a + b <==> n in a || n in b;
  }

  lemma InsertedEnds(front: seq<ByteListNode>, mid: seq<ByteListNode>, pn: ByteListNode, back: seq<ByteListNode>)
    requires mid != []
    ensures var was, now := front + ([pn] + back), front + mid + ([pn] + back);
            && At(now, |now| - 1) == At(was, |was| - 1) && now[|now| - 1] == was[|was| - 1]
            && At(now, 0) == (if front == [] then mid[0] else At(was, 0))
            && now[0] == (if front == [] then mid[0] else was[0])
  {
  }

  ghost predicate Ended(back: seq<ByteListNode>)
    reads back`next
  {
    back != [] ==> back[|back| - 1].next == null
  }

  lemma Ends(front: seq<ByteListNode>, pn: ByteListNode, back: seq<ByteListNode>)
    ensures var p, nodes := front + [pn], front + [pn] + back;
            && At(p, |p| - 1) == pn && At(p, 0) == At(nodes, 0)
            && p[|p| - 1] == pn && nodes[0] == p[0]
            && (back != [] ==> nodes[|nodes| - 1] == back[|back| - 1])
  {
  }

  lemma JoinedEnds(nodes: seq<ByteListNode>, back: seq<ByteListNode>)
    requires nodes != [] && back != []
    ensures var s := nodes + back;
            && At(s, |s| - 1) == back[|back| - 1] && At(s, 0) == At(nodes, 0)
            && s[|s| - 1] == back[|back| - 1] && s[0] == nodes[0]
  {
  }

  /** The neighbours of a node that remains when the node at position i is taken out. */
  lemma Unlinked(was: seq<ByteListNode>, i: nat, now: seq<ByteListNode>, k: nat)
    requires i < |was| && now == was[..i] + was[i + 1..] && k < |now|
    ensures var j := if k < i then k else k + 1;
            && now[k] == was[j]
            && At(now, k + 1) == At(was, if j == i - 1 then i + 1 else j + 1)
            && At(now, k - 1) == At(was, if j == i + 1 then i - 1 else j - 1)
  {
  }

  lemma UnlinkedEnds(was: seq<ByteListNode>, i: nat, now: seq<ByteListNode>)
    requires i < |was| && now == was[..i] + was[i + 1..]
    ensures At(now, 0) == At(was, if i == 0 then 1 else 0)
    ensures At(now, |now| - 1) == At(was, if i == |was| - 1 then i - 1 else |was| - 1)
  {
  }
}
