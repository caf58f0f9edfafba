/** Walking a deque from the left: the iterator and LRange. */
module DequeScan {
  import opened Options
  import opened Decimal
  import opened EntryDecode
  import opened Cells
  import opened ByteLists
  import opened Deques
  import opened ListSpec

  lemma FlattenAt(chunks: seq<seq<Cell>>, k: nat, j: nat)
    requires k < |chunks| && j < |chunks[k]|
    ensures var t := |Flatten(chunks[..k])| + j; t < |Flatten(chunks)| && Flatten(chunks)[t] == chunks[k][j]
  {
    FlattenSplit(chunks, k);
  }

  class DequeIterator {
    const deque: Deque
    var CurrentNode: ByteListNode?
    var ElementsTraversed: int
    var BufIndex: nat
    ghost var k: nat // CurrentNode is the k-th node
    ghost var j: nat // and BufIndex the start of its j-th entry

    ghost predicate Valid()
      reads this, deque, deque.list, deque.list.nodes, ArraysOf(deque.list.nodes)
    {
      && deque.Valid()
      && k <= |deque.list.nodes| == |deque.chunks|
      && ElementsTraversed == |Flatten(deque.chunks[..k])| + j
      && (if k == |deque.list.nodes| then j == 0 && CurrentNode == null && BufIndex == 0
          else
            && CurrentNode == deque.list.nodes[k]
            && (deque.chunks[k] == [] || j < |deque.chunks[k]|)
            && j <= |deque.chunks[k]|
            && CurrentNode.Holds(BufIndex, deque.chunks[k][j..]))
    }

    constructor (q: Deque)
      requires q.Valid()
      ensures Valid() && deque == q
      ensures ElementsTraversed == 0 && k == 0 && j == 0
    {
      hide ByteListNode.Holds, ArraysOf, Flatten, Deque.Valid;
      AtStart(q);
      ArraysAllocated(q.list.nodes);
      deque := q;
      CurrentNode := q.list.head;
      ElementsTraversed := 0;
      BufIndex := q.leftIdx;
      k, j := 0, 0;
    }

    predicate HasNext()
      reads this, deque
    {
      ElementsTraversed < deque.Length
    }

    /** Returns the element under the iterator and moves to the next one. */
    method Next() returns (x: Option<Str>)
      requires Valid()
      modifies this
      ensures Valid()
      ensures !old(HasNext()) ==> x == None && ElementsTraversed == old(ElementsTraversed)
      ensures old(HasNext()) ==>
                && x == Some(deque.Contents()[old(ElementsTraversed)].x)
                && ElementsTraversed == old(ElementsTraversed) + 1
                && old(k) < |deque.chunks| && old(j) < |deque.chunks[old(k)]|
                && deque.Contents()[old(ElementsTraversed)] == deque.chunks[old(k)][old(j)]
                && old(CurrentNode) == deque.list.nodes[old(k)]
                && old(BufIndex) + |deque.chunks[old(k)][old(j)].Bytes()|
                   == (if k == old(k) then BufIndex else deque.list.nodes[old(k)].len)
                && (if old(j) + 1 < |deque.chunks[old(k)]|
                    then k == old(k) && j == old(j) + 1
                    else k == old(k) + 1 && j == 0 && BufIndex == 0)
    {
      hide DecodeDeqEntry, Decodable, ByteListNode.Holds, ArraysOf, Flatten, At, Deque.Valid, Deque.Contents,
           Cell.Bytes;
      if !HasNext() {
        return None;
      }
      ghost var cells := AtCursor();
      ArraysAllocated(deque.list.nodes);
      Deque.DropFirst(CurrentNode, BufIndex, cells);
      var (v, entryLen) := DecodeDeqEntry(CurrentNode.Buf()[BufIndex..]);
      assert deque.chunks[k][j + 1..] == cells[1..];
      x := Some(v);
      if BufIndex + entryLen == CurrentNode.len {
        FlattenNext(deque.chunks, k);
        AtNode(k + 1);
        CurrentNode, BufIndex, ElementsTraversed := CurrentNode.next, 0, ElementsTraversed + 1;
        k, j := k + 1, 0;
      } else {
        BufIndex, ElementsTraversed := BufIndex + entryLen, ElementsTraversed + 1;
        j := j + 1;
      }
    }

    /** An iterator that has a next element stands on it. */
    lemma AtCursor() returns (cells: seq<Cell>)
      requires Valid() && HasNext()
      ensures k < |deque.chunks| && j < |deque.chunks[k]|
      ensures cells == deque.chunks[k][j..] && cells != [] && CurrentNode != null
      ensures CurrentNode.Holds(BufIndex, cells)
      ensures CurrentNode.next == At(deque.list.nodes, k + 1)
      ensures deque.Contents()[ElementsTraversed] == deque.chunks[k][j]
    {
      hide ByteListNode.Holds, Apart, AllHold, ArraysOf;
      var chunks := deque.chunks;
      TakeAll(chunks);
      deque.NotDrained();
      FlattenAt(chunks, k, j);
      cells := chunks[k][j..];
    }

    /** What the k-th node holds, and where the list ends. */
    lemma AtNode(i: nat)
      requires deque.Valid() && 0 < i <= |deque.list.nodes|
      ensures |deque.list.nodes| == |deque.chunks|
      ensures i == |deque.list.nodes| ==> At(deque.list.nodes, i) == null
      ensures i < |deque.list.nodes| ==>
                && At(deque.list.nodes, i) == deque.list.nodes[i]
                && deque.list.nodes[i].Holds(0, deque.chunks[i][0..])
                && deque.chunks[i] != []
    {
      hide ByteListNode.Holds, Apart, ArraysOf;
      if i < |deque.list.nodes| {
        assert deque.chunks[i][0..] == deque.chunks[i];
      }
    }
  }

  /** What the head holds. */
  lemma AtStart(q: Deque)
    requires q.Valid()
    ensures |q.list.nodes| == |q.chunks| && Flatten(q.chunks[..0]) == []
    ensures if q.list.nodes == [] then q.list.head == null && q.leftIdx == 0
            else q.list.head == q.list.nodes[0] && q.list.head.Holds(q.leftIdx, q.chunks[0][0..])
  {
    hide ByteListNode.Holds, ArraysOf, Apart, AllHold, Packed;
    var first, back, rest := q.FirstNode();
    if q.list.nodes != [] {
      assert q.chunks[0][0..] == q.chunks[0];
    }
  }

  lemma TakeAll<T>(s: seq<T>)
    ensures s[..|s|] == s
  {
  }

  lemma FlattenNext(chunks: seq<seq<Cell>>, k: nat)
    requires k < |chunks|
    ensures |Flatten(chunks[..k + 1])| == |Flatten(chunks[..k])| + |chunks[k]|
  {
    FlattenLast(chunks[..k], chunks[k]);
    assert chunks[..k + 1] == chunks[..k] + [chunks[k]];
  }

  lemma LengthIs(q: Deque)
    requires q.Valid()
    ensures q.Length == |q.Contents()|
  {
  }

  method LRange(q: Deque, start: int, stop: int) returns (res: seq<Str>)
    requires q.Valid()
    ensures res == Range(Values(q.Contents()), start, stop)
  {
    hide Deque.Valid, DequeIterator.Valid, ArraysOf, Deque.Contents;
    LengthIs(q);
    var start', stop' := SanitizeStartIndex(q.Length, start), SanitizeStopIndex(q.Length, stop);
    ghost var values := Values(q.Contents());
    ghost var lo, hi := Position(|values|, start), Position(|values|, stop);
    SanitizedRange(values, start, stop);
    res := [];
    if start' > stop' {
      return;
    }
    var it := new DequeIterator(q);
    var currIndex := 0;
    var hasNext := it.HasNext();
    while hasNext
      invariant it.Valid() && it.deque == q && fresh(it)
      invariant 0 <= currIndex == it.ElementsTraversed <= |values|
      invariant hasNext <==> currIndex < |values|
      invariant res == Within(values[..currIndex], lo, hi)
      decreases |values| - currIndex
    {
      if currIndex > stop' {
        WithinStop(values, currIndex, lo, hi);
        return;
      }
      var currElem := it.Next();
      assert values[..currIndex + 1][..currIndex] == values[..currIndex];
      if currIndex >= start' && currIndex <= stop' {
        res := res + [currElem.value];
      }
      currIndex := currIndex + 1;
      hasNext := it.HasNext();
    }
    assert values[..currIndex] == values;
  }
}
