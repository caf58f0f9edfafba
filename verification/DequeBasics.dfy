/** The flat list of internal/eval/deque.go: all entries in one buffer that is moved as a whole. */
module DequeBasics {
  import opened Bits
  import opened Options
  import opened Decimal
  import opened EntryCodec
  import opened EntryDecode
  import opened Cells
  import opened ListSpec

  /** Every entry is encoded into fresh memory, so no pad byte is ever dirty. */
  ghost predicate AllClean(cells: seq<Cell>) {
    AllStored(cells) && forall i :: 0 <= i < |cells| ==> cells[i].pad == 0
  }

  lemma CleanJoin(a: seq<Cell>, b: seq<Cell>)
    ensures AllClean(a + b) <==> AllClean(a) && AllClean(b)
  {
    hide Cell.Stored;
    if AllClean(a + b) {
      assert forall i :: 0 <= i < |a| ==> a[i] == (a + b)[i];
      assert forall i :: 0 <= i < |b| ==> b[i] == (a + b)[|a| + i];
    }
  }

  /** Decoding at the front of a run gives its first element. */
  lemma First(cells: seq<Cell>)
    requires AllClean(cells) && cells != []
    ensures Decodable(Bytes(cells)) && DecodeDeqEntry(Bytes(cells)) == (cells[0].x, |cells[0].Bytes()|)
    ensures Bytes(cells) == cells[0].Bytes() + Bytes(cells[1..]) && AllClean(cells[1..])
  {
    hide Cell.Stored, Cell.Bytes, Bytes, AllClean, DecodeDeqEntry, Decodable;
    At(cells, 0);
    BytesEmpty(cells[..0]);
    assert [] + (cells[0].Bytes() + Bytes(cells[1..])) == cells[0].Bytes() + Bytes(cells[1..]);
    DecodeFirst(cells[0], Bytes(cells[1..]));
  }

  lemma CleanOne(c: Cell)
    ensures AllClean([c]) <==> c.Stored() && c.pad == 0
  {
    hide Cell.Stored;
    assert [c][0] == c;
  }

  /** A run taken apart at position i. */
  lemma At(cells: seq<Cell>, i: nat)
    requires AllClean(cells) && i < |cells|
    ensures cells[i].Stored() && cells[i].pad == 0
    ensures Bytes(cells) == Bytes(cells[..i]) + (cells[i].Bytes() + Bytes(cells[i + 1..]))
    ensures Bytes(cells[..i + 1]) == Bytes(cells[..i]) + cells[i].Bytes()
    ensures AllClean(cells[..i]) && AllClean(cells[i + 1..])
  {
    hide Cell.Stored, Cell.Bytes, Bytes;
    var a, c, b := cells[..i], cells[i], cells[i + 1..];
    assert cells == a + ([c] + b) && cells[..i + 1] == a + [c];
    CleanJoin(a, [c] + b);
    CleanJoin([c], b);
    BytesOne(c);
    BytesConcat(a, [c]);
    BytesConcat([c], b);
    BytesConcat(a, [c] + b);
  }

  /** A run with an element added at position i. */
  lemma Joined(cells: seq<Cell>, i: nat, c: Cell)
    requires AllClean(cells) && i <= |cells| && c.Stored() && c.pad == 0
    ensures var all := cells[..i] + [c] + cells[i..];
            AllClean(all) && Bytes(all) == Bytes(cells[..i]) + c.Bytes() + Bytes(cells[i..])
    ensures Bytes(cells) == Bytes(cells[..i]) + Bytes(cells[i..])
  {
    hide Cell.Stored, Cell.Bytes, Bytes, AllClean;
    var a, b := cells[..i], cells[i..];
    assert cells == a + b;
    CleanJoin(a, b);
    CleanOne(c);
    CleanJoin(a, [c]);
    CleanJoin(a + [c], b);
    BytesConcat(a, b);
    BytesOne(c);
    BytesConcat(a, [c]);
    BytesConcat(a + [c], b);
  }

  class DequeBasic {
    var Length: int
    var arr: array<byte> // buf is arr[..len], with capacity arr.Length
    var len: nat
    ghost var cells: seq<Cell>

    ghost predicate Valid()
      reads this, arr
    {
      && len <= arr.Length
      && arr[..len] == Bytes(cells)
      && AllClean(cells)
      && Length == |cells|
    }

    /** The elements, from left to right. */
    ghost function Contents(): seq<Str>
      reads this`cells
    {
      Values(cells)
    }

    constructor ()
      ensures Valid() && Contents() == []
      ensures fresh(arr)
    {
      Length, len, cells := 0, 0, [];
      arr := new byte[0];
    }

    /** Makes room at idx and copies xb there: a buffer twice as large when the capacity does not suffice. */
    method InsertBytes(xb: Str, idx: nat)
      requires idx <= len <= arr.Length
      modifies this`arr, this`len, arr
      ensures len == old(len) + |xb| && len <= arr.Length
      ensures arr[..len] == old(arr[..idx]) + xb + old(arr[idx..len])
      ensures arr == old(arr) || fresh(arr)
    {
      var n, k := len, |xb|;
      if arr.Length - n < k {
        var newArr := new byte[(n + k) * 2](_ => 0);
        forall i | idx <= i < n {
          newArr[k + i] := arr[i];
        }
        forall i | 0 <= i < idx {
          newArr[i] := arr[i];
        }
        forall i | 0 <= i < k {
          newArr[idx + i] := xb[i];
        }
        arr := newArr;
      } else {
        forall i | idx <= i < n {
          arr[k + i] := arr[i];
        }
        forall i | 0 <= i < k {
          arr[idx + i] := xb[i];
        }
      }
      len := n + k;
    }

    /** append(q.buf, xb...): fresh memory, of any capacity that suffices, when there is no room. */
    method AppendBytes(xb: Str)
      requires len <= arr.Length
      modifies this`arr, this`len, arr
      ensures len == old(len) + |xb| && len <= arr.Length
      ensures arr[..len] == old(arr[..len]) + xb
      ensures arr == old(arr) || fresh(arr)
    {
      if arr.Length - len < |xb| {
        var capacity :| len + |xb| <= capacity;
        var newArr := new byte[capacity](_ => 0);
        forall i | 0 <= i < len {
          newArr[i] := arr[i];
        }
        arr := newArr;
      }
      forall i | 0 <= i < |xb| {
        arr[len + i] := xb[i];
      }
      len := len + |xb|;
    }

    /** The same moves as for any other place, at index 0. */
    method LPush(x: Str)
      requires Valid() && Encodable(x)
      modifies this, arr
      ensures Valid() && Contents() == [Canon(x)] + old(Contents())
      ensures arr == old(arr) || fresh(arr)
    {
      hide AllClean, Canon, Encodable, Cell.Bytes;
      InsertElementAfterIndex(x, 0, 0);
    }

    method RPush(x: Str)
      requires Valid() && Encodable(x)
      modifies this, arr
      ensures Valid() && Contents() == old(Contents()) + [Canon(x)]
      ensures arr == old(arr) || fresh(arr)
    {
      hide Canon, Encodable, Entry, Cell.Stored, Cell.Bytes, Bytes, AllClean;
      ghost var c := Cell(Canon(x), 0);
      StoreOk(x, 0);
      Joined(cells, |cells|, c);
      ValuesInserted(cells, |cells|, c);
      var xb := EncodeDeqEntry(x);
      AppendBytes(xb);
      cells := cells + [c];
      Length := Length + 1;
      assert old(cells)[..|old(cells)|] == old(cells) && old(cells)[|old(cells)|..] == [];
      assert old(cells) + [c] + [] == cells;
      BytesEmpty([]);
    }

    /** Puts the element where entry number `at` starts. */
    method InsertElementAfterIndex(element: Str, idx: nat, ghost at: nat)
      requires Valid() && Encodable(element)
      requires at <= |cells| && idx == |Bytes(cells[..at])|
      modifies this, arr
      ensures Valid() && Contents() == old(Contents()[..at]) + [Canon(element)] + old(Contents()[at..])
      ensures Length == old(Length) + 1
      ensures arr == old(arr) || fresh(arr)
    {
      hide Canon, Encodable, Entry, Cell.Stored, Cell.Bytes, Bytes, AllClean;
      ghost var c := Cell(Canon(element), 0);
      StoreOk(element, 0);
      Joined(cells, at, c);
      ValuesInserted(cells, at, c);
      var xb := EncodeDeqEntry(element);
      assert arr[..idx] == arr[..len][..idx] && arr[idx..len] == arr[..len][idx..];
      InsertBytes(xb, idx);
      cells := cells[..at] + [c] + cells[at..];
      Length := Length + 1;
    }

    method LPop() returns (x: Option<Str>)
      requires Valid()
      modifies this, arr
      ensures Valid() && arr == old(arr)
      ensures old(Contents()) == [] ==> x == None && Contents() == []
      ensures old(Contents()) != [] ==> x == Some(old(Contents())[0]) && Contents() == old(Contents()[1..])
    {
      hide Cell.Stored, Cell.Bytes, Bytes, AllClean, DecodeDeqEntry, Decodable;
      if Length == 0 {
        return None;
      }
      First(cells);
      var (v, entryLen) := DecodeDeqEntry(arr[..len]);
      assert arr[entryLen..len] == arr[..len][entryLen..] == Bytes(cells[1..]);
      forall i | entryLen <= i < len {
        arr[i - entryLen] := arr[i];
      }
      len := len - entryLen;
      cells := cells[1..];
      Length := Length - 1;
      x := Some(v);
    }

    method RPop() returns (x: Option<Str>)
      requires Valid()
      modifies this
      ensures Valid() && arr == old(arr)
      ensures old(Contents()) == [] ==> x == None && Contents() == []
      ensures old(Contents()) != [] ==>
                var n := old(|Contents()| - 1);
                x == Some(old(Contents())[n]) && Contents() == old(Contents())[..n]
    {
      hide Cell.Stored, Cell.Bytes, Bytes, AllClean, DecodeDeqEntry, Decodable;
      if Length == 0 {
        return None;
      }
      ghost var n := |cells| - 1;
      At(cells, n);
      BytesEmpty(cells[n + 1..]);
      var v, entryStart := ParseLast(arr[..len], Bytes(cells[..n]), cells[n]);
      assert arr[..entryStart] == arr[..len][..entryStart] == Bytes(cells[..n]);
      len := entryStart;
      cells := cells[..n];
      Length := Length - 1;
      x := Some(v);
    }
  }

  class DequeBasicIterator {
    const deque: DequeBasic
    var elementsTraversed: int
    var bufIndex: nat

    ghost predicate Valid()
      reads this, deque, deque.arr
    {
      && deque.Valid()
      && 0 <= elementsTraversed <= |deque.cells|
      && bufIndex == |Bytes(deque.cells[..elementsTraversed])|
    }

    constructor (q: DequeBasic)
      requires q.Valid()
      ensures Valid() && deque == q && elementsTraversed == 0
    {
      deque := q;
      elementsTraversed, bufIndex := 0, 0;
    }

    predicate HasNext()
      reads this, deque
    {
      elementsTraversed < deque.Length
    }

    method Next() returns (x: Option<Str>)
      requires Valid()
      modifies this
      ensures Valid()
      ensures !old(HasNext()) ==> x == None && elementsTraversed == old(elementsTraversed)
      ensures old(HasNext()) ==>
                && elementsTraversed == old(elementsTraversed) + 1
                && x == Some(deque.Contents()[old(elementsTraversed)])
    {
      hide Cell.Stored, Cell.Bytes, Bytes, AllClean, DecodeDeqEntry, Decodable;
      if !HasNext() {
        return None;
      }
      ghost var cells, i := deque.cells, elementsTraversed;
      At(cells, i);
      DecodeFirst(cells[i], Bytes(cells[i + 1..]));
      assert deque.arr[bufIndex..deque.len] == deque.arr[..deque.len][bufIndex..]
             == cells[i].Bytes() + Bytes(cells[i + 1..]);
      var (v, entryLen) := DecodeDeqEntry(deque.arr[bufIndex..deque.len]);
      bufIndex := bufIndex + entryLen;
      elementsTraversed := elementsTraversed + 1;
      x := Some(v);
    }
  }

  method LRange(q: DequeBasic, start: int, stop: int) returns (res: seq<Str>)
    requires q.Valid()
    ensures res == Range(q.Contents(), start, stop)
  {
    hide AllClean, Bytes;
    var start', stop' := SanitizeStartIndex(q.Length, start), SanitizeStopIndex(q.Length, stop);
    ghost var values := q.Contents();
    ghost var lo, hi := Position(|values|, start), Position(|values|, stop);
    SanitizedRange(values, start, stop);
    res := [];
    if start' > stop' {
      return;
    }
    var it := new DequeBasicIterator(q);
    var currIndex := 0;
    var hasNext := it.HasNext();
    while hasNext
      invariant it.Valid() && it.deque == q && fresh(it)
      invariant 0 <= currIndex == it.elementsTraversed <= |values|
      invariant hasNext <==> currIndex < |values|
      invariant res == Within(values[..currIndex], lo, hi)
      decreases |values| - currIndex
    {
      if currIndex > stop' {
        WithinStop(values, currIndex, lo, hi);
        return;
      }
      var currElem := it.Next();
      assert values[..currIndex + 1][..currIndex] == values[..currIndex];
      if currIndex >= start' && currIndex <= stop' {
        res := res + [currElem.value];
      }
      currIndex := currIndex + 1;
      hasNext := it.HasNext();
    }
    assert values[..currIndex] == values;
  }

  /** The pivot is the element the iterator has just passed; its entry starts at pivotIndexStart. */
  method InsertBeforeAfterPivot(q: DequeBasic, element: Str, where: string, pivotIndexStart: nat,
                                it: DequeBasicIterator)
    requires it.Valid() && it.deque == q && Encodable(element) && it.elementsTraversed > 0
    requires where == BEFORE || where == AFTER
    requires pivotIndexStart == |Bytes(q.cells[..it.elementsTraversed - 1])|
    modifies q, q.arr
    ensures q.Valid() && q.Length == old(q.Length) + 1
    ensures var at := it.elementsTraversed - if where == AFTER then 0 else 1;
            at <= |old(q.Contents())|
            && q.Contents() == old(q.Contents())[..at] + [Canon(element)] + old(q.Contents())[at..]
    ensures q.arr == old(q.arr) || fresh(q.arr)
  {
    hide Cell.Stored, Cell.Bytes, Bytes, AllClean, Canon, Encodable;
    ghost var all := q.Contents();
    BytesEmpty(q.cells[..it.elementsTraversed - 1]);
    BytesEmpty([]);
    if pivotIndexStart == 0 && where == BEFORE {
      assert it.elementsTraversed == 1;
      assert all[..0] + [Canon(element)] + all[0..] == [Canon(element)] + all;
      q.LPush(element);
    } else if !it.HasNext() && where == AFTER {
      assert all[..|all|] + [Canon(element)] + all[|all|..] == all + [Canon(element)];
      q.RPush(element);
    } else {
      var idx := pivotIndexStart;
      if where == AFTER {
        idx := it.bufIndex;
      }
      q.InsertElementAfterIndex(element, idx, it.elementsTraversed - if where == AFTER then 0 else 1);
    }
  }

  method LInsert(q: DequeBasic, pivot: Str, element: Str, where: string) returns (reply: InsertReply)
    requires q.Valid() && Encodable(element)
    modifies q, q.arr
    ensures q.Valid()
    ensures reply == old(ReplyOf(q.Contents(), pivot, where))
    ensures q.Contents() == old(Inserted(q.Contents(), pivot, Canon(element), where))
    ensures q.arr == old(q.arr) || fresh(q.arr)
  {
    hide Cell.Stored, Cell.Bytes, Bytes, AllClean, Canon, Encodable, IndexOf, Inserted, ReplyOf;
    if pivot !in q.Contents() || (where != BEFORE && where != AFTER) {
      NotInserted(q.Contents(), pivot, Canon(element), where);
    }
    if q.Length == 0 {
      return InsertReply(-1, false);
    }
    if where != BEFORE && where != AFTER {
      return InsertReply(-1, true);
    }
    ghost var values := q.Contents();
    var it := new DequeBasicIterator(q);
    var hasNext := it.HasNext();
    while hasNext
      invariant it.Valid() && it.deque == q && fresh(it) && q.arr == old(q.arr)
      invariant q.Contents() == values && hasNext == it.HasNext()
      invariant 0 <= it.elementsTraversed <= |values| && pivot !in values[..it.elementsTraversed]
      decreases |values| - it.elementsTraversed
    {
      ghost var i := it.elementsTraversed;
      var pivotIndexStart := it.bufIndex;
      var x := it.Next();
      assert values[..i + 1] == values[..i] + [x.value];
      if x.value == pivot {
        InsertedAt(values, pivot, Canon(element), where, i);
        InsertBeforeAfterPivot(q, element, where, pivotIndexStart, it);
        return InsertReply(q.Length, false);
      }
      hasNext := it.HasNext();
    }
    assert values[..|values|] == values;
    return InsertReply(-1, false);
  }
}
