/** The two states in which the deque goes wrong, each reached from the empty deque: a push to
    the front that asks for too little capacity, and a last entry with a dirty pad byte. */
module DequeLimits {
  import opened Options
  import opened Varint
  import opened Decimal
  import opened EntryCodec
  import opened Cells
  import opened ByteLists
  import opened Deques

  /** A string of n letters, which is no number. */
  function Letters(n: nat): (x: Str)
    ensures |x| == n
  {
    seq(n, i => 97)
  }

  lemma LettersStored(n: nat)
    requires n < 0x1_0000_0000
    ensures var x := Letters(n);
            && Encodable(x) && !LongNumber(x) && !StoredAsInt(x) && Canon(x) == x
            && EntryData(x) == StrHeader(n) + x
            && GetEncodeDeqEntrySize(x) == |StrHeader(n)| + n + GetEncodeUIntSize(|StrHeader(n)| + n)
  {
    hide StrHeader;
    var x := Letters(n);
    assert ParseInt(x) == None by {
      if n > 0 {
        assert x[0] == 97;
      }
    }
  }

  /** "" pushed to the front, and then a longer string: both share a buffer without a free left part. */
  method PushTwo(x: Str) returns (q: Deque, ghost c: Cell, ghost c0: Cell)
    requires Encodable(x) && !LongNumber(x) && MIN_DEQUE_NODE_SIZE < GetEncodeDeqEntrySize(x)
    ensures fresh(q) && fresh(q.list) && q.Valid() && q.leftIdx == 0
    ensures q.chunks == [[c, c0]] && c.Ok() && c.x == Canon(x) && c.pad == 0 && c0.Ok() && c0.x == Letters(0)
    ensures forall i :: 0 <= i < |q.list.nodes| ==> fresh(q.list.nodes[i])
    ensures forall a :: a in ArraysOf(q.list.nodes) ==> fresh(a)
  {
    hide GetEncodeDeqEntrySize, Canon, EntryData, LongNumber, Encodable, Cell.Ok, Cell.Bytes, ArraysOf, Deque.Valid,
         Deque.Shape, Deque.Contents;
    q := new Deque();
    NoArrays();
    LettersStored(0);
    EmptySize();
    ShapeOf(q);
    var ok;
    ok, c0 := q.LPush(Letters(0));
    assert forall i :: 0 <= i < |q.list.nodes| ==> q.list.nodes[i] in q.list.nodes;
    ShapeOf(q);
    ghost var was := q.list.nodes;
    HeadIs(q);
    Roomy(q, x);
    ok, c := q.LPush(x);
    assert [c] + [c0] == [c, c0];
    forall i | 0 <= i < |q.list.nodes|
      ensures fresh(q.list.nodes[i])
    {
      assert q.list.nodes[i] in q.list.nodes;
      assert q.list.nodes[i] in was ==> exists j :: 0 <= j < |was| && was[j] == q.list.nodes[i];
    }
  }

  lemma NoArrays()
    ensures ArraysOf([]) == {}
  {
  }

  lemma EmptySize()
    ensures GetEncodeDeqEntrySize(Letters(0)) == 2
  {
    LettersStored(0);
  }

  lemma ShapeOf(q: Deque)
    requires q.Valid()
    ensures q.Shape()
  {
  }

  lemma HeadIs(q: Deque)
    requires q.Shape()
    ensures q.list.head != null ==> q.list.head.InBounds() && q.leftIdx <= q.list.head.len
    ensures q.list.head == null ==> q.leftIdx == 0
  {
    var first, back, rest := q.FirstNode();
  }

  /** A push that finds too little room on the left leaves a clean pad. */
  lemma Roomy(q: Deque, x: Str)
    requires Encodable(x) && !LongNumber(x)
    requires q.list.head != null ==> q.list.head.InBounds() && q.leftIdx <= q.list.head.len
    requires q.list.head == null ==> q.leftIdx == 0
    requires q.leftIdx < GetEncodeDeqEntrySize(x)
    ensures q.LeftPad(x) == 0
  {
  }

  lemma Sizes()
    ensures GetEncodeDeqEntrySize(Letters(300)) == 304 && GetEncodeDeqEntrySize(Letters(400)) == 404
    ensures GetEncodeDeqEntrySize(Letters(20000)) == 20008 && |EntryData(Letters(20000))| == 20005
    ensures GetEncodeDeqEntrySize(Letters(16378)) == 16386 && |EntryData(Letters(16378))| == 16383
  {
    hide StrHeader, EntryData, GetEncodeDeqEntrySize;
    LettersStored(300);
    LettersStored(400);
    LettersStored(20000);
    LettersStored(16378);
  }

  /** A run of pushes and pops from the empty deque after which pushing 400 bytes to the front
      asks for a capacity of 356 for 404 bytes. */
  method FrontTooSmall() returns (q: Deque, x: Str)
    ensures fresh(q) && q.Valid() && q.leftIdx == 304
    ensures Encodable(x) && !LongNumber(x) && GetEncodeDeqEntrySize(x) == 404 && !q.LPushFits(x)
  {
    hide GetEncodeDeqEntrySize, Canon, EntryData, LongNumber, Encodable, Cell.Ok, Cell.Bytes, ArraysOf, Deque.Valid,
         Deque.Shape, StrHeader;
    Sizes();
    LettersStored(300);
    LettersStored(400);
    ghost var c, c0;
    q, c, c0 := PushTwo(Letters(300));
    TwoCells(c, c0);
    SizeFits(c);
    var y := q.LPop();
    x := Letters(400);
  }

  lemma TwoCells(c: Cell, c0: Cell)
    ensures Flatten([[c, c0]]) == [c, c0]
  {
    FlattenOne([c, c0]);
  }

  /** What the only buffer holds. */
  lemma BufIs(q: Deque, c: Cell, c0: Cell)
    requires q.Valid() && q.chunks == [[c, c0]] && q.leftIdx == 0
    ensures q.list.head != null && q.list.head.InBounds()
    ensures |c.Bytes()| <= q.list.head.len && q.list.head.Buf()[..|c.Bytes()|] == c.Bytes()
  {
    hide ByteListNode.Holds, Cell.Bytes, Cell.Ok;
    var first, back, rest := q.FirstNode();
    HoldsBytes(q.list.head, 0, first);
    assert first == [c, c0] && first[1..] == [c0];
    assert q.list.head.Buf()[0..] == c.Bytes() + Bytes([c0]);
    assert q.list.head.Buf()[..|c.Bytes()|] == q.list.head.Buf()[0..][..|c.Bytes()|];
  }

  lemma EmptyClean(c: Cell)
    requires c.Ok() && c.x == Letters(0)
    ensures c.pad == 0
  {
    hide StrHeader;
    LettersStored(0);
  }

  /** The third byte of the entry's reversed length is what stays as the pad. */
  lemma StaleByte(c: Cell)
    requires c == Cell(Letters(20000), 0)
    ensures |c.Bytes()| == 20008 && c.Bytes()[20005] == 1
  {
    hide EntryData, Backlen, GetEncodeDeqEntrySize, LongNumber, Encodable, Canon;
    Sizes();
    LettersStored(20000);
    StoreOk(Letters(20000), 0);
    SizeFits(c);
    assert c.Bytes() == EntryData(c.x) + Backlen(20005, 0);
    FirstOfBacklen();
  }

  lemma FirstOfBacklen()
    ensures Backlen(20005, 0)[0] == 1
  {
    hide Reverse;
    assert VarintBytes(1) == [1];
    assert VarintBytes(156) == [156] + VarintBytes(1);
    assert VarintBytes(20005) == [165] + VarintBytes(156);
    assert |VarintBytes(20005)| == 3 && VarintBytes(20005)[2] == 1;
  }

  /** An entry of boundary length written over such a stale entry gets a pad of 1. */
  lemma PadOverStale(q: Deque, c: Cell)
    requires c == Cell(Letters(20000), 0)
    requires q.list.head != null && q.list.head.InBounds()
    requires q.leftIdx == 20008 <= q.list.head.len && q.list.head.Buf()[..20008] == c.Bytes()
    ensures Encodable(Letters(16378)) && !LongNumber(Letters(16378))
    ensures q.LeftPad(Letters(16378)) == 1
  {
    hide EntryData, GetEncodeDeqEntrySize, Cell.Bytes, StrHeader, LongNumber, Encodable, Letters, Canon, StoredAsInt,
         ParseInt;
    Sizes();
    StaleByte(c);
    LettersStored(16378);
    var head, x := q.list.head, Letters(16378);
    var was := head.arr[head.off + 20008 - 16386..head.off + 20008];
    assert was[16383] == head.Buf()[20005] == head.Buf()[..20008][20005] == 1;
    assert Padded(16383);
  }

  /** A run of pushes and pops from the empty deque that leaves one element, whose pad is not
      clean: the next pop from the right does not find its start. */
  method DirtyLast() returns (q: Deque, ghost last: Cell)
    ensures fresh(q) && q.Valid() && q.Contents() == [last]
    ensures last.Ok() && last.x == Letters(16378) && last.pad == 1
  {
    hide GetEncodeDeqEntrySize, Canon, EntryData, LongNumber, Encodable, Cell.Ok, Cell.Bytes, ArraysOf, Deque.Valid,
         Deque.Shape, StrHeader, Deque.LeftPad, Bytes, SparePushedLeft, SparePoppedLeft, SparePoppedRight, PoppedRight,
         SpareOf, Letters;
    Sizes();
    LettersStored(20000);
    LettersStored(16378);
    ghost var c, c0;
    q, c, c0 := PushTwo(Letters(20000));
    TwoCells(c, c0);
    SizeFits(c);
    BufIs(q, c, c0);
    ghost var was := q.list.nodes;
    var y := q.LPop();
    forall i | 0 <= i < |q.list.nodes|
      ensures fresh(q.list.nodes[i])
    {
      assert q.list.nodes[i] in q.list.nodes;
      assert exists j :: 0 <= j < |was| && was[j] == q.list.nodes[i];
    }
    PadOverStale(q, c);
    ShapeOf(q);
    was := q.list.nodes;
    var ok;
    ok, last := q.LPush(Letters(16378));
    forall i | 0 <= i < |q.list.nodes|
      ensures fresh(q.list.nodes[i])
    {
      assert q.list.nodes[i] in q.list.nodes;
      assert q.list.nodes[i] in was ==> exists j :: 0 <= j < |was| && was[j] == q.list.nodes[i];
    }
    EmptyClean(c0);
    TwoCells(last, c0);
    assert [last] + [c0] == [last, c0];
    y := q.RPop();
  }
}
