/** Runs of entries in a buffer: read forward one by one, or from the right end. */
module Cells {
  import opened Bits
  import opened Varint
  import opened Decimal
  import opened EntryCodec
  import opened EntryDecode

  /** A stored element: its decoded value, and the pad byte of its backlen (0 where there is none). */
  datatype Cell = Cell(x: Str, pad: byte) {
    /** What the encoder can produce. */
    ghost predicate Stored() {
      && Encodable(x)
      && Canon(x) == x
      && pad < 128
      && (!Padded(|EntryData(x)|) ==> pad == 0)
    }

    /** What Deque can hold: its size function is wrong for long numbers. */
    ghost predicate Ok() {
      Stored() && !LongNumber(x)
    }

    ghost function Bytes(): (s: Str)
      ensures 2 <= |s|
    {
      Entry(x, pad)
    }
  }

  lemma OkStored(c: Cell)
    requires c.Ok()
    ensures c.Stored()
  {
  }

  ghost predicate AllStored(cells: seq<Cell>) {
    forall i :: 0 <= i < |cells| ==> cells[i].Stored()
  }

  ghost predicate AllOk(cells: seq<Cell>) {
    forall i :: 0 <= i < |cells| ==> cells[i].Ok()
  }

  ghost function Bytes(cells: seq<Cell>): Str {
    if cells == [] then [] else cells[0].Bytes() + Bytes(cells[1..])
  }

  ghost function Values(cells: seq<Cell>): (s: seq<Str>)
    ensures |s| == |cells|
    ensures forall i :: 0 <= i < |cells| ==> s[i] == cells[i].x
  {
    seq(|cells|, i requires 0 <= i < |cells| => cells[i].x)
  }

  lemma ValuesInserted(cells: seq<Cell>, i: nat, c: Cell)
    requires i <= |cells|
    ensures Values(cells[..i] + [c] + cells[i..]) == Values(cells)[..i] + [c.x] + Values(cells)[i..]
  {
  }

  lemma {:induction false} BytesConcat(a: seq<Cell>, b: seq<Cell>)
    ensures Bytes(a + b) == Bytes(a) + Bytes(b)
  {
    if a == [] {
      assert a + b == b;
    } else {
      assert (a + b)[1..] == a[1..] + b;
      BytesConcat(a[1..], b);
    }
  }

  lemma BytesOne(c: Cell)
    ensures Bytes([c]) == c.Bytes()
  {
    assert Bytes([c][1..]) == [];
  }

  lemma BytesEmpty(cells: seq<Cell>)
    ensures Bytes(cells) == [] <==> cells == []
  {
  }

  // ---------- runs split over several buffers ----------

  ghost function Flatten(chunks: seq<seq<Cell>>): seq<Cell> {
    if chunks == [] then [] else chunks[0] + Flatten(chunks[1..])
  }

  lemma {:induction false} FlattenConcat(a: seq<seq<Cell>>, b: seq<seq<Cell>>)
    ensures Flatten(a + b) == Flatten(a) + Flatten(b)
  {
    if a == [] {
      assert a + b == b;
    } else {
      assert (a + b)[1..] == a[1..] + b;
      FlattenConcat(a[1..], b);
    }
  }

  lemma FlattenOne(c: seq<Cell>)
    ensures Flatten([c]) == c
  {
    assert Flatten([c][1..]) == [];
  }

  lemma SplitAt<T>(s: seq<T>, k: nat)
    requires k < |s|
    ensures s == s[..k] + [s[k]] + s[k + 1..]
  {
  }

  lemma FlattenSplit(chunks: seq<seq<Cell>>, k: nat)
    requires k < |chunks|
    ensures Flatten(chunks) == Flatten(chunks[..k]) + chunks[k] + Flatten(chunks[k + 1..])
  {
    hide Flatten;
    var a, c, b := chunks[..k], chunks[k], chunks[k + 1..];
    SplitAt(chunks, k);
    FlattenConcat(a + [c], b);
    FlattenLast(a, c);
  }

  lemma FlattenLast(front: seq<seq<Cell>>, last: seq<Cell>)
    ensures Flatten(front + [last]) == Flatten(front) + last
  {
    FlattenConcat(front, [last]);
    FlattenOne(last);
  }

  lemma FlattenFirst(first: seq<Cell>, rest: seq<seq<Cell>>)
    ensures Flatten([first] + rest) == first + Flatten(rest)
  {
    assert ([first] + rest)[1..] == rest;
  }

  // ---------- what is stored ----------

  /** The element that an encoding of x stands for is encoded the same way, and stands for itself. */
  lemma CanonStable(x: Str)
    requires Encodable(x)
    ensures Canon(Canon(x)) == Canon(x) && EntryData(Canon(x)) == EntryData(x)
    ensures Encodable(Canon(x)) && (LongNumber(Canon(x)) <==> LongNumber(x))
  {
    if StoredAsInt(x) {
      var v := ParseInt(x).value;
      ParseFormat(v);
      FormatLength(v);
    }
  }

  /** Encoding x stores a well-formed cell. */
  lemma StoreOk(x: Str, pad: byte)
    requires Encodable(x)
    requires pad < 128 && (!Padded(|EntryData(x)|) ==> pad == 0)
    ensures var c := Cell(Canon(x), pad);
            c.Stored() && (!LongNumber(x) ==> c.Ok()) && c.Bytes() == Entry(x, pad)
  {
    hide EntryData, Canon;
    CanonStable(x);
  }

  /** An element survives encoding and decoding exactly when its length fits 32 bits and
      it is not a number written in a non-canonical way. */
  lemma RoundTrip(x: Str, suffix: Str)
    ensures var xb := EntryData(x) + suffix;
            && Decodable(xb)
            && (DecodeDeqEntry(xb).0 == x <==> Encodable(x) && (StoredAsInt(x) ==> CanonicalDecimal(x)))
  {
    hide DecodeDeqEntry, Decodable, IntData, StrHeader, FormatInt;
    if Encodable(x) {
      DecodeEntry(x, suffix);
      if StoredAsInt(x) {
        FormatParse(x);
      }
    } else {
      DecodeStr32(x, suffix);
    }
  }

  // ---------- forward ----------

  /** Decoding at the front of a run gives its first element and that entry's length. */
  lemma DecodeFirst(c: Cell, rest: Str)
    requires c.Stored()
    ensures var xb := c.Bytes() + rest;
            Decodable(xb) && DecodeDeqEntry(xb) == (c.x, |c.Bytes()|)
  {
    hide DecodeDeqEntry, Decodable, EntryData, Canon, Backlen;
    var tail := Backlen(|EntryData(c.x)|, c.pad) + rest;
    assert c.Bytes() + rest == EntryData(c.x) + tail;
    DecodeEntry(c.x, tail);
    BacklenFits(c);
  }

  lemma BacklenFits(c: Cell)
    requires c.Stored()
    ensures |Backlen(|EntryData(c.x)|, c.pad)| == GetEncodeUIntSize(|EntryData(c.x)|)
    ensures |EntryData(c.x)| < 0x8_0000_0000
  {
    hide Backlen, ParseInt;
    assert |EntryData(c.x)| <= |c.x| + 9;
    BacklenLength(|EntryData(c.x)|, c.pad);
  }

  lemma SizeFits(c: Cell)
    requires c.Ok()
    ensures |c.Bytes()| == GetEncodeDeqEntrySize(c.x)
  {
    hide EntryData, Backlen, ParseInt;
    SizeIsLength(c.x, c.pad);
  }

  /** A buffer determines the elements it holds. */
  lemma {:induction false} BytesInjective(a: seq<Cell>, b: seq<Cell>)
    requires AllStored(a) && AllStored(b)
    requires Bytes(a) == Bytes(b)
    ensures Values(a) == Values(b)
    decreases |a|
  {
    hide DecodeDeqEntry, Decodable, Canon, EntryData, Entry;
    BytesEmpty(a);
    BytesEmpty(b);
    if a != [] {
      FirstByDecoding(a);
      FirstByDecoding(b);
      BytesInjective(a[1..], b[1..]);
    }
  }

  lemma FirstByDecoding(a: seq<Cell>)
    requires AllStored(a) && a != []
    ensures Decodable(Bytes(a))
    ensures var (x, n) := DecodeDeqEntry(Bytes(a));
            n <= |Bytes(a)| && Bytes(a)[n..] == Bytes(a[1..]) && Values(a) == [x] + Values(a[1..])
  {
    hide DecodeDeqEntry, Decodable, Cell.Stored, Cell.Bytes;
    DecodeFirst(a[0], Bytes(a[1..]));
    var n := |a[0].Bytes()|;
    assert Bytes(a)[n..] == Bytes(a[1..]);
    assert Values(a) == [a[0].x] + Values(a[1..]);
  }

  // ---------- backward ----------

  /** The bytes of a backlen: the first without its high bit, all others with it. */
  lemma BacklenShape(n: nat, pad: byte)
    requires pad < 128
    ensures var b := Backlen(n, pad); b[0] < 128 && forall i :: 0 < i < |b| ==> 128 <= b[i]
  {
    VarintShape(n);
    ContMarked(n);
  }

  lemma {:induction false} ContMarked(n: nat)
    ensures forall i :: 0 <= i < |ContBytes(n)| ==> 128 <= ContBytes(n)[i]
  {
    if n >= 128 {
      ContMarked(n / 128);
    }
  }

  lemma {:induction false} ReverseTwice(s: Str)
    ensures Reverse(Reverse(s)) == s
  {
  }

  lemma {:induction false} ContValue(n: nat)
    ensures VarintValue(ContBytes(n)) == n
  {
    hide VarintValue;
    if n < 128 {
      ValueCons(n + 128, []);
      assert ContBytes(n) == [n + 128] + [];
      ValueEmpty();
    } else {
      ContValue(n / 128);
      ValueCons(n % 128 + 128, ContBytes(n / 128));
    }
  }

  /** The backlen reads back as the length it was made from exactly when its pad byte is zero. */
  lemma BacklenValue(n: nat, pad: byte)
    requires n < 0x8_0000_0000 && pad < 128
    requires !Padded(n) ==> pad == 0
    ensures VarintValue(Reverse(Backlen(n, pad))) % TWO64 == n <==> pad == 0
  {
    hide ContBytes, VarintBytes, VarintValue, Reverse, Pow2;
    if Padded(n) {
      PaddedValue(n, pad);
      SizeExact(n);
      VarintShape(n);
      PadWeight(pad, |ContBytes(n)|);
    } else {
      assert Backlen(n, pad) == Reverse(VarintBytes(n));
      ReverseTwice(VarintBytes(n));
      VarintRoundTrip(n);
    }
  }

  lemma PaddedValue(n: nat, pad: byte)
    requires Padded(n) && pad < 128
    ensures VarintValue(Reverse(Backlen(n, pad))) == n + pad * Pow2(7 * |ContBytes(n)|)
  {
    hide ContBytes, VarintBytes, VarintValue, Shl, Pow2;
    var c := ContBytes(n);
    assert Reverse(Backlen(n, pad)) == c + [pad];
    ValueSnoc(c, pad);
    ContValue(n);
    ShlMul(pad, 7 * |c|);
  }

  lemma ValueSnoc(s: Str, b: byte)
    ensures VarintValue(s + [b]) == VarintValue(s) + Shl(b % 128, 7 * |s|)
  {
    assert (s + [b])[..|s|] == s;
  }

  lemma PadWeight(pad: byte, k: nat)
    requires pad < 128 && 2 <= k <= 4
    ensures pad == 0 ==> pad * Pow2(7 * k) == 0
    ensures pad > 0 ==> 0 < pad * Pow2(7 * k) < 0x8_0000_0000_0000
  {
    assert Pow2(14) == 0x4000;
    Pow2Mono(7 * k, 28);
    Pow2Values();
    var p := Pow2(7 * k);
    if pad > 0 {
      assert p <= pad * p <= 128 * p;
    }
  }

  /** Steps back from the end over the bytes with the high bit set. */
  method ScanBack(buf: Str, ghost start: nat) returns (i: nat)
    requires start < |buf| && buf[start] < 128
    requires forall k :: start < k < |buf| ==> 128 <= buf[k]
    ensures i == start
  {
    hide And;
    i := |buf| - 1;
    Tags(buf[i]);
    while And(buf[i], 0x80) != 0
      invariant start <= i < |buf|
      invariant And(buf[i], 0x80) == 0 <==> buf[i] < 0x80
      decreases i
    {
      i := i - 1;
      Tags(buf[i]);
    }
  }

  /** Where the last entry of a buffer starts, read from the right: back over the bytes with
      the high bit set, then the backlen.  It is where the entry starts exactly when its pad
      byte is clean.  front and last say what the buffer holds. */
  method LastStart(buf: Str, ghost front: Str, ghost last: Cell) returns (backlenStart: nat, entryStart: int)
    requires last.Stored() && buf == front + last.Bytes()
    ensures backlenStart == |front| + |EntryData(last.x)| < |buf|
    ensures entryStart == |front| <==> last.pad == 0
  {
    hide DecodeDeqEntry, Decodable, EntryData, Canon, Backlen, VarintValue;
    ghost var data := EntryData(last.x);
    ghost var back := Backlen(|data|, last.pad);
    ghost var start := |front| + |data|;
    BacklenShape(|data|, last.pad);
    assert buf[start..] == back;
    assert forall k :: start <= k < |buf| ==> buf[k] == back[k - start];
    backlenStart := ScanBack(buf, start);
    var backlen := DecodeUIntRev(buf[backlenStart..]);
    BacklenFits(last);
    BacklenValue(|data|, last.pad);
    entryStart := backlenStart - backlen;
  }

  /** Reads the last entry of a buffer, from the right. */
  method ParseLast(buf: Str, ghost front: Str, ghost last: Cell) returns (x: Str, entryStart: nat)
    requires last.Stored() && last.pad == 0
    requires buf == front + last.Bytes()
    ensures entryStart == |front| && x == last.x
  {
    hide DecodeDeqEntry, Decodable, EntryData, Canon, Backlen;
    var backlenStart, start := LastStart(buf, front, last);
    entryStart := start;
    assert buf[entryStart..backlenStart] == EntryData(last.x) + [];
    DecodeEntry(last.x, []);
    x := DecodeDeqEntry(buf[entryStart..backlenStart]).0;
  }
}
