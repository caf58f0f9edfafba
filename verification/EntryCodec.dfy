/** The list entries of internal/eval/deque.go: a tag-prefixed string or integer,
    followed by the length of what precedes, as a varint written backwards. */
module EntryCodec {
  import opened Bits
  import opened Varint
  import opened Decimal

  // ---------- specification ----------

  /** The k low bytes of v, low byte first. */
  function LittleEndian(v: int, k: nat): (s: Str)
    ensures |s| == k
  {
    if k == 0 then [] else LittleEndian(v, k - 1) + [Shr(v, 8 * (k - 1)) % 256]
  }

  /** The header of a string of n bytes. */
  function StrHeader(n: nat): (s: Str)
    ensures |s| == if n <= 63 then 1 else if n <= 4095 then 2 else 5
  {
    if n <= 63 then
      TagBits(n, 2, 6);
      [Or(0x80, n)]
    else if n <= 4095 then
      TagBits(n / 256, 14, 4);
      [Or(0xE0, n / 256), n % 256]
    else
      [0xF0] + LittleEndian(n, 4)
  }

  /** The tag and payload of an integer: the shortest of six forms. */
  function IntData(v: int): (s: Str)
    ensures |s| == IntDataSize(v)
  {
    if 0 <= v <= 127 then
      [v]
    else if -4096 <= v <= 4095 then
      Int13Bits(v);
      [Or(0xC0, And(Word(Shr(v, 8)), 0x1F)), v % 256]
    else if -32768 <= v <= 32767 then
      [0xF1] + LittleEndian(v, 2)
    else if -8388608 <= v <= 8388607 then
      [0xF2] + LittleEndian(v, 3)
    else if -2147483648 <= v <= 2147483647 then
      [0xF3] + LittleEndian(v, 4)
    else
      [0xF4] + LittleEndian(v, 8)
  }

  function IntDataSize(v: int): nat {
    if 0 <= v <= 127 then 1
    else if -4096 <= v <= 4095 then 2
    else if -32768 <= v <= 32767 then 3
    else if -8388608 <= v <= 8388607 then 4
    else if -2147483648 <= v <= 2147483647 then 5
    else 9
  }

  /** Whether x is stored in one of the integer forms. */
  predicate StoredAsInt(x: Str) {
    |x| < 21 && ParseInt(x).Some?
  }

  /** Numbers too long for the integer forms; the size function takes them for integers. */
  predicate LongNumber(x: Str) {
    21 <= |x| && ParseInt(x).Some?
  }

  /** The longest string the 32-bit length can hold. */
  predicate Encodable(x: Str) {
    |x| < 0x1_0000_0000
  }

  /** [enc + data] */
  function EntryData(x: Str): (s: Str)
    ensures 1 <= |s|
  {
    if StoredAsInt(x) then IntData(ParseInt(x).value) else StrHeader(|x|) + x
  }

  /** [backlen]: the varint of n backwards.  Where the reserved size exceeds the
      varint's by one, a pad byte stands in front and every group keeps its
      continuation bit. */
  function Backlen(n: nat, pad: byte): (s: Str)
    ensures 1 <= |s|
  {
    if Padded(n) then [pad] + Reverse(ContBytes(n)) else Reverse(VarintBytes(n))
  }

  /** [enc + data + backlen] */
  function Entry(x: Str, pad: byte): (s: Str)
    ensures 2 <= |s|
  {
    EntryData(x) + Backlen(|EntryData(x)|, pad)
  }

  /** What an entry made from x decodes to. */
  function Canon(x: Str): Str {
    if StoredAsInt(x) then FormatInt(ParseInt(x).value) else x
  }

  // ---------- bit facts the definitions rest on ----------

  /** A payload of n bits under a tag that uses the bits above. */
  lemma TagBits(p: nat, tag: nat, n: nat)
    requires p < Pow2(n) && n <= 8
    ensures Or(Shl(tag, n), p) == Shl(tag, n) + p
  {
    OrDisjoint(p, tag, n);
  }

  lemma Int13Bits(v: int)
    requires -4096 <= v <= 4095
    ensures And(Word(Shr(v, 8)), 0x1F) == v / 256 % 32
    ensures Or(0xC0, And(Word(Shr(v, 8)), 0x1F)) == 0xC0 + v / 256 % 32
  {
    hide And, Or, Shr, Word;
    ShrEight(v);
    FiveBits(v / 256);
    TagFiveBits(v / 256 % 32);
  }

  lemma ShrEight(v: int)
    ensures Shr(v, 8) == v / 256
  {
  }

  lemma FiveBits(q: int)
    requires -16 <= q <= 15
    ensures And(Word(q), 0x1F) == q % 32
  {
    hide And, Word;
    LowFive(Word(q));
    WordLow(q);
  }

  lemma LowFive(w: nat)
    ensures And(w, 0x1F) == w % 32
  {
    hide And;
    LowMask(w, 5);
    ByteShr(w);
  }

  lemma WordLow(q: int)
    requires -16 <= q <= 15
    ensures Word(q) % 32 == q % 32
  {
    if q < 0 {
      assert Word(q) == TWO64 + q;
      assert (TWO64 + q) % 32 == (q + 32) % 32;
    }
  }

  lemma TagFiveBits(p: nat)
    requires p < 32
    ensures Or(0xC0, p) == 0xC0 + p
  {
    hide Or;
    TagBits(p, 6, 5);
  }

  // ---------- sizes ----------

  function GetEncodeDeqStrSize(x: Str): nat {
    var strLen := |x|;
    var enclen := if strLen <= 63 then 1 else if strLen <= 4095 then 2 else 5;
    enclen + strLen + GetEncodeUIntSize(enclen + strLen)
  }

  function GetEncodeDeqIntSize(v: int): nat {
    if 0 <= v <= 127 then 2
    else if -4096 <= v <= 4095 then 3
    else if -32768 <= v <= 32767 then 4
    else if -8388608 <= v <= 8388607 then 5
    else if -2147483648 <= v <= 2147483647 then 6
    else 10
  }

  function GetEncodeDeqEntrySize(x: Str): nat {
    var v := ParseInt(x);
    if v.None? then GetEncodeDeqStrSize(x) else GetEncodeDeqIntSize(v.value)
  }

  // ---------- encoding ----------

  /** What EncodeUIntRevInPlace writes into the reserved bytes is the backlen, the pad
      being what the first of them held, without its high bit. */
  lemma BacklenInPlace(n: nat, was: Str)
    requires n < 0x8_0000_0000 && |was| == GetEncodeUIntSize(n)
    ensures |ContBytes(n)| <= |was|
    ensures RevInPlace(n, was) == Backlen(n, if Padded(n) then was[0] % 128 else 0)
  {
    hide ContBytes, VarintBytes, GetEncodeUIntSize, Backlen, RevInPlace, Padded, Reverse;
    SizeExact(n);
    VarintShape(n);
    if Padded(n) {
      BacklenPadded(n, was);
    } else {
      BacklenExact(n, was);
    }
  }

  lemma BacklenPadded(n: nat, was: Str)
    requires Padded(n) && |was| == |ContBytes(n)| + 1
    ensures RevInPlace(n, was) == Backlen(n, was[0] % 128)
  {
    hide ContBytes, VarintBytes, Padded, Reverse;
    var c := Reverse(ContBytes(n));
    assert was[..1] + c == [was[0]] + c;
  }

  lemma BacklenExact(n: nat, was: Str)
    requires !Padded(n) && |was| == |ContBytes(n)|
    ensures RevInPlace(n, was) == Backlen(n, 0)
  {
    hide ContBytes, VarintBytes, Padded, Reverse;
    ClearLast(n);
    var c := Reverse(ContBytes(n));
    assert was[..0] + c == c;
  }

  lemma BacklenLength(n: nat, pad: byte)
    ensures n < 0x8_0000_0000 <==> |Backlen(n, pad)| == GetEncodeUIntSize(n)
  {
    SizeExact(n);
    VarintShape(n);
  }

  /** Writes the header of a string of n bytes at position lo. */
  method WriteStrHeader(n: nat, buf: array<byte>, lo: nat) returns (enclen: nat)
    requires n < 0x1_0000_0000
    requires lo + |StrHeader(n)| <= buf.Length
    modifies buf
    ensures enclen == |StrHeader(n)|
    ensures buf[..lo] == old(buf[..lo])
    ensures buf[lo..lo + enclen] == StrHeader(n)
    ensures buf[lo + enclen..] == old(buf[lo + enclen..])
  {
    hide Or, Shr;
    if n <= 63 {
      TagBits(n, 2, 6);
      enclen := 1;
      buf[lo] := Or(0x80, n);
    } else if n <= 4095 {
      TagBits(n / 256, 14, 4);
      enclen := 2;
      buf[lo], buf[lo + 1] := Or(0xE0, n / 256), n % 256;
    } else {
      enclen := 5;
      buf[lo] := 0xF0;
      buf[lo + 1], buf[lo + 2] := Shr(n, 0) % 256, Shr(n, 8) % 256;
      buf[lo + 3], buf[lo + 4] := Shr(n, 16) % 256, Shr(n, 24) % 256;
      forall i | 0 <= i < 4 {
        LittleEndianAt(n, 4, i);
      }
    }
  }

  lemma {:induction false} LittleEndianAt(v: int, k: nat, i: nat)
    requires i < k
    ensures LittleEndian(v, k)[i] == Shr(v, 8 * i) % 256
  {
    if i < k - 1 {
      LittleEndianAt(v, k - 1, i);
    }
  }

  /** Writes the header and the bytes of x at position lo. */
  method WriteStrData(x: Str, buf: array<byte>, lo: nat) returns (mid: nat)
    requires Encodable(x)
    requires lo + |StrHeader(|x|)| + |x| <= buf.Length
    modifies buf
    ensures mid == lo + |StrHeader(|x|)| + |x|
    ensures buf[..lo] == old(buf[..lo])
    ensures buf[lo..mid] == StrHeader(|x|) + x
    ensures buf[mid..] == old(buf[mid..])
  {
    hide Or, LittleEndian, StrHeader;
    var enclen := WriteStrHeader(|x|, buf, lo);
    mid := lo + enclen + |x|;
    assert buf[mid..] == buf[lo + enclen..][|x|..] == old(buf[lo + enclen..])[|x|..] == old(buf[mid..]);
    ghost var header := buf[lo..lo + enclen];
    forall i | 0 <= i < |x| {
      buf[lo + enclen + i] := x[i];
    }
    assert buf[lo..lo + enclen] == header;
    assert buf[lo + enclen..mid] == x;
    assert buf[lo..mid] == buf[lo..lo + enclen] + buf[lo + enclen..mid];
  }

  method EncodeDeqStrInPlace(x: Str, buf: array<byte>, lo: nat, hi: nat)
    requires Encodable(x)
    requires lo <= hi <= buf.Length && hi - lo == GetEncodeDeqStrSize(x)
    modifies buf
    ensures buf[..lo] == old(buf[..lo]) && buf[hi..] == old(buf[hi..])
    ensures var data := StrHeader(|x|) + x;
            buf[lo..hi] == data + Backlen(|data|, if Padded(|data|) then old(buf[lo + |data|]) % 128 else 0)
  {
    hide Or, LittleEndian, ContBytes, Backlen, RevInPlace, VarintBytes, StrHeader;
    var mid := WriteStrData(x, buf, lo);
    ghost var data := buf[lo..mid];
    assert buf[mid..hi] == buf[mid..][..hi - mid];
    BacklenInPlace(mid - lo, buf[mid..hi]);
    EncodeUIntRevInPlace(mid - lo, buf, mid, hi);
    assert buf[lo..mid] == buf[..mid][lo..] == data;
    assert buf[lo..hi] == buf[lo..mid] + buf[mid..hi];
  }

  method EncodeDeqStr(x: Str) returns (r: Str)
    requires Encodable(x)
    ensures var data := StrHeader(|x|) + x; r == data + Backlen(|data|, 0)
  {
    hide Or, LittleEndian, ContBytes, Backlen, RevInPlace, VarintBytes;
    var enclen := if |x| <= 63 then 1 else if |x| <= 4095 then 2 else 5;
    var backlen := enclen + |x|;
    var buf := new byte[backlen + GetEncodeUIntSize(backlen)](_ => 0);
    assert buf[backlen..][0] == 0;
    var mid := WriteStrData(x, buf, 0);
    ghost var data := buf[..mid];
    BacklenInPlace(backlen, buf[backlen..buf.Length]);
    EncodeUIntRevInPlace(backlen, buf, backlen, buf.Length);
    r := buf[..];
    assert r == buf[..backlen] + buf[backlen..buf.Length];
  }

  /** The integer forms: the last byte holds the number of bytes before it. */
  function EncodeDeqInt(v: int): (r: Str)
    ensures r == IntData(v) + Backlen(|IntData(v)|, 0)
    ensures |r| == GetEncodeDeqIntSize(v)
  {
    var n := |IntData(v)|;
    assert Reverse([n]) == [n];
    IntData(v) + [n]
  }

  method EncodeDeqIntInPlace(v: int, buf: array<byte>, lo: nat, hi: nat)
    requires lo <= hi <= buf.Length && hi - lo == GetEncodeDeqIntSize(v)
    modifies buf
    ensures buf[..lo] == old(buf[..lo]) && buf[hi..] == old(buf[hi..])
    ensures buf[lo..hi] == EncodeDeqInt(v)
  {
    hide Or, And, LittleEndian;
    var data := IntData(v);
    forall i | 0 <= i < |data| {
      buf[lo + i] := data[i];
    }
    buf[hi - 1] := hi - lo - 1;
    assert buf[lo..hi] == data + [hi - lo - 1];
  }

  method EncodeDeqEntry(x: Str) returns (r: Str)
    requires Encodable(x)
    ensures r == Entry(x, 0)
  {
    if |x| >= 21 {
      r := EncodeDeqStr(x);
    } else {
      var v := ParseInt(x);
      if v.None? {
        r := EncodeDeqStr(x);
      } else {
        r := EncodeDeqInt(v.value);
      }
    }
  }

  /** The pad byte that encoding x over the bytes `was` leaves. */
  function PadLeft(x: Str, was: Str): byte
    requires |EntryData(x)| < |was|
  {
    if Padded(|EntryData(x)|) then was[|EntryData(x)|] % 128 else 0
  }

  /** The form an entry takes, and its size; a LongNumber is too long for the size it gets. */
  lemma FormOf(x: Str)
    requires Encodable(x)
    ensures LongNumber(x) ==> GetEncodeDeqEntrySize(x) < |x|
    ensures !LongNumber(x) ==> |EntryData(x)| < GetEncodeDeqEntrySize(x)
    ensures !LongNumber(x) && !StoredAsInt(x) ==>
              && GetEncodeDeqEntrySize(x) == GetEncodeDeqStrSize(x) && |x| < GetEncodeDeqStrSize(x)
              && EntryData(x) == StrHeader(|x|) + x
    ensures StoredAsInt(x) ==>
              var v := ParseInt(x).value;
              && GetEncodeDeqEntrySize(x) == GetEncodeDeqIntSize(v)
              && EntryData(x) == IntData(v) && !Padded(|IntData(v)|)
  {
    hide Or, And, LittleEndian, Backlen, DigitsValue, StrHeader;
    SizeIsLength(x, 0);
  }

  /** False stands for the panic on a slice shorter than the encoding, which a LongNumber causes. */
  method EncodeDeqEntryInPlace(x: Str, buf: array<byte>, lo: nat, hi: nat) returns (ok: bool)
    requires Encodable(x)
    requires lo <= hi <= buf.Length && hi - lo == GetEncodeDeqEntrySize(x)
    modifies buf
    ensures ok <==> !LongNumber(x)
    ensures buf[..lo] == old(buf[..lo]) && buf[hi..] == old(buf[hi..])
    ensures ok ==> |EntryData(x)| < hi - lo && buf[lo..hi] == Entry(x, PadLeft(x, old(buf[lo..hi])))
  {
    hide GetEncodeDeqEntrySize, GetEncodeDeqStrSize, GetEncodeDeqIntSize, EntryData, Backlen, IntData, StrHeader,
         Padded, ParseInt;
    FormOf(x);
    ok := true;
    if |x| >= 21 {
      if hi - lo < |x| {
        return false;
      }
      EncodeDeqStrInPlace(x, buf, lo, hi);
    } else {
      var v := ParseInt(x);
      if v.None? {
        EncodeDeqStrInPlace(x, buf, lo, hi);
      } else {
        EncodeDeqIntInPlace(v.value, buf, lo, hi);
      }
    }
  }

  /** A numeral of fewer than 21 characters is stored as its number, and comes back without plus
      sign and leading zeros. */
  lemma CanonNumeral(sign: Str, z: nat, n: nat)
    requires IsSign(sign)
    requires var v := if sign == [45] then 0 - n else n; -0x8000_0000_0000_0000 <= v <= 0x7FFF_FFFF_FFFF_FFFF
    ensures var x := Numeral(sign, z, n);
            && (|x| < 21 ==> Canon(x) == (if sign == [45] && n > 0 then [45] else []) + Digits(n))
            && (21 <= |x| ==> LongNumber(x) && Canon(x) == x)
  {
    ParseNumeral(sign, z, n);
    assert [] + Digits(n) == Digits(n);
  }

  /** From 21 characters on, the size function reserves too little for it. */
  lemma NumeralTooLong(sign: Str, z: nat, n: nat)
    requires IsSign(sign)
    requires var v := if sign == [45] then 0 - n else n; -0x8000_0000_0000_0000 <= v <= 0x7FFF_FFFF_FFFF_FFFF
    ensures var x := Numeral(sign, z, n);
            21 <= |x| < 0x1_0000_0000 ==> GetEncodeDeqEntrySize(x) <= 10 < |x| < |Entry(x, 0)|
  {
    ParseNumeral(sign, z, n);
  }

  /** 0, written with n zeros: a number for the size function, and from 21 zeros on a string for
      the encoder, which the reserved 2 bytes do not hold. */
  lemma ZerosTooLong(n: nat)
    requires n < 0x1_0000_0000
    ensures var x := Zeros(n);
            && Encodable(x) && (LongNumber(x) <==> 21 <= n)
            && (21 <= n ==> GetEncodeDeqEntrySize(x) == 2 < n < |Entry(x, 0)|)
  {
    hide DigitsValue, ParseInt, Entry, GetEncodeDeqStrSize;
    if 21 <= n {
      assert Zeros(n) == Numeral([], n - 1, 0);
      ParseNumeral([], n - 1, 0);
      NumeralTooLong([], n - 1, 0);
    }
  }

  /** "+5" comes back as "5", and "007" as "7". */
  lemma NotCanonical()
    ensures Canon([43, 53]) == [53] && Canon([48, 48, 55]) == [55]
  {
    assert [43, 53] == Numeral([43], 0, 5) && [48, 48, 55] == Numeral([], 2, 7);
    CanonNumeral([43], 0, 5);
    CanonNumeral([], 2, 7);
  }

  /** GetEncodeDeqEntrySize is the length of the encoding, except for numbers of 21 or more characters. */
  lemma SizeIsLength(x: Str, pad: byte)
    requires Encodable(x)
    ensures GetEncodeDeqEntrySize(x) == |Entry(x, pad)| <==> !LongNumber(x)
  {
    hide Or, And, LittleEndian, Backlen, DigitsValue;
    BacklenLength(|EntryData(x)|, pad);
  }
}
