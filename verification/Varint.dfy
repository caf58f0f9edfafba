/** The variable-length integers of internal/dencoding/int.go: seven bits a byte,
    low bits first, the high bit of a byte saying that another byte follows. */
module Varint {
  import opened Bits

  const BITMASK: seq<byte> := [0x01, 0x03, 0x07, 0x0F, 0x1F, 0x3F, 0x7F, 0xFF]
  const BITSHIFTS: seq<nat> := [7, 7, 7, 7, 7, 7, 7, 7, 7, 1]

  // ---------- specification ----------

  /** The groups of x, every one with its continuation bit. */
  function ContBytes(x: nat): (s: seq<byte>)
    ensures 1 <= |s|
  {
    if x < 128 then [x + 128] else [x % 128 + 128] + ContBytes(x / 128)
  }

  /** The varint of x: the same groups, the continuation bit of the last one cleared. */
  function VarintBytes(x: nat): (s: seq<byte>)
    ensures 1 <= |s|
  {
    if x < 128 then [x] else [x % 128 + 128] + VarintBytes(x / 128)
  }

  /** The number that the low seven bits of the bytes spell, low group first. */
  function VarintValue(s: seq<byte>): nat {
    if s == [] then 0
    else VarintValue(s[..|s| - 1]) + Shl(s[|s| - 1] % 128, 7 * (|s| - 1))
  }

  function Reverse(s: seq<byte>): (r: seq<byte>)
    ensures |r| == |s|
    ensures forall i :: 0 <= i < |s| ==> r[i] == s[|s| - 1 - i]
  {
    if s == [] then [] else Reverse(s[1..]) + [s[0]]
  }

  /** The number of bytes the entry codec reserves for the varint of x. */
  function GetEncodeUIntSize(x: nat): nat {
    if x <= 127 then 1
    else if x < 16383 then 2
    else if x < 2097151 then 3
    else if x < 268435455 then 4
    else 5
  }

  /** The numbers for which one byte more is reserved than the varint has. */
  predicate Padded(x: nat) {
    x == 16383 || x == 2097151 || x == 268435455
  }

  // ---------- the program ----------

  function GetLsb(x: byte, n: nat): (r: byte)
    requires 1 <= n <= 8
    ensures r == Low(x, n)
  {
    AndLow(x, n);
    LowBound(x, n);
    Pow2Mono(n, 8);
    MaskIsPow2(n);
    And(x, BITMASK[n - 1])
  }

  lemma MaskIsPow2(n: nat)
    requires 1 <= n <= 8
    ensures BITMASK[n - 1] == Pow2(n) - 1
  {
    assert Pow2(1) == 2 && Pow2(2) == 4 && Pow2(3) == 8 && Pow2(4) == 16;
    assert Pow2(5) == 32 && Pow2(6) == 64 && Pow2(7) == 128 && Pow2(8) == 256;
  }

  /** Exceeds every number that still fits when k full groups and the one-bit group are left. */
  function GroupLimit(k: nat): nat {
    if k == 0 then 2 else 128 * GroupLimit(k - 1)
  }

  lemma WordLimit()
    ensures GroupLimit(9) == TWO64
  {
  }

  /** One group as the encoders write it: the low bits with the continuation bit set. */
  lemma Group(rest: nat, i: nat)
    requires i <= 9 && rest < GroupLimit(9 - i)
    ensures Or(GetLsb(rest % 256, BITSHIFTS[i]), 0x80) == rest % 128 + 128
    ensures Shr(rest, BITSHIFTS[i]) == rest / 128
    ensures i == 9 ==> rest < 2
    ensures i < 9 ==> rest / 128 < GroupLimit(9 - (i + 1))
  {
    hide Or, And, Low, Shr, GetLsb;
    if i == 9 {
      OneBit(rest);
    } else {
      FullGroup(rest);
    }
    MarkGroup(rest % 128);
  }

  lemma FullGroup(rest: nat)
    ensures GetLsb(rest % 256, 7) == rest % 128 && Shr(rest, 7) == rest / 128
  {
    hide GetLsb, Shr;
    ByteShr(rest);
    SevenBits(rest % 256);
    LowByte(rest);
  }

  lemma LowByte(x: nat)
    ensures x % 256 % 128 == x % 128
  {
  }

  /** The group that Group describes is the next one of the encoding. */
  lemma NextGroup(rest: nat)
    ensures ContBytes(rest)[0] == rest % 128 + 128
    ensures ContBytes(rest)[1..] == if rest / 128 == 0 then [] else ContBytes(rest / 128)
  {
  }

  lemma OneBit(rest: nat)
    requires rest < 2
    ensures GetLsb(rest, 1) == rest && Shr(rest, 1) == 0
  {
    assert Low(rest, 1) == 2 * Low(rest / 2, 0) + rest % 2;
  }

  lemma MarkGroup(g: nat)
    requires g < 128
    ensures Or(g, 0x80) == g + 128
  {
    assert Shl(1, 7) == 128 && Pow2(7) == 128;
    OrDisjoint(g, 1, 7);
  }

  lemma Pow2Seven(n: nat)
    ensures Pow2(n + 7) == 128 * Pow2(n)
  {
    assert Pow2(n + 7) == 2 * Pow2(n + 6) == 4 * Pow2(n + 5);
    assert Pow2(n + 5) == 2 * Pow2(n + 4) == 4 * Pow2(n + 3);
    assert Pow2(n + 3) == 2 * Pow2(n + 2) == 4 * Pow2(n + 1);
  }

  /** Clearing the continuation bit of the last group gives the varint. */
  lemma {:induction false} ClearLast(x: nat)
    ensures var c := ContBytes(x);
            128 <= c[|c| - 1] && VarintBytes(x) == c[..|c| - 1] + [c[|c| - 1] - 128]
  {
    if x >= 128 {
      ClearLast(x / 128);
      var c, d := ContBytes(x), ContBytes(x / 128);
      assert c[..|c| - 1] == [c[0]] + d[..|d| - 1];
    }
  }

  method EncodeUInt(x: nat) returns (r: seq<byte>)
    requires x < TWO64
    ensures r == VarintBytes(x)
  {
    hide Or, And, Shr, Low, GetLsb, ContBytes, GroupLimit;
    var buf := new byte[11]; // taken from a pool: any contents
    var rest: nat := x;
    var i := 0;
    ghost var all := ContBytes(x);
    WordLimit();
    while i < |BITSHIFTS|
      invariant i <= 9
      invariant rest < GroupLimit(9 - i)
      invariant i < |all| && all[i..] == ContBytes(rest)
      invariant buf[..i] == all[..i]
    {
      Group(rest, i);
      NextGroup(rest);
      buf[i] := Or(GetLsb(rest % 256, BITSHIFTS[i]), 0x80);
      assert all[i + 1..] == all[i..][1..];
      rest := Shr(rest, BITSHIFTS[i]);
      if rest == 0 {
        break;
      }
      i := i + 1;
    }
    assert buf[..i + 1] == all;
    ClearLast(x);
    PayloadMasks(buf[i]);
    buf[i] := And(buf[i], 0x7F);
    r := buf[..i + 1];
  }

  /** Adding one group to a partial sum, as the decoders do it on 64-bit words. */
  lemma DecodeStep(v: nat, b: nat, i: nat)
    requires b < 128 && v < Pow2(7 * i)
    ensures Or(v % TWO64, Shl(b, 7 * i) % TWO64) == (v + Shl(b, 7 * i)) % TWO64
    ensures v + Shl(b, 7 * i) < Pow2(7 * (i + 1))
  {
    hide Or, Shl, Pow2;
    var n := 7 * i;
    Pow2Values();
    ShlBound(b, 7, n);
    assert 7 * (i + 1) == 7 + n;
    if i <= 8 {
      DecodeStepLow(v, b, n, 63);
    } else if i == 9 {
      DecodeStepTop(v, b, n);
    } else {
      ShlWord(b, n);
      assert Shl(b, n) % TWO64 == 0;
      OrZero(v % TWO64);
    }
  }

  lemma OrZero(v: nat)
    ensures Or(v, 0) == v
  {
  }

  /** The first nine groups fit the word. */
  lemma DecodeStepLow(v: nat, b: nat, n: nat, w: nat)
    requires v < Pow2(n) && n + 7 <= w == 63
    requires Shl(b, n) + Pow2(n) <= Pow2(7 + n)
    ensures Or(v % TWO64, Shl(b, n) % TWO64) == (v + Shl(b, n)) % TWO64
  {
    hide Or, Shl, Pow2;
    Pow2Word(w);
    Pow2Mono(7 + n, w);
    OrDisjoint(v, b, n);
    assert v + Shl(b, n) < TWO64;
  }

  /** Of the tenth group only the lowest bit fits the word. */
  lemma DecodeStepTop(v: nat, b: nat, n: nat)
    requires v < Pow2(n) && n == 63
    ensures Or(v % TWO64, Shl(b, n) % TWO64) == (v + Shl(b, n)) % TWO64
  {
    hide Or, Shl;
    Pow2Word(n);
    var half := TWO64 / 2;
    assert Shl(b, n) == half * b by { ShlMul(b, n); }
    assert Shl(b % 2, n) == half * (b % 2) by { ShlMul(b % 2, n); }
    assert Shl(b, n) % TWO64 == half * (b % 2);
    OrDisjoint(v, b % 2, n);
    TopBit(v, b);
  }

  lemma TopBit(v: nat, b: nat)
    requires v < TWO64 / 2
    ensures (v + TWO64 / 2 * b) % TWO64 == v + TWO64 / 2 * (b % 2)
  {
    assert TWO64 / 2 * b == TWO64 * (b / 2) + TWO64 / 2 * (b % 2);
  }

  lemma {:induction false} ValueBound(s: seq<byte>)
    ensures VarintValue(s) < Pow2(7 * |s|)
  {
    if s != [] {
      ValueBound(s[..|s| - 1]);
      DecodeStep(VarintValue(s[..|s| - 1]), s[|s| - 1] % 128, |s| - 1);
    }
  }

  lemma SevenBits(b: byte)
    ensures GetLsb(b, 7) == b % 128
  {
    LowShr(b, 7);
    ByteShr(b);
  }

  method DecodeUInt(vint: seq<byte>) returns (v: nat)
    ensures v == VarintValue(vint) % TWO64
  {
    hide Or, Shl, GetLsb, Pow2;
    v := 0;
    var i := 0;
    while i < |vint|
      invariant 0 <= i <= |vint|
      invariant v == VarintValue(vint[..i]) % TWO64
    {
      SevenBits(vint[i]);
      ValueBound(vint[..i]);
      DecodeStep(VarintValue(vint[..i]), vint[i] % 128, i);
      assert vint[..i + 1][..i] == vint[..i];
      v := Or(v, Shl(GetLsb(vint[i], 7), 7 * i) % TWO64);
      i := i + 1;
    }
    assert vint[..i] == vint;
  }

  method DecodeUIntRev(vint: seq<byte>) returns (v: nat)
    ensures v == VarintValue(Reverse(vint)) % TWO64
  {
    hide Or, Shl, GetLsb, Pow2;
    v := 0;
    var i := 0;
    ghost var rev := Reverse(vint);
    while i < |vint|
      invariant 0 <= i <= |vint|
      invariant v == VarintValue(rev[..i]) % TWO64
    {
      SevenBits(vint[|vint| - i - 1]);
      ValueBound(rev[..i]);
      DecodeStep(VarintValue(rev[..i]), rev[i] % 128, i);
      assert rev[..i + 1][..i] == rev[..i];
      v := Or(v, Shl(GetLsb(vint[|vint| - i - 1], 7), 7 * i) % TWO64);
      i := i + 1;
    }
    assert rev[..i] == rev;
  }

  /** What EncodeUIntRevInPlace leaves in a slice that held `was`: the groups of x
      right-aligned, all with their continuation bit, and then the continuation bit
      of the first byte of the slice cleared. */
  function RevInPlace(x: nat, was: seq<byte>): (r: seq<byte>)
    requires |ContBytes(x)| <= |was|
    ensures |r| == |was|
  {
    var s := was[..|was| - |ContBytes(x)|] + Reverse(ContBytes(x));
    s[0 := s[0] % 128]
  }

  /** The loop of EncodeUIntRevInPlace: the groups of x, the last one leftmost. */
  method PutGroups(x: nat, buf: array<byte>, hi: nat)
    requires x < TWO64
    requires |ContBytes(x)| <= hi <= buf.Length
    modifies buf
    ensures forall k :: 0 <= k < |ContBytes(x)| ==> buf[hi - 1 - k] == ContBytes(x)[k]
    ensures forall k :: 0 <= k < hi - |ContBytes(x)| ==> buf[k] == old(buf[k])
    ensures forall k :: hi <= k < buf.Length ==> buf[k] == old(buf[k])
  {
    hide Or, And, Shr, Low, GetLsb, ContBytes, GroupLimit;
    var rest: nat := x;
    var i := 0;
    ghost var all := ContBytes(x);
    WordLimit();
    while i < |BITSHIFTS|
      invariant 0 <= i <= 9
      invariant rest < GroupLimit(9 - i)
      invariant i < |all| && all[i..] == ContBytes(rest)
      invariant forall k :: 0 <= k < i ==> buf[hi - 1 - k] == all[k]
      invariant forall k :: 0 <= k < hi - i ==> buf[k] == old(buf[k])
      invariant forall k :: hi <= k < buf.Length ==> buf[k] == old(buf[k])
    {
      Group(rest, i);
      NextGroup(rest);
      assert all[i] == ContBytes(rest)[0];
      buf[hi - i - 1] := Or(GetLsb(rest % 256, BITSHIFTS[i]), 0x80);
      assert all[i + 1..] == all[i..][1..];
      rest := Shr(rest, BITSHIFTS[i]);
      if rest == 0 {
        break;
      }
      i := i + 1;
    }
  }

  method EncodeUIntRevInPlace(x: nat, buf: array<byte>, lo: nat, hi: nat)
    requires x < TWO64
    requires lo < hi <= buf.Length
    requires |ContBytes(x)| <= hi - lo
    modifies buf
    ensures buf[..lo] == old(buf[..lo]) && buf[hi..] == old(buf[hi..])
    ensures buf[lo..hi] == RevInPlace(x, old(buf[lo..hi]))
  {
    hide And, ContBytes;
    ghost var was := buf[lo..hi];
    ghost var all := ContBytes(x);
    PutGroups(x, buf, hi);
    ghost var s := was[..|was| - |all|] + Reverse(all);
    assert buf[lo..hi] == s;
    PayloadMasks(buf[lo]);
    buf[lo] := And(buf[lo], 0x7F);
    assert buf[lo..hi] == s[0 := s[0] % 128];
  }

  // ---------- zigzag ----------

  /** uint64((x << 1) ^ (x >> 63)) for an int64 x. */
  function ZigZag(x: int): (r: nat)
    requires -TWO64 / 2 <= x < TWO64 / 2
  {
    Xor(Word(2 * x), Word(if x < 0 then -1 else 0))
  }

  /** int64((ux >> 1) ^ uint64((int64(ux) << 63) >> 63)): the shifts spread the low bit. */
  function UnZigZag(ux: nat): int
    requires ux < TWO64
  {
    Signed(Xor(ux / 2, Word(if ux % 2 == 1 then -1 else 0)))
  }

  method EncodeInt(x: int) returns (r: seq<byte>)
    requires -TWO64 / 2 <= x < TWO64 / 2
    ensures r == VarintBytes(if 0 <= x then 2 * x else -2 * x - 1)
  {
    ZigZagValue(x);
    r := EncodeUInt(ZigZag(x));
  }

  method DecodeInt(vint: seq<byte>) returns (x: int)
    ensures x == var u := VarintValue(vint) % TWO64; if u % 2 == 0 then u / 2 else -(u / 2) - 1
  {
    var ux := DecodeUInt(vint);
    UnZigZagValue(ux);
    x := UnZigZag(ux);
  }

  /** Zigzag interleaves the integers: 0, -1, 1, -2, 2, ... */
  lemma ZigZagValue(x: int)
    requires -TWO64 / 2 <= x < TWO64 / 2
    ensures ZigZag(x) == if 0 <= x then 2 * x else -2 * x - 1
  {
    if x < 0 {
      Complement(2 * x + TWO64, 64);
    }
  }

  lemma Complement(x: nat, n: nat)
    requires n == 64 && x < TWO64
    ensures Xor(x, TWO64 - 1) == TWO64 - 1 - x
  {
    Pow2Word(n);
    XorOnes(x, n);
  }

  lemma UnZigZagValue(ux: nat)
    requires ux < TWO64
    ensures UnZigZag(ux) == if ux % 2 == 0 then ux / 2 else -(ux / 2) - 1
  {
    if ux % 2 == 1 {
      Complement(ux / 2, 64);
    }
  }

  // ---------- properties ----------

  lemma {:induction false} ValueCons(b: byte, s: seq<byte>)
    ensures VarintValue([b] + s) == b % 128 + 128 * VarintValue(s)
  {
    var t := [b] + s;
    if s == [] {
      assert VarintValue(t[..0]) == 0;
    } else {
      var front := s[..|s| - 1];
      ValueCons(b, front);
      assert t[..|t| - 1] == [b] + front;
      ShlSeven(s[|s| - 1] % 128, 7 * (|s| - 1));
    }
  }

  lemma ShlSeven(x: nat, n: nat)
    ensures Shl(x, n + 7) == 128 * Shl(x, n)
  {
    ShlMul(x, n + 7);
    ShlMul(x, n);
    Pow2Seven(n);
    var p := Pow2(n);
    assert x * (128 * p) == 128 * (x * p);
  }

  lemma ValueEmpty()
    ensures VarintValue([]) == 0
  {
  }

  /** DecodeUInt undoes EncodeUInt, on every number. */
  lemma {:induction false} VarintRoundTrip(x: nat)
    ensures VarintValue(VarintBytes(x)) == x
  {
    hide VarintValue;
    if x < 128 {
      ValueCons(x, []);
      assert [x] + [] == VarintBytes(x);
      ValueEmpty();
    } else {
      VarintRoundTrip(x / 128);
      ValueCons(x % 128 + 128, VarintBytes(x / 128));
    }
  }

  /** Only the last byte of a varint has its high bit clear. */
  lemma {:induction false} VarintShape(x: nat)
    ensures var s := VarintBytes(x);
            |s| == |ContBytes(x)| && s[|s| - 1] < 128 && forall i :: 0 <= i < |s| - 1 ==> 128 <= s[i]
  {
    if x >= 128 {
      VarintShape(x / 128);
    }
  }

  /** DecodeInt undoes EncodeInt for every int64. */
  method IntRoundTrip(x: int) returns (y: int)
    requires -TWO64 / 2 <= x < TWO64 / 2
    ensures y == x
  {
    var s := EncodeInt(x);
    VarintRoundTrip(if 0 <= x then 2 * x else -2 * x - 1);
    y := DecodeInt(s);
  }

  /** The reserved size is the varint's size, except for three numbers and for
      numbers of more than 35 bits. */
  lemma {:induction false} SizeExact(x: nat)
    ensures |VarintBytes(x)| == GetEncodeUIntSize(x) <==> x < 0x8_0000_0000 && !Padded(x)
    ensures Padded(x) ==> |VarintBytes(x)| == GetEncodeUIntSize(x) - 1
    ensures 0x8_0000_0000 <= x ==> GetEncodeUIntSize(x) < |VarintBytes(x)|
  {
    LengthSteps(x);
  }

  lemma {:induction false} LengthSteps(x: nat)
    ensures |VarintBytes(x)| == 1 <==> x < 128
    ensures |VarintBytes(x)| == 2 <==> 128 <= x < 0x4000
    ensures |VarintBytes(x)| == 3 <==> 0x4000 <= x < 0x20_0000
    ensures |VarintBytes(x)| == 4 <==> 0x20_0000 <= x < 0x1000_0000
    ensures |VarintBytes(x)| == 5 <==> 0x1000_0000 <= x < 0x8_0000_0000
  {
    if x >= 128 {
      LengthSteps(x / 128);
    }
  }
}
