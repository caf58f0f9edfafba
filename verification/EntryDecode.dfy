/** DecodeDeqEntry and the parse from the right, and why both undo the encoder. */
module EntryDecode {
  import opened Bits
  import opened Varint
  import opened Decimal
  import opened EntryCodec

  // ---------- the program ----------

  /** int64(s[0]) | int64(s[1])<<8 | int64(s[2])<<16 | ... */
  function OrLittleEndian(s: Str): nat {
    if s == [] then 0
    else Or(OrLittleEndian(s[..|s| - 1]), Shl(s[|s| - 1], 8 * (|s| - 1)))
  }

  /** val <<= 64 - bit; val >>= 64 - bit; on an int64. */
  function SignExtend(val: nat, bit: nat): int
    requires bit <= 64
  {
    Shr(Signed(Shl(val, 64 - bit) % TWO64), 64 - bit)
  }

  /** The number of bytes DecodeDeqEntry reads; on a shorter slice it panics. */
  function BytesRead(xb: Str): nat
    requires xb != []
  {
    var b := xb[0];
    if And(b, 0x80) == 0 then 1
    else if And(b, 0xE0) == 0xC0 then 2
    else if And(b, 0xFF) == 0xF1 then 3
    else if And(b, 0xFF) == 0xF2 then 4
    else if And(b, 0xFF) == 0xF3 then 5
    else if And(b, 0xFF) == 0xF4 then 9
    else if And(b, 0xC0) == 0x80 then 1 + And(b, 0x3F)
    else if And(b, 0xF0) == 0xE0 then
      if |xb| < 2 then 2 else 2 + Or(Shl(And(b, 0x0F), 8), xb[1])
    else if And(b, 0xFF) == 0xF0 then
      if |xb| < 5 then 5 else 5 + OrLittleEndian(xb[1..5])
    else 1
  }

  predicate Decodable(xb: Str) {
    xb != [] && BytesRead(xb) <= |xb|
  }

  function Slice(s: Str, lo: nat, hi: nat): Str
    requires lo <= hi <= |s|
  {
    s[lo..hi]
  }

  /** The decoded element and the length of the whole entry. */
  function DecodeDeqEntry(xb: Str): (r: (Str, nat))
    requires Decodable(xb)
  {
    var b := xb[0];
    if And(b, 0x80) == 0 then
      (FormatInt(SignExtend(And(b, 0x7F), 8)), 2)
    else if And(b, 0xE0) == 0xC0 then
      (FormatInt(SignExtend(Or(Shl(And(b, 0x1F), 8), xb[1]), 13)), 3)
    else if And(b, 0xFF) == 0xF1 then
      (FormatInt(SignExtend(OrLittleEndian(xb[1..3]), 16)), 4)
    else if And(b, 0xFF) == 0xF2 then
      (FormatInt(SignExtend(OrLittleEndian(xb[1..4]), 24)), 5)
    else if And(b, 0xFF) == 0xF3 then
      (FormatInt(SignExtend(OrLittleEndian(xb[1..5]), 32)), 6)
    else if And(b, 0xFF) == 0xF4 then
      (FormatInt(SignExtend(OrLittleEndian(xb[1..9]), 64)), 10)
    else if And(b, 0xC0) == 0x80 then
      var strLen := And(b, 0x3F);
      (Slice(xb, 1, 1 + strLen), 1 + strLen + GetEncodeUIntSize(1 + strLen))
    else if And(b, 0xF0) == 0xE0 then
      var strLen := Or(Shl(And(b, 0x0F), 8), xb[1]);
      (Slice(xb, 2, 2 + strLen), 2 + strLen + GetEncodeUIntSize(2 + strLen))
    else if And(b, 0xFF) == 0xF0 then
      var strLen := OrLittleEndian(xb[1..5]);
      (Slice(xb, 5, 5 + strLen), 5 + strLen + GetEncodeUIntSize(5 + strLen))
    else // a byte that starts no entry
      (FormatInt(SignExtend(12345678900000000 + b as int, 64)), 0)
  }

  // ---------- bytes of an integer ----------

  lemma {:induction false} LowSum(v: int, a: nat, b: nat)
    ensures Low(v, a + b) == Low(v, a) + Shl(Low(Shr(v, a), b), a)
    decreases a
  {
    if a > 0 {
      LowSum(v / 2, a - 1, b);
    }
  }

  lemma NoLow(v: int)
    ensures Low(v, 0) == 0
  {
  }

  /** Joining the low bytes of v gives its low bits. */
  lemma {:induction false} JoinBytes(v: int, k: nat)
    ensures OrLittleEndian(LittleEndian(v, k)) == Low(v, 8 * k)
  {
    hide Or, Shl, Shr, Low, Pow2;
    if k == 0 {
      NoLow(v);
    } else {
      var s := LittleEndian(v, k);
      var n := 8 * (k - 1);
      var top := Shr(v, n) % 256;
      JoinBytes(v, k - 1);
      assert s[..k - 1] == LittleEndian(v, k - 1);
      LowBound(v, n);
      OrDisjoint(Low(v, n), top, n);
      LowMod(Shr(v, n), 8);
      Pow2Values();
      LowSum(v, n, 8);
    }
  }

  /** Shifting left and right again is exact when nothing is lost. */
  lemma {:induction false} ShrShl(m: nat, n: nat)
    ensures Shr(Shl(m, n), n) == m && Shr(-Shl(m, n), n) + m == 0
    decreases n
  {
    if n > 0 {
      ShrShl(m, n - 1);
    }
  }

  /** In two's complement, the low bits of a number in range. */
  lemma {:induction false} LowRange(v: int, n: nat)
    requires -Pow2(n) <= v < Pow2(n)
    ensures Low(v, n) == if v < 0 then v + Pow2(n) else v
    decreases n
  {
    if n > 0 {
      LowRange(v / 2, n - 1);
    }
  }

  /** Sign extension recovers every number of the width from its low bits. */
  lemma SignExact(v: int, bit: nat)
    requires 1 <= bit <= 64
    requires -Pow2(bit - 1) <= v < Pow2(bit - 1)
    ensures SignExtend(Low(v, bit), bit) == v
  {
    hide Shl, Shr, Low, Pow2;
    var k := 64 - bit;
    assert Pow2(bit) == 2 * Pow2(bit - 1) by { Doubling(bit - 1); }
    LowRange(v, bit);
    Pow2Word(63);
    Pow2Word(64);
    if 0 <= v {
      ShrShl(v, k);
      ShlBound(v, bit - 1, k);
      assert Shl(v, k) < TWO64 / 2;
    } else {
      var m := -v;
      var p := v + Pow2(bit);
      ShrShl(m, k);
      ShlSum(p, m, k);
      ShlPow2(bit, k);
      assert Shl(p, k) == TWO64 - Shl(m, k);
      ShlBound(m - 1, bit - 1, k);
      ShlSum(m - 1, 1, k);
      ShlPow2(0, k);
      Pow2One();
      assert Shl(m, k) <= TWO64 / 2;
      ShlPositive(m, k);
    }
  }

  lemma Doubling(n: nat)
    ensures Pow2(n + 1) == 2 * Pow2(n)
  {
  }

  lemma Pow2One()
    ensures Pow2(0) == 1
  {
  }

  lemma {:induction false} ShlPow2(n: nat, k: nat)
    ensures Shl(Pow2(n), k) == Pow2(n + k)
    decreases k
  {
    if k > 0 {
      ShlPow2(n, k - 1);
    }
  }

  lemma {:induction false} ShlPositive(m: nat, k: nat)
    requires 0 < m
    ensures m <= Shl(m, k)
    decreases k
  {
    if k > 0 {
      ShlPositive(m, k - 1);
    }
  }

  // ---------- forward decoding ----------

  /** The tag tests, as ranges of the first byte. */
  lemma Tags(b: byte)
    ensures And(b, 0x80) == 0 <==> b < 0x80
    ensures And(b, 0xE0) == 0xC0 <==> 0xC0 <= b < 0xE0
    ensures And(b, 0xC0) == 0x80 <==> 0x80 <= b < 0xC0
    ensures And(b, 0xF0) == 0xE0 <==> 0xE0 <= b < 0xF0
    ensures And(b, 0xFF) == b
  {
    hide And;
    TagMasks(b);
    PayloadMasks(b);
  }

  lemma DecodeInt7(v: int, suffix: Str)
    requires 0 <= v <= 127
    ensures var xb := IntData(v) + suffix;
            Decodable(xb) && DecodeDeqEntry(xb) == (FormatInt(v), 2)
  {
    hide And, Or, Shl, Shr, Low, Digits;
    Tags(v);
    PayloadMasks(v);
    assert Pow2(7) == 128;
    LowRange(v, 8) by { assert Pow2(8) == 256; }
    SignExact(v, 8);
  }

  lemma DecodeInt13(v: int, suffix: Str)
    requires -4096 <= v <= 4095 && !(0 <= v <= 127)
    ensures var xb := IntData(v) + suffix;
            Decodable(xb) && DecodeDeqEntry(xb) == (FormatInt(v), 3)
  {
    hide And, Or, Shl, Shr, Low, Digits, Word;
    Int13Bits(v);
    var xb := IntData(v) + suffix;
    var h := v / 256 % 32;
    Tags(xb[0]);
    PayloadMasks(xb[0]);
    assert xb[0] == 0xC0 + h && xb[0] % 32 == h && xb[1] == v % 256;
    Join13(v);
    assert Pow2(12) == 4096;
    SignExact(v, 13);
  }

  lemma Join13(v: int)
    ensures Or(Shl(v / 256 % 32, 8), v % 256) == Low(v, 13)
  {
    hide Or, Shr;
    assert Pow2(8) == 256;
    OrDisjoint(v % 256, v / 256 % 32, 8);
    LowSum(v, 8, 5);
    LowMod(v, 8);
    ShrEight(v);
    LowMod(v / 256, 5);
  }

  /** The fixed-width forms: a tag byte and k bytes, low byte first. */
  lemma DecodeFixed(v: int, k: nat)
    requires 1 <= k <= 8 && -Pow2(8 * k - 1) <= v < Pow2(8 * k - 1)
    ensures SignExtend(OrLittleEndian(LittleEndian(v, k)), 8 * k) == v
  {
    JoinBytes(v, k);
    SignExact(v, 8 * k);
  }

  lemma DecodeIntFixed(v: int, suffix: Str)
    requires INT64_MIN <= v <= INT64_MAX && !(-4096 <= v <= 4095)
    ensures var xb := IntData(v) + suffix;
            Decodable(xb) && DecodeDeqEntry(xb) == (FormatInt(v), GetEncodeDeqIntSize(v))
  {
    hide And, Or, Shl, Shr, Low, Digits, LittleEndian, OrLittleEndian, SignExtend;
    var xb := IntData(v) + suffix;
    var k := |IntData(v)| - 1;
    Tags(xb[0]);
    assert xb[1..1 + k] == LittleEndian(v, k);
    FixedRange(v);
    DecodeFixed(v, k);
  }

  lemma FixedRange(v: int)
    requires INT64_MIN <= v <= INT64_MAX && !(-4096 <= v <= 4095)
    ensures var k := IntDataSize(v) - 1;
            1 <= k <= 8 && -Pow2(8 * k - 1) <= v < Pow2(8 * k - 1)
  {
    assert Pow2(15) == 32768 && Pow2(23) == 8388608 && Pow2(31) == 2147483648;
    Pow2Word(63);
  }

  lemma DecodeStr6(x: Str, suffix: Str)
    requires |x| <= 63
    ensures var xb := StrHeader(|x|) + x + suffix;
            Decodable(xb) && DecodeDeqEntry(xb) == (x, GetEncodeDeqStrSize(x))
  {
    hide And, Or, Shl;
    var xb := StrHeader(|x|) + x + suffix;
    StrTag6(|x|);
    Tags(xb[0]);
    PayloadMasks(xb[0]);
    assert xb[1..1 + |x|] == x;
  }

  lemma StrTag6(n: nat)
    requires n <= 63
    ensures StrHeader(n)[0] == 0x80 + n
  {
    hide Or;
    TagBits(n, 2, 6);
  }

  lemma StrTag12(n: nat)
    requires 63 < n <= 4095
    ensures StrHeader(n) == [0xE0 + n / 256, n % 256]
    ensures Or(Shl(n / 256, 8), n % 256) == n
  {
    hide Or;
    TagBits(n / 256, 14, 4);
    assert Pow2(8) == 256;
    OrDisjoint(n % 256, n / 256, 8);
    assert Shl(n / 256, 8) == 256 * (n / 256);
  }

  lemma DecodeStr12(x: Str, suffix: Str)
    requires 63 < |x| <= 4095
    ensures var xb := StrHeader(|x|) + x + suffix;
            Decodable(xb) && DecodeDeqEntry(xb) == (x, GetEncodeDeqStrSize(x))
  {
    hide And, Or, Shl, StrHeader;
    var xb := StrHeader(|x|) + x + suffix;
    StrTag12(|x|);
    Tags(xb[0]);
    PayloadMasks(xb[0]);
    assert xb[0] % 16 == |x| / 256;
    assert xb[2..2 + |x|] == x;
  }

  lemma DecodeStr32(x: Str, suffix: Str)
    requires 4095 < |x|
    ensures var xb := StrHeader(|x|) + x + suffix;
            && OrLittleEndian(xb[1..5]) == |x| % 0x1_0000_0000
            && Decodable(xb)
            && (DecodeDeqEntry(xb).0 == x <==> Encodable(x))
            && (Encodable(x) ==> DecodeDeqEntry(xb) == (x, GetEncodeDeqStrSize(x)))
  {
    hide And, Or, Shl, Low, LittleEndian, OrLittleEndian;
    var xb := StrHeader(|x|) + x + suffix;
    Tags(xb[0]);
    assert xb[1..5] == LittleEndian(|x|, 4);
    JoinBytes(|x|, 4);
    LowWord32(|x|);
    if Encodable(x) {
      assert xb[5..5 + |x|] == x;
    }
  }

  lemma LowWord32(n: nat)
    ensures Low(n, 32) == n % 0x1_0000_0000
  {
    hide Low, Shr, Shl;
    LowShr(n, 32);
    ShlMul(Shr(n, 32), 32);
    LowBound(n, 32);
    Pow2Values();
  }

  datatype Tag = UInt7 | Int13 | Str6 | Str12 | Str32 | Int16 | Int24 | Int32 | Int64

  /** The tag classes a first byte belongs to, one test each: the short integers and strings by
      a bit mask, the long forms by their value. */
  predicate HasTag(b: byte, tag: Tag) {
    match tag
    case UInt7 => And(b, 0x80) == 0
    case Int13 => And(b, 0xE0) == 0xC0
    case Str6 => And(b, 0xC0) == 0x80
    case Str12 => And(b, 0xF0) == 0xE0
    case Str32 => And(b, 0xFF) == 0xF0
    case Int16 => And(b, 0xFF) == 0xF1
    case Int24 => And(b, 0xFF) == 0xF2
    case Int32 => And(b, 0xFF) == 0xF3
    case Int64 => And(b, 0xFF) == 0xF4
  }

  /** No byte is in two classes, and only the bytes above 0xF4 are in none. */
  lemma TagsDisjoint(b: byte)
    ensures forall t, u :: HasTag(b, t) && HasTag(b, u) ==> t == u
    ensures (exists t :: HasTag(b, t)) <==> b <= 0xF4
  {
    hide And;
    Tags(b);
    if b <= 0xF4 {
      var tag := if b < 0x80 then UInt7 else if b < 0xC0 then Str6 else if b < 0xE0 then Int13
                 else if b < 0xF0 then Str12 else if b == 0xF0 then Str32 else if b == 0xF1 then Int16
                 else if b == 0xF2 then Int24 else if b == 0xF3 then Int32 else Int64;
      assert HasTag(b, tag);
    }
  }

  /** What a byte that starts no entry gives: a number made up from it, and no length. */
  lemma DecodeOther(b: byte, rest: Str)
    requires 0xF4 < b
    ensures Decodable([b] + rest) && DecodeDeqEntry([b] + rest) == (FormatInt(12345678900000000 + b), 0)
  {
    hide And, FormatInt;
    Tags(b);
    NoShift(12345678900000000 + b);
  }

  lemma NoShift(m: nat)
    requires m < 0x8000_0000_0000_0000
    ensures SignExtend(m, 64) == m
  {
  }

  /** Decoding an entry, whatever follows its [enc + data] part, gives the element
      and the length of the whole entry. */
  lemma DecodeEntry(x: Str, suffix: Str)
    requires Encodable(x)
    ensures var xb := EntryData(x) + suffix;
            && Decodable(xb)
            && DecodeDeqEntry(xb) == (Canon(x), |EntryData(x)| + GetEncodeUIntSize(|EntryData(x)|))
  {
    hide And, Or, LittleEndian, OrLittleEndian, DecodeDeqEntry, Decodable, IntData, StrHeader, FormatInt;
    if StoredAsInt(x) {
      var v := ParseInt(x).value;
      if 0 <= v <= 127 {
        DecodeInt7(v, suffix);
      } else if -4096 <= v <= 4095 {
        DecodeInt13(v, suffix);
      } else {
        DecodeIntFixed(v, suffix);
      }
    } else if |x| <= 63 {
      DecodeStr6(x, suffix);
    } else if |x| <= 4095 {
      DecodeStr12(x, suffix);
    } else {
      DecodeStr32(x, suffix);
    }
  }
}
