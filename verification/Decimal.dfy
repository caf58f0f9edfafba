/** Decimal integers as strconv.ParseInt(x, 10, 64) reads them and
    strconv.FormatInt(v, 10) writes them. */
module Decimal {
  import opened Bits
  import opened Options

  type Str = seq<byte>

  const MINUS: byte := 45
  const PLUS: byte := 43
  const ZERO: byte := 48
  const INT64_MIN: int := -TWO64 / 2
  const INT64_MAX: int := TWO64 / 2 - 1

  predicate IsDigit(c: byte) {
    48 <= c <= 57
  }

  predicate AllDigits(s: Str) {
    forall i :: 0 <= i < |s| ==> IsDigit(s[i])
  }

  function DigitsValue(s: Str): nat
    requires AllDigits(s)
  {
    if s == [] then 0 else DigitsValue(s[..|s| - 1]) * 10 + (s[|s| - 1] - 48)
  }

  function Digits(n: nat): (s: Str)
    ensures 1 <= |s| && AllDigits(s)
  {
    if n < 10 then [48 + n] else Digits(n / 10) + [48 + n % 10]
  }

  /** An optional sign, one or more digits, and a value that fits int64. */
  function ParseInt(x: Str): (r: Option<int>)
    ensures r.Some? ==> INT64_MIN <= r.value <= INT64_MAX
  {
    if x == [] then None else
    var negative := x[0] == MINUS;
    var digits := if x[0] == MINUS || x[0] == PLUS then x[1..] else x;
    if digits == [] || !AllDigits(digits) then None else
    var v: int := if negative then 0 - DigitsValue(digits) else DigitsValue(digits);
    if INT64_MIN <= v <= INT64_MAX then Some(v) else None
  }

  function FormatInt(v: int): (s: Str)
    ensures 1 <= |s|
  {
    if v < 0 then [MINUS] + Digits(-v) else Digits(v)
  }

  /** No plus sign, no leading zero, and not "-0". */
  predicate CanonicalDecimal(x: Str) {
    && x != []
    && var digits := if x[0] == MINUS then x[1..] else x;
       && digits != []
       && AllDigits(digits)
       && (digits[0] == ZERO ==> x == [ZERO])
  }

  lemma {:induction false} DigitsRoundTrip(n: nat)
    ensures DigitsValue(Digits(n)) == n
    ensures Digits(n)[0] == ZERO <==> n == 0
    ensures n == 0 ==> Digits(n) == [ZERO]
  {
    var d := Digits(n);
    if n < 10 {
      assert d[..0] == [];
    } else {
      DigitsRoundTrip(n / 10);
      assert d[..|d| - 1] == Digits(n / 10);
    }
  }

  lemma AppendDigit(n: nat, c: byte)
    requires 0 < n && IsDigit(c)
    ensures Digits(n * 10 + (c - 48)) == Digits(n) + [c]
  {
    var m := n * 10 + (c - 48);
    assert m / 10 == n && m % 10 == c - 48;
  }

  /** Digits without a leading zero are the digits of their value. */
  lemma {:induction false} ValueRoundTrip(s: Str)
    requires s != [] && AllDigits(s) && (s[0] == ZERO ==> s == [ZERO])
    ensures Digits(DigitsValue(s)) == s
    ensures s != [ZERO] ==> 0 < DigitsValue(s)
  {
    var front := s[..|s| - 1];
    if front == [] {
      assert DigitsValue(front) == 0;
    } else {
      ValueRoundTrip(front);
      AppendDigit(DigitsValue(front), s[|s| - 1]);
      assert s == front + [s[|s| - 1]];
    }
  }

  /** FormatInt's output parses back. */
  lemma ParseFormat(v: int)
    requires INT64_MIN <= v <= INT64_MAX
    ensures ParseInt(FormatInt(v)) == Some(v)
  {
    var x := FormatInt(v);
    if v < 0 {
      DigitsRoundTrip(-v);
      assert x[1..] == Digits(-v);
    } else {
      DigitsRoundTrip(v);
      assert IsDigit(x[0]);
    }
  }

  /** Of the strings ParseInt accepts, exactly the canonical ones survive parsing and formatting. */
  lemma FormatParse(x: Str)
    requires ParseInt(x).Some?
    ensures FormatInt(ParseInt(x).value) == x <==> CanonicalDecimal(x)
  {
    var v := ParseInt(x).value;
    var digits := if x[0] == MINUS || x[0] == PLUS then x[1..] else x;
    if CanonicalDecimal(x) {
      assert x[0] != PLUS;
      ValueRoundTrip(digits);
      if x[0] == MINUS {
        assert x == [MINUS] + digits;
      }
    } else if FormatInt(v) == x {
      FormatIsCanonical(v);
    }
  }

  lemma FormatIsCanonical(v: int)
    ensures CanonicalDecimal(FormatInt(v))
  {
    var x := FormatInt(v);
    if v < 0 {
      DigitsRoundTrip(-v);
      assert x[1..] == Digits(-v);
    } else {
      DigitsRoundTrip(v);
      assert IsDigit(x[0]);
    }
  }

  // ---------- what ParseInt accepts ----------

  function Zeros(z: nat): (s: Str)
    ensures |s| == z
  {
    seq(z, _ => 48)
  }

  /** A number written out: a sign or none, zeros, and its digits. */
  function Numeral(sign: Str, z: nat, n: nat): Str {
    sign + Zeros(z) + Digits(n)
  }

  predicate IsSign(sign: Str) {
    sign == [] || sign == [43] || sign == [45]
  }

  /** Leading zeros change nothing. */
  lemma {:induction false} ZerosValue(z: nat, s: Str)
    requires AllDigits(s)
    ensures AllDigits(Zeros(z) + s) && DigitsValue(Zeros(z) + s) == DigitsValue(s)
    decreases z + |s|
  {
    var all := Zeros(z) + s;
    if s != [] {
      ZerosValue(z, s[..|s| - 1]);
      assert all[..|all| - 1] == Zeros(z) + s[..|s| - 1];
    } else if z > 0 {
      ZerosValue(z - 1, []);
      assert all[..|all| - 1] == Zeros(z - 1) + [];
    } else {
      assert all == s;
    }
  }

  /** Every numeral is read as its number, if that fits int64. */
  lemma ParseNumeral(sign: Str, z: nat, n: nat)
    requires IsSign(sign)
    ensures var v := if sign == [45] then 0 - n else n;
            ParseInt(Numeral(sign, z, n))
            == if -0x8000_0000_0000_0000 <= v <= 0x7FFF_FFFF_FFFF_FFFF then Some(v) else None
  {
    hide DigitsValue, Digits;
    var x, digits := Numeral(sign, z, n), Zeros(z) + Digits(n);
    ZerosValue(z, Digits(n));
    DigitsRoundTrip(n);
    assert IsDigit(digits[0]);
    if sign == [] {
      assert x == digits;
    } else {
      assert x == sign + digits && x[1..] == digits;
    }
  }

  lemma ParseParts(x: Str)
    requires ParseInt(x).Some?
    ensures x != []
    ensures var digits := if x[0] == MINUS || x[0] == PLUS then x[1..] else x; digits != [] && AllDigits(digits)
  {
  }

  /** Nothing else is read as a number. */
  lemma ParseOnly(x: Str) returns (sign: Str, z: nat, n: nat)
    requires ParseInt(x).Some?
    ensures IsSign(sign) && x == Numeral(sign, z, n)
  {
    hide DigitsValue, Digits, ParseInt;
    ParseParts(x);
    sign := if x[0] == MINUS || x[0] == PLUS then x[..1] else [];
    var digits := x[|sign|..];
    z, n := SplitZeros(digits);
    assert x == sign + digits;
    assert sign + (Zeros(z) + Digits(n)) == sign + Zeros(z) + Digits(n);
  }

  /** Digits are some zeros and the digits of a number. */
  lemma {:induction false} SplitZeros(s: Str) returns (z: nat, n: nat)
    requires s != [] && AllDigits(s)
    ensures s == Zeros(z) + Digits(n)
  {
    if s[0] == ZERO && |s| > 1 {
      var z';
      z', n := SplitZeros(s[1..]);
      z := z' + 1;
      assert s == [s[0]] + (Zeros(z') + Digits(n)) && [s[0]] + Zeros(z') == Zeros(z);
    } else {
      z, n := 0, DigitsValue(s);
      ValueRoundTrip(s);
      assert Zeros(0) + s == s;
    }
  }

  /** ParseInt reads exactly the numerals of the int64 numbers. */
  lemma ParseExactly(x: Str, v: int)
    ensures ParseInt(x) == Some(v) <==>
            exists sign, z: nat, n: nat :: IsSign(sign) && x == Numeral(sign, z, n)
                                           && v == (if sign == [45] then 0 - n else n)
                                           && -0x8000_0000_0000_0000 <= v <= 0x7FFF_FFFF_FFFF_FFFF
  {
    hide ParseInt, Numeral;
    if ParseInt(x) == Some(v) {
      var sign, z, n := ParseOnly(x);
      ParseNumeral(sign, z, n);
    }
    if sign, z: nat, n: nat :| IsSign(sign) && x == Numeral(sign, z, n) && v == (if sign == [45] then 0 - n else n)
                               && -0x8000_0000_0000_0000 <= v <= 0x7FFF_FFFF_FFFF_FFFF {
      ParseNumeral(sign, z, n);
    }
  }

  function Pow10(k: nat): nat {
    if k == 0 then 1 else 10 * Pow10(k - 1)
  }

  lemma {:induction false} DigitsLength(n: nat, k: nat)
    requires 1 <= k && n < Pow10(k)
    ensures |Digits(n)| <= k
  {
    if n >= 10 {
      assert k > 1 by { assert Pow10(1) == 10; }
      DigitsLength(n / 10, k - 1);
    }
  }

  lemma Pow10Word()
    ensures Pow10(19) == 10_000_000_000_000_000_000
  {
    assert Pow10(16) == 1000 * Pow10(13) == 10_000_000_000_000_000 by {
      assert Pow10(4) == 10_000;
      assert Pow10(7) == 1000 * Pow10(4);
      assert Pow10(10) == 1000 * Pow10(7);
      assert Pow10(13) == 1000 * Pow10(10);
    }
    assert Pow10(19) == 1000 * Pow10(16);
  }

  /** No int64 takes more than twenty characters. */
  lemma FormatLength(v: int)
    requires INT64_MIN <= v <= INT64_MAX
    ensures |FormatInt(v)| <= 20
  {
    Pow10Word();
    DigitsLength(if v < 0 then -v else v, 19);
  }
}
