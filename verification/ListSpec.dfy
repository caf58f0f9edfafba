/** What the list commands do to a sequence of values, and the index arithmetic that both
    list types share for LRANGE. */
module ListSpec {
  import opened Decimal

  function SanitizeStartIndex(length: int, start: int): int {
    var s := if start < 0 then length + start else start;
    if s < 0 then 0 else s
  }

  function SanitizeStopIndex(length: int, stop: int): int {
    var s := if stop < 0 then length + stop else stop;
    if s >= length then length - 1 else s
  }

  /** A position counted from the end when it is negative. */
  function Position(length: nat, index: int): int {
    if index < 0 then length + index else index
  }

  predicate Selected(length: nat, start: int, stop: int, t: int) {
    Position(length, start) <= t <= Position(length, stop)
  }

  /** The elements whose position lies between lo and hi, in order. */
  function Within<T>(values: seq<T>, lo: int, hi: int): seq<T> {
    if values == [] then []
    else
      var n := |values| - 1;
      Within(values[..n], lo, hi) + (if lo <= n <= hi then [values[n]] else [])
  }

  /** LRANGE: the elements between two positions, either of which may count from the end. */
  function Range<T>(values: seq<T>, start: int, stop: int): seq<T> {
    Within(values, Position(|values|, start), Position(|values|, stop))
  }

  /** Nothing is selected when no position lies in the range. */
  lemma {:induction false} WithinNone<T>(values: seq<T>, lo: int, hi: int)
    requires hi < lo || hi < 0 || |values| <= lo || values == []
    ensures Within(values, lo, hi) == []
  {
    if values != [] {
      WithinNone(values[..|values| - 1], lo, hi);
    }
  }

  /** Positions beyond hi select nothing. */
  lemma {:induction false} WithinStop<T>(values: seq<T>, m: nat, lo: int, hi: int)
    requires m <= |values| && hi < m
    ensures Within(values, lo, hi) == Within(values[..m], lo, hi)
  {
    var n := |values| - 1;
    if m <= n {
      WithinStop(values[..n], m, lo, hi);
      assert values[..n][..m] == values[..m];
    } else {
      assert values[..m] == values;
    }
  }

  /** The sanitised indices select exactly what the positions select. */
  lemma SanitizedRange<T>(values: seq<T>, start: int, stop: int)
    ensures var lo, hi := SanitizeStartIndex(|values|, start), SanitizeStopIndex(|values|, stop);
            && 0 <= lo && hi < |values|
            && (lo > hi ==> Range(values, start, stop) == [])
            && forall t | 0 <= t < |values| :: lo <= t <= hi <==> Selected(|values|, start, stop, t)
  {
    var lo, hi := SanitizeStartIndex(|values|, start), SanitizeStopIndex(|values|, stop);
    if lo > hi {
      WithinNone(values, Position(|values|, start), Position(|values|, stop));
    }
  }

  /** A range with both ends inside is the slice between them. */
  lemma {:induction false} RangeIsSlice<T>(values: seq<T>, lo: nat, hi: int)
    requires lo <= hi + 1 <= |values|
    ensures Within(values, lo, hi) == values[lo..hi + 1]
    decreases |values|
  {
    if values != [] {
      var n := |values| - 1;
      if hi == n {
        if lo == n + 1 {
          WithinNone(values, lo, hi);
        } else {
          RangeIsSlice(values[..n], lo, n - 1);
          WithinSame(values[..n], lo, n, lo, n - 1);
          assert values[lo..n + 1] == values[..n][lo..n] + [values[n]];
        }
      } else {
        RangeIsSlice(values[..n], lo, hi);
      }
    }
  }

  /** Moving a bound beyond the ends of the list changes nothing. */
  lemma {:induction false} WithinSame<T>(values: seq<T>, lo: int, hi: int, lo': int, hi': int)
    requires lo == lo' || (lo <= 0 && lo' <= 0)
    requires hi == hi' || (|values| - 1 <= hi && |values| - 1 <= hi')
    ensures Within(values, lo, hi) == Within(values, lo', hi')
  {
    if values != [] {
      WithinSame(values[..|values| - 1], lo, hi, lo', hi');
    }
  }

  /** LRANGE returns the slice between the sanitised indices, and nothing where they cross. */
  lemma RangeBetween<T>(values: seq<T>, start: int, stop: int)
    ensures var lo, hi := SanitizeStartIndex(|values|, start), SanitizeStopIndex(|values|, stop);
            && 0 <= lo && hi < |values|
            && Range(values, start, stop) == if lo > hi then [] else values[lo..hi + 1]
  {
    var lo, hi := SanitizeStartIndex(|values|, start), SanitizeStopIndex(|values|, stop);
    SanitizedRange(values, start, stop);
    if lo <= hi {
      WithinSame(values, Position(|values|, start), Position(|values|, stop), lo, hi);
      RangeIsSlice(values, lo, hi);
    }
  }

  // ---------- LINSERT ----------

  const BEFORE := "before"
  const AFTER := "after"

  /** The position of the first occurrence of x. */
  function IndexOf(values: seq<Str>, x: Str): (i: nat)
    requires x in values
    ensures i < |values| && values[i] == x && x !in values[..i]
  {
    if values[0] == x then 0
    else
      assert x in values[1..];
      var i := 1 + IndexOf(values[1..], x);
      assert values[..i] == [values[0]] + values[1..][..i - 1];
      i
  }

  /** The place where LINSERT puts an element: just before or just after the pivot's first occurrence. */
  function InsertPosition(values: seq<Str>, pivot: Str, where: string): nat
    requires pivot in values
  {
    IndexOf(values, pivot) + if where == "after" then 1 else 0
  }

  datatype InsertReply = InsertReply(length: int, syntaxError: bool)

  /** The answer to LINSERT. */
  function ReplyOf(values: seq<Str>, pivot: Str, where: string): InsertReply {
    if values == [] then InsertReply(-1, false)
    else if where != "before" && where != "after" then InsertReply(-1, true)
    else if pivot in values then InsertReply(|values| + 1, false)
    else InsertReply(-1, false)
  }

  /** The values after LINSERT. */
  function Inserted(values: seq<Str>, pivot: Str, element: Str, where: string): seq<Str> {
    if (where == "before" || where == "after") && pivot in values then
      var i := InsertPosition(values, pivot, where);
      values[..i] + [element] + values[i..]
    else values
  }

  /** A position found by a scan from the left is the first occurrence. */
  lemma FirstIs(values: seq<Str>, x: Str, i: nat)
    requires i < |values| && values[i] == x && x !in values[..i]
    ensures x in values && IndexOf(values, x) == i
  {
    assert forall m :: 0 <= m < i ==> values[m] == values[..i][m];
    var k := IndexOf(values, x);
    assert forall m :: 0 <= m < k ==> values[m] == values[..k][m];
  }

  /** What LINSERT does where it finds the pivot. */
  lemma InsertedAt(values: seq<Str>, pivot: Str, element: Str, where: string, i: nat)
    requires i < |values| && values[i] == pivot && pivot !in values[..i]
    requires where == BEFORE || where == AFTER
    ensures ReplyOf(values, pivot, where) == InsertReply(|values| + 1, false)
    ensures var at := if where == BEFORE then i else i + 1;
            Inserted(values, pivot, element, where) == values[..at] + [element] + values[at..]
  {
    FirstIs(values, pivot, i);
  }

  /** What it does where it does not insert. */
  lemma NotInserted(values: seq<Str>, pivot: Str, element: Str, where: string)
    requires pivot !in values || (where != BEFORE && where != AFTER)
    ensures ReplyOf(values, pivot, where) == InsertReply(-1, values != [] && where != BEFORE && where != AFTER)
    ensures Inserted(values, pivot, element, where) == values
  {
  }
}
