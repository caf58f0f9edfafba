/** HSCAN of internal/eval/store_eval.go: pages over the sorted fields of a hash. */
module HScans {
  import opened Decimal
  import opened Orders

  /** The fields of a hash in the order of sort.Strings. */
  ghost predicate Lists(keys: seq<Str>, hash: map<Str, Str>) {
    AscendingBy(LEX, keys) && forall x :: x in keys <==> x in hash
  }

  function Filter(keys: seq<Str>, matches: Str -> bool): seq<Str> {
    if keys == [] then []
    else
      var n := |keys| - 1;
      Filter(keys[..n], matches) + (if matches(keys[n]) then [keys[n]] else [])
  }

  /** Fields and their values, alternating. */
  function Render(keys: seq<Str>, hash: map<Str, Str>): seq<Str> {
    if keys == [] then []
    else
      var n := |keys| - 1;
      Render(keys[..n], hash) + [keys[n], if keys[n] in hash then hash[keys[n]] else []]
  }

  lemma {:induction false} FilterHolds(keys: seq<Str>, matches: Str -> bool)
    ensures forall x :: x in Filter(keys, matches) <==> x in keys && matches(x)
  {
    if keys != [] {
      var n := |keys| - 1;
      FilterHolds(keys[..n], matches);
      assert keys == keys[..n] + [keys[n]];
    }
  }

  lemma FilterLast(keys: seq<Str>, x: Str, matches: Str -> bool)
    ensures Filter(keys + [x], matches) == Filter(keys, matches) + (if matches(x) then [x] else [])
  {
    assert (keys + [x])[..|keys|] == keys;
  }

  lemma FilterNone(matches: Str -> bool)
    ensures Filter([], matches) == []
  {
  }

  lemma {:induction false} FilterConcat(a: seq<Str>, b: seq<Str>, matches: Str -> bool)
    ensures Filter(a + b, matches) == Filter(a, matches) + Filter(b, matches)
    decreases |b|
  {
    hide Filter;
    if b == [] {
      FilterNone(matches);
      assert a + b == a;
    } else {
      var front, x := b[..|b| - 1], b[|b| - 1];
      FilterConcat(a, front, matches);
      FilterLast(front, x, matches);
      FilterLast(a + front, x, matches);
      assert b == front + [x] && a + b == (a + front) + [x];
    }
  }

  lemma {:induction false} RenderConcat(a: seq<Str>, b: seq<Str>, hash: map<Str, Str>)
    ensures Render(a + b, hash) == Render(a, hash) + Render(b, hash)
    decreases |b|
  {
    if b == [] {
      assert a + b == a;
    } else {
      var n := |b| - 1;
      RenderConcat(a, b[..n], hash);
      assert (a + b)[..|a| + n] == a + b[..n] && (a + b)[|a| + n] == b[n];
    }
  }

  /** The matching fields of an ascending sequence are in ascending order, so none is listed twice. */
  lemma {:induction false} FilterAscending(keys: seq<Str>, matches: Str -> bool)
    requires AscendingBy(LEX, keys)
    ensures AscendingBy(LEX, Filter(keys, matches))
  {
    if keys != [] {
      var n := |keys| - 1;
      var front := Filter(keys[..n], matches);
      FilterAscending(keys[..n], matches);
      FilterHolds(keys[..n], matches);
      forall i | 0 <= i < |front|
        ensures LEX(front[i], keys[n])
      {
        assert front[i] in keys[..n];
        var k :| 0 <= k < n && keys[k] == front[i];
      }
    }
  }

  /** sort.Strings over the fields, which a map yields in any order. */
  method SortedFields(hash: map<Str, Str>) returns (keys: seq<Str>)
    ensures Lists(keys, hash)
  {
    hide LexLess;
    LexStrict();
    keys := [];
    var todo := hash.Keys;
    while todo != {}
      invariant todo <= hash.Keys
      invariant AscendingBy(LEX, keys)
      invariant forall x :: x in keys <==> x in hash && x !in todo
      decreases |todo|
    {
      var x :| x in todo;
      todo := todo - {x};
      var i := 0;
      while i < |keys| && LEX(keys[i], x)
        invariant 0 <= i <= |keys|
        invariant forall k :: 0 <= k < i ==> LEX(keys[k], x)
      {
        i := i + 1;
      }
      if i < |keys| {
        assert keys[i] in keys;
        LexTotal(keys[i], x);
      }
      keys := keys[..i] + [x] + keys[i..];
    }
  }

  lemma PageNone(matches: Str -> bool, hash: map<Str, Str>)
    ensures Filter([], matches) == [] && Render([], hash) == []
  {
  }

  /** One field more on a page. */
  lemma PageStep(keys: seq<Str>, matches: Str -> bool, hash: map<Str, Str>, from: nat, i: nat)
    requires from <= i < |keys|
    ensures Filter(keys[from..i + 1], matches) ==
            if matches(keys[i]) then Filter(keys[from..i], matches) + [keys[i]] else Filter(keys[from..i], matches)
    ensures keys[i] in hash ==>
              Render(Filter(keys[from..i], matches) + [keys[i]], hash)
              == Render(Filter(keys[from..i], matches), hash) + [keys[i], hash[keys[i]]]
  {
    assert keys[from..i + 1][..i - from] == keys[from..i];
  }

  /** One call: the first `count` matches from the cursor on, and the cursor of the rest.  False
      stands for the panic on a negative cursor, with which the first field is out of range. */
  method Scan(hash: map<Str, Str>, matches: Str -> bool, cursor: int, count: nat, ghost keys: seq<Str>)
    returns (ok: bool, newCursor: nat, results: seq<Str>)
    requires Lists(keys, hash) && 1 <= count
    ensures ok <==> 0 <= cursor
    ensures ok ==> newCursor == 0 || cursor < newCursor < |keys|
    ensures ok ==>
            var end := if newCursor == 0 then |keys| else newCursor;
            var page := if cursor <= end then Filter(keys[cursor..end], matches) else [];
            && results == Render(page, hash)
            && |page| <= count && (newCursor != 0 ==> |page| == count)
  {
    hide Filter, Render, AscendingBy, StrictOrder;
    ok := 0 <= cursor;
    if !ok {
      return false, 0, [];
    }
    var sorted := SortedFields(hash);
    LexStrict();
    AscendingUnique(LEX, sorted, keys);
    PageNone(matches, hash);
    var matched, i := 0, cursor;
    results, newCursor := [], 0;
    assert cursor <= |keys| ==> keys[cursor..cursor] == [];
    while i < |sorted|
      invariant cursor <= i && newCursor == 0
      invariant i <= |sorted| || i == cursor
      invariant i <= |sorted| ==>
                  var page := Filter(keys[cursor..i], matches);
                  results == Render(page, hash) && matched == |page| < count
      invariant i > |sorted| ==> results == []
    {
      PageStep(keys, matches, hash, cursor, i);
      assert keys[i] in keys;
      if matches(sorted[i]) {
        results := results + [sorted[i], hash[sorted[i]]];
        matched := matched + 1;
        if matched >= count {
          newCursor := i + 1;
          break;
        }
      }
      i := i + 1;
    }
    if newCursor >= |sorted| {
      newCursor := 0;
    }
  }

  /** Following the cursors from 0 until 0 comes back lists every matching field exactly once,
      in order, whatever the counts. */
  method ScanAll(hash: map<Str, Str>, matches: Str -> bool, counts: nat -> nat, ghost keys: seq<Str>)
    returns (all: seq<Str>)
    requires Lists(keys, hash) && forall n :: 1 <= counts(n)
    ensures forall x :: x in Filter(keys, matches) <==> x in hash && matches(x)
    ensures AscendingBy(LEX, Filter(keys, matches))
    ensures all == Render(Filter(keys, matches), hash)
  {
    hide Filter, Render, LexLess;
    FilterHolds(keys, matches);
    FilterAscending(keys, matches);
    PageNone(matches, hash);
    var calls, cursor, ok := 1, 0, true;
    ok, cursor, all := Scan(hash, matches, 0, counts(0), keys);
    ghost var end := if cursor == 0 then |keys| else cursor;
    while cursor != 0
      invariant end == if cursor == 0 then |keys| else cursor
      invariant end <= |keys|
      invariant all == Render(Filter(keys[..end], matches), hash)
      decreases cursor != 0, |keys| - cursor
    {
      ghost var from := cursor;
      var results;
      ok, cursor, results := Scan(hash, matches, cursor, counts(calls), keys);
      end := if cursor == 0 then |keys| else cursor;
      assert keys[..end] == keys[..from] + keys[from..end];
      FilterConcat(keys[..from], keys[from..end], matches);
      RenderConcat(Filter(keys[..from], matches), Filter(keys[from..end], matches), hash);
      all := all + results;
      calls := calls + 1;
    }
    assert keys[..|keys|] == keys;
  }
}
