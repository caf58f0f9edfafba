/** The order in which internal/wal/wal_forge.go reads the segments back, which is the order of
    their names. */
module WalNames {
  import opened Decimal
  import opened Orders
  import opened WalFrames
  import opened WalLayouts

  const PREFIX: Str := [115, 101, 103, 45] // "seg-"
  const SUFFIX: Str := [46, 119, 97, 108] // ".wal"

  function SegmentName(i: nat): Str {
    PREFIX + Digits(i) + SUFFIX
  }

  /** "seg-", the number, and ".wal". */
  lemma NameIs(i: nat)
    ensures SegmentName(i) == [115, 101, 103, 45] + Digits(i) + [46, 119, 97, 108]
  {
  }

  lemma LexFirst(a: Str, b: Str)
    requires a != [] && b != [] && a[0] == b[0]
    ensures LexLess(a, b) <==> LexLess(a[1..], b[1..])
  {
  }

  lemma {:induction false} LexPrefix(p: Str, a: Str, b: Str)
    ensures LexLess(p + a, p + b) <==> LexLess(a, b)
  {
    hide LexLess;
    if p == [] {
      assert p + a == a && p + b == b;
    } else {
      LexFirst(p + a, p + b);
      LexPrefix(p[1..], a, b);
      assert (p + a)[1..] == p[1..] + a && (p + b)[1..] == p[1..] + b;
    }
  }

  /** The files come back in the order of their names, which is the order of their numbers
      exactly while there are at most ten. */
  lemma NameOrder(n: nat)
    ensures (forall i, j :: 0 <= i < j < n ==> LexLess(SegmentName(i), SegmentName(j))) <==> n <= 10
  {
    hide LexLess;
    forall i, j | 0 <= i < j < n && n <= 10
      ensures LexLess(SegmentName(i), SegmentName(j))
    {
      ByFirstDigit(i, j);
    }
    if n > 10 {
      ByFirstDigit(2, 10);
    }
  }

  lemma ByFirstDigit(i: nat, j: nat)
    requires i < 10 && i < j <= 10 && (j < 10 || 2 <= i)
    ensures LexLess(SegmentName(i), SegmentName(j)) <==> j < 10
  {
    var a, b := Digits(i) + SUFFIX, Digits(j) + SUFFIX;
    LexPrefix(PREFIX, a, b);
    assert SegmentName(i) == PREFIX + a && SegmentName(j) == PREFIX + b;
    assert a[0] == 48 + i && b[0] == if j < 10 then 48 + j else 49;
  }

  /** The files as they come back by name: `order` lists the segment numbers in the order of
      their names. */
  ghost predicate ByName(order: seq<nat>, n: nat) {
    && (forall i :: i in order <==> 0 <= i < n)
    && forall i, j :: 0 <= i < j < |order| ==> LexLess(SegmentName(order[i]), SegmentName(order[j]))
  }

  function Picked(files: seq<Str>, order: seq<nat>): (picked: seq<Str>)
    requires forall k :: 0 <= k < |order| ==> order[k] < |files|
    ensures |picked| == |order|
  {
    seq(|order|, k requires 0 <= k < |order| => files[order[k]])
  }

  function UpTo(n: nat): (s: seq<nat>)
    ensures |s| == n
  {
    seq(n, i => i)
  }

  /** The order by name is the order by number exactly while there are at most ten segments. */
  lemma NameOrderIsNumberOrder(order: seq<nat>, n: nat)
    requires ByName(order, n)
    ensures order == UpTo(n) <==> n <= 10
  {
    hide LexLess;
    NameOrder(n);
    if n <= 10 {
      var less := (i: nat, j: nat) => i < j;
      assert AscendingBy(less, order) by {
        forall i, j | 0 <= i < j < |order|
          ensures order[i] < order[j]
        {
          assert order[i] in order && order[j] in order;
          NamesDiffer(order[i], order[j], n);
        }
      }
      forall i: nat | i < n
        ensures i in UpTo(n)
      {
        assert UpTo(n)[i] == i;
      }
      AscendingUnique(less, order, UpTo(n));
    } else if order == UpTo(n) {
      forall i, j | 0 <= i < j < n
        ensures LexLess(SegmentName(i), SegmentName(j))
      {
        assert order[i] == i && order[j] == j;
      }
      assert false;
    }
  }

  /** Below ten, a name that comes first belongs to a smaller number. */
  lemma NamesDiffer(i: nat, j: nat, n: nat)
    requires i < n <= 10 && j < n && LexLess(SegmentName(i), SegmentName(j))
    ensures i < j
  {
    hide LexLess;
    NameOrder(n);
    LexIrreflexive(SegmentName(i));
    if j < i {
      LexTransitive(SegmentName(i), SegmentName(j), SegmentName(i));
    }
  }

  // ---------- what replay by name delivers ----------

  ghost predicate AllSegmentsCarry<C(!new)>(codec: Codec<C>, entries: seq<seq<Element>>) {
    forall i :: 0 <= i < |entries| ==> AllCarry(codec, entries[i])
  }

  function Written<C>(codec: Codec<C>, entries: seq<seq<Element>>): (files: seq<Str>)
    ensures |files| == |entries|
  {
    seq(|entries|, i requires 0 <= i < |entries| => Frames(codec, entries[i]))
  }

  /** Replay by name, with no crash at all, delivers the first commands that were logged. */
  ghost predicate DeliversFirst<C(!new)>(codec: Codec<C>, entries: seq<seq<Element>>, order: seq<nat>)
    requires AllCarry(codec, Concat(entries)) && forall k :: 0 <= k < |order| ==> order[k] < |entries|
  {
    ReadAll(codec, Picked(Written(codec, entries), order)).0 <= Commands(codec, Concat(entries))
  }

  lemma ReadWritten<C(!new)>(codec: Codec<C>, entries: seq<seq<Element>>)
    requires Sound(codec) && AllSegmentsCarry(codec, entries)
    ensures AllCarry(codec, Concat(entries))
    ensures ReadAll(codec, Written(codec, entries)) == (Commands(codec, Concat(entries)), AtEnd)
  {
    hide Sound, Carries, Frames, Frame, ReadSegment, AllCarry, Concat;
    if entries == [] {
      NoEntries();
      NoneDelivered(codec);
    } else {
      var n := |entries| - 1;
      var files := Written(codec, entries);
      ReadClosed(codec, entries[..n], files[..n], files[n]);
      assert files == files[..n] + [files[n]];
      ReadWholeSegment(codec, entries[n]);
      CommandsConcat(codec, Concat(entries[..n]), entries[n]);
      ConcatLast(entries);
    }
  }

  lemma NoneDelivered<C(!new)>(codec: Codec<C>)
    ensures AllCarry(codec, []) && Commands(codec, []) == [] && ReadAll(codec, []) == ([], AtEnd)
  {
  }

  /** Only two segments hold anything. */
  ghost predicate OnlyTwo(entries: seq<seq<Element>>, i: nat, j: nat, a: Element, b: Element) {
    && i < j < |entries| && entries[i] == [a] && entries[j] == [b]
    && forall k :: 0 <= k < |entries| && k != i && k != j ==> entries[k] == []
  }

  lemma {:induction false} ConcatTwo(entries: seq<seq<Element>>, i: nat, j: nat, a: Element, b: Element, k: nat)
    requires OnlyTwo(entries, i, j, a, b) && k <= |entries|
    ensures Concat(entries[..k]) == (if i < k then [a] else []) + (if j < k then [b] else [])
    decreases k
  {
    if k > 0 {
      ConcatTwo(entries, i, j, a, b, k - 1);
      assert entries[..k][..k - 1] == entries[..k - 1];
    }
  }

  lemma DeliversTwo<C(!new)>(codec: Codec<C>, entries: seq<seq<Element>>, i: nat, j: nat, a: Element, b: Element)
    requires Sound(codec) && Carries(codec, a) && Carries(codec, b) && OnlyTwo(entries, i, j, a, b)
    ensures AllSegmentsCarry(codec, entries) && Concat(entries) == [a, b]
    ensures AllCarry(codec, [a, b]) && ReadAll(codec, Written(codec, entries)).0 == Commands(codec, [a, b])
  {
    hide Sound, Carries, ReadAll, Commands, Concat;
    ConcatTwo(entries, i, j, a, b, |entries|);
    assert entries[..|entries|] == entries;
    ReadWritten(codec, entries);
  }

  /** With two segments in use, an earlier and a later one, and the names in the other order. */
  lemma TwoByName(entries: seq<seq<Element>>, order: seq<nat>, a: Element, b: Element)
    returns (picked: seq<seq<Element>>, i: nat, j: nat)
    requires |entries| > 10 && ByName(order, |entries|) && OnlyTwo(entries, 2, 10, a, b)
    ensures forall k :: 0 <= k < |order| ==> order[k] < |entries|
    ensures |picked| == |order| && forall k :: 0 <= k < |order| ==> picked[k] == entries[order[k]]
    ensures OnlyTwo(picked, i, j, b, a)
  {
    hide LexLess, SegmentName;
    assert forall k :: 0 <= k < |order| ==> order[k] in order;
    assert 10 in order && 2 in order;
    i :| 0 <= i < |order| && order[i] == 10;
    j :| 0 <= j < |order| && order[j] == 2;
    ByFirstDigit(2, 10);
    picked := seq(|order|, k requires 0 <= k < |order| => entries[order[k]]);
    forall k, l | 0 <= k < l < |order|
      ensures order[k] != order[l]
    {
      LexIrreflexive(SegmentName(order[k]));
    }
  }

  /** Replay by name delivers the first commands logged, whatever the log holds, exactly while
      there are at most ten segments, if there are two different commands to log. */
  lemma ByNameExactly<C(!new)>(codec: Codec<C>, order: seq<nat>, n: nat, a: Element, b: Element)
    requires Sound(codec) && ByName(order, n) && Carries(codec, a) && Carries(codec, b)
    requires Commands(codec, [a]) != Commands(codec, [b])
    ensures (forall entries | |entries| == n && AllSegmentsCarry(codec, entries) ::
               (forall k :: 0 <= k < |order| ==> order[k] < n) && AllCarry(codec, Concat(entries))
               && DeliversFirst(codec, entries, order))
            <==> n <= 10
  {
    hide Sound, Carries, ReadAll, Concat, LexLess, Frames, Frame;
    assert forall k :: 0 <= k < |order| ==> order[k] in order;
    if n <= 10 {
      NameOrderIsNumberOrder(order, n);
      forall entries | |entries| == n && AllSegmentsCarry(codec, entries)
        ensures AllCarry(codec, Concat(entries)) && DeliversFirst(codec, entries, order)
      {
        ReadWritten(codec, entries);
        assert Picked(Written(codec, entries), order) == Written(codec, entries);
      }
    } else {
      var entries := seq(n, i => if i == 2 then [a] else if i == 10 then [b] else []);
      DeliversTwo(codec, entries, 2, 10, a, b);
      var picked, i, j := TwoByName(entries, order, a, b);
      DeliversTwo(codec, picked, i, j, b, a);
      assert Picked(Written(codec, entries), order) == Written(codec, picked);
      assert Commands(codec, [a, b])[0] == Commands(codec, [a])[0];
      assert Commands(codec, [b, a])[0] == Commands(codec, [b])[0];
      assert Commands(codec, [b, a])[0] != Commands(codec, [a, b])[0];
      assert !DeliversFirst(codec, entries, order);
    }
  }
}
