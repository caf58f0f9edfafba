/** Which keys an eviction may choose, as a matter of access times alone, and when it must spare a key. */
module Evictions {
  import opened Decimal

  type Times = map<Str, int>

  /** n keys go, and none that stays was accessed earlier than one that goes. */
  ghost predicate Legal(before: Times, n: nat, gone: set<Str>) {
    gone <= before.Keys && |gone| == n && Spares(before, gone)
  }

  ghost predicate Spares(before: Times, gone: set<Str>) {
    forall v, a :: v in gone && v in before && a in before && a !in gone ==> before[v] <= before[a]
  }

  /** The keys accessed before a time. */
  function Older(before: Times, t: int): set<Str> {
    set a | a in before && before[a] < t
  }

  function KeySet(s: seq<Str>): set<Str> {
    set i | 0 <= i < |s| :: s[i]
  }

  /** An order in which a table can be walked: every key once. */
  ghost predicate Listing(order: seq<Str>, keys: set<Str>) {
    && (forall i, j :: 0 <= i < j < |order| ==> order[i] != order[j])
    && KeySet(order) == keys
  }

  /** A legal eviction; where the first n keys walked are one, those go. */
  ghost predicate EvictedBy(before: Times, order: seq<Str>, n: nat, gone: set<Str>)
    requires n <= |order|
  {
    && Legal(before, n, gone)
    && (Legal(before, n, KeySet(order[..n])) ==> gone == KeySet(order[..n]))
  }

  lemma {:induction false} ListingSize(order: seq<Str>, keys: set<Str>)
    requires Listing(order, keys)
    ensures |order| == |keys|
  {
    if order == [] {
      assert keys == {};
    } else {
      var n := |order| - 1;
      var x := order[n];
      KeySetLast(order);
      assert x !in KeySet(order[..n]);
      ListingSize(order[..n], keys - {x});
    }
  }

  lemma KeySetLast(s: seq<Str>)
    requires s != []
    ensures KeySet(s) == KeySet(s[..|s| - 1]) + {s[|s| - 1]}
  {
    var n := |s| - 1;
    assert forall i :: 0 <= i < n ==> s[i] == s[..n][i];
    forall x | x in KeySet(s[..n])
      ensures x in KeySet(s)
    {
      var i :| 0 <= i < n && s[..n][i] == x;
      assert s[i] == x;
    }
  }

  lemma ListingOne(k: Str)
    ensures Listing([], {}) && Listing([k], {k})
  {
    KeySetLast([k]);
  }

  lemma NextKey(order: seq<Str>, i: nat)
    requires i < |order|
    ensures KeySet(order[..i + 1]) == KeySet(order[..i]) + {order[i]}
  {
    KeySetLast(order[..i + 1]);
    assert order[..i + 1][..i] == order[..i];
  }

  lemma LaterKey(order: seq<Str>, keys: set<Str>, n: nat, i: nat)
    requires Listing(order, keys) && n <= i < |order|
    ensures order[i] in keys && order[i] !in KeySet(order[..n])
  {
  }

  /** The first keys of a walk are as many as were walked. */
  lemma PartOfListing(order: seq<Str>, keys: set<Str>, i: nat)
    requires Listing(order, keys) && i <= |order|
    ensures KeySet(order[..i]) <= keys && |KeySet(order[..i])| == i
  {
    assert forall k :: 0 <= k < i ==> order[..i][k] == order[k];
    ListingSize(order[..i], KeySet(order[..i]));
  }

  lemma NoneEvicted(before: Times, order: seq<Str>)
    ensures EvictedBy(before, order, 0, {})
  {
  }

  lemma EvictedSize(before: Times, order: seq<Str>, n: nat, gone: set<Str>)
    requires n <= |order| && EvictedBy(before, order, n, gone)
    ensures gone <= before.Keys && |gone| == n
  {
  }

  lemma SubsetSize<T>(a: set<T>, b: set<T>)
    requires a <= b
    ensures |a| <= |b|
    ensures |a| == |b| ==> a == b
  {
    assert b == a + (b - a);
  }

  /** A key of least access time. */
  lemma {:induction false} Oldest(before: Times, rest: set<Str>) returns (m: Str)
    requires rest != {} && rest <= before.Keys
    ensures m in rest && forall a :: a in rest ==> before[m] <= before[a]
    decreases |rest|
  {
    m :| m in rest;
    if rest != {m} {
      var m' := Oldest(before, rest - {m});
      if before[m'] < before[m] {
        m := m';
      }
    }
  }

  /** An eviction of too few keys grows to a legal one of n. */
  lemma {:induction false} Grow(before: Times, gone: set<Str>, n: nat) returns (all: set<Str>)
    requires gone <= before.Keys && Spares(before, gone) && |gone| <= n <= |before|
    ensures gone <= all && Legal(before, n, all)
    decreases n - |gone|
  {
    if |gone| == n {
      all := gone;
    } else {
      assert |before.Keys| == |before|;
      assert before.Keys == gone + (before.Keys - gone);
      var m := Oldest(before, before.Keys - gone);
      assert |gone + {m}| == |gone| + 1;
      all := Grow(before, gone + {m}, n);
    }
  }

  /** A key is spared by every legal eviction of n keys exactly when at least n keys are older than it. */
  lemma SparedExactly(before: Times, source: Str, n: nat)
    requires source in before && n <= |before|
    ensures (forall gone :: Legal(before, n, gone) ==> source !in gone) <==> n <= |Older(before, before[source])|
  {
    var older := Older(before, before[source]);
    if n <= |older| {
      forall gone | Legal(before, n, gone)
        ensures source !in gone
      {
        SparedBy(before, source, n, gone);
      }
    } else {
      var gone := LegalWith(before, source, n);
    }
  }

  lemma SparedBy(before: Times, source: Str, n: nat, gone: set<Str>)
    requires source in before && Legal(before, n, gone) && n <= |Older(before, before[source])|
    ensures source !in gone
  {
    if source in gone {
      var older := Older(before, before[source]);
      SubsetSize(older + {source}, gone);
      assert false;
    }
  }

  lemma LegalWith(before: Times, source: Str, n: nat) returns (gone: set<Str>)
    requires source in before && |Older(before, before[source])| < n <= |before|
    ensures Legal(before, n, gone) && source in gone
  {
    var older := Older(before, before[source]);
    assert |older + {source}| == |older| + 1;
    gone := Grow(before, older + {source}, n);
  }

  lemma {:induction false} ListOf(keys: set<Str>) returns (order: seq<Str>)
    ensures Listing(order, keys)
    decreases |keys|
  {
    if keys == {} {
      order := [];
    } else {
      var x :| x in keys;
      var front := ListOf(keys - {x});
      order := front + [x];
      KeySetLast(order);
      assert order[..|front|] == front;
      assert forall i :: 0 <= i < |front| ==> front[i] in KeySet(front);
    }
  }

  lemma KeySetConcat(a: seq<Str>, b: seq<Str>)
    ensures KeySet(a + b) == KeySet(a) + KeySet(b)
  {
    var s := a + b;
    forall x | x in KeySet(a) + KeySet(b)
      ensures x in KeySet(s)
    {
      if x in KeySet(a) {
        var i :| 0 <= i < |a| && a[i] == x;
        assert s[i] == x;
      } else {
        var i :| 0 <= i < |b| && b[i] == x;
        assert s[|a| + i] == x;
      }
    }
  }

  lemma ListingConcat(a: seq<Str>, b: seq<Str>, first: set<Str>, rest: set<Str>)
    requires Listing(a, first) && Listing(b, rest) && first !! rest
    ensures Listing(a + b, first + rest)
  {
    KeySetConcat(a, b);
    assert forall i :: 0 <= i < |a| ==> a[i] in KeySet(a);
    assert forall i :: 0 <= i < |b| ==> b[i] in KeySet(b);
    forall i, j | 0 <= i < j < |a + b|
      ensures (a + b)[i] != (a + b)[j]
    {
      if i < |a| <= j {
        assert a[i] in first && b[j - |a|] in rest;
      }
    }
  }

  /** A walk that starts with the given keys. */
  lemma ListFirst(first: set<Str>, keys: set<Str>) returns (order: seq<Str>)
    requires first <= keys
    ensures Listing(order, keys) && |first| <= |order| && KeySet(order[..|first|]) == first
  {
    hide KeySet;
    var a := ListOf(first);
    var b := ListOf(keys - first);
    order := a + b;
    ListingSize(a, first);
    ListingConcat(a, b, first, keys - first);
    assert first + (keys - first) == keys;
    assert order[..|first|] == a;
  }

  /** Whatever the walk, the eviction spares a key; or some walk makes it go.  Which of the two
      holds depends on how many keys are older. */
  lemma WalksSpareExactly(before: Times, source: Str, n: nat)
    requires source in before && n <= |before|
    ensures (forall order, gone ::
               Listing(order, before.Keys) && n <= |order| && EvictedBy(before, order, n, gone) ==> source !in gone)
            <==> n <= |Older(before, before[source])|
  {
    if n <= |Older(before, before[source])| {
      forall order, gone | Listing(order, before.Keys) && n <= |order| && EvictedBy(before, order, n, gone)
        ensures source !in gone
      {
        SparedBy(before, source, n, gone);
      }
    } else {
      var order, gone := LosingWalk(before, source, n);
      assert EvictedBy(before, order, n, gone);
    }
  }

  /** A walk on which every legal eviction takes the key. */
  lemma LosingWalk(before: Times, source: Str, n: nat) returns (order: seq<Str>, gone: set<Str>)
    requires source in before && |Older(before, before[source])| < n <= |before|
    ensures Listing(order, before.Keys) && n <= |order| && source in gone
    ensures forall other :: EvictedBy(before, order, n, other) <==> other == gone
  {
    gone := LegalWith(before, source, n);
    order := ListFirst(gone, before.Keys);
  }
}
