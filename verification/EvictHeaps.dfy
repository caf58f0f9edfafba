/** The max-heap of internal/store/batchevictionlru.go with the sift operations of container/heap. */
module EvictHeaps {
  import opened Decimal

  datatype EvictionItem = EvictionItem(key: Str, lastAccessed: int)

  function Parent(k: nat): (p: nat)
    requires 0 < k
    ensures p < k
  {
    (k - 1) / 2
  }

  /** No item is older than a child of it, except perhaps that the child at `out` is out of place. */
  ghost predicate UpHeap(s: seq<EvictionItem>, out: nat) {
    && (forall k :: 0 < k < |s| && k != out ==> s[k].lastAccessed <= s[Parent(k)].lastAccessed)
    && (forall k :: 0 < k < |s| && Parent(k) == out && 0 < out ==> s[k].lastAccessed <= s[Parent(out)].lastAccessed)
  }

  /** The first n items are a heap, except perhaps that the item at `out` is older than its children. */
  ghost predicate DownHeap(s: seq<EvictionItem>, n: nat, out: nat)
    requires n <= |s|
  {
    && (forall k :: 0 < k < n && Parent(k) != out ==> s[k].lastAccessed <= s[Parent(k)].lastAccessed)
    && (forall k :: 0 < k < n && Parent(k) == out && 0 < out ==> s[k].lastAccessed <= s[Parent(out)].lastAccessed)
  }

  ghost predicate Heap(s: seq<EvictionItem>) {
    forall k :: 0 < k < |s| ==> s[k].lastAccessed <= s[Parent(k)].lastAccessed
  }

  lemma {:induction false} TopIsMax(s: seq<EvictionItem>, k: nat)
    requires Heap(s) && k < |s|
    ensures s[k].lastAccessed <= s[0].lastAccessed
  {
    if k > 0 {
      TopIsMax(s, Parent(k));
    }
  }

  function Swapped(s: seq<EvictionItem>, i: nat, j: nat): (r: seq<EvictionItem>)
    requires i < |s| && j < |s|
    ensures |r| == |s| && multiset(r) == multiset(s)
  {
    s[i := s[j]][j := s[i]]
  }

  class EvictionItemHeap {
    var items: seq<EvictionItem>

    ghost predicate Valid()
      reads this
    {
      Heap(items)
    }

    constructor ()
      ensures Valid() && items == []
    {
      items := [];
    }

    /** Less puts the item accessed last on top. */
    predicate Less(i: nat, j: nat)
      requires i < |items| && j < |items|
      reads this
    {
      items[i].lastAccessed > items[j].lastAccessed
    }

    method Up(start: nat)
      requires start < |items| && UpHeap(items, start)
      modifies this
      ensures Valid() && multiset(items) == multiset(old(items))
    {
      var j: nat := start;
      while true
        invariant j < |items| && UpHeap(items, j)
        invariant multiset(items) == multiset(old(items))
        decreases j
      {
        var i := if j == 0 then 0 else Parent(j);
        if i == j || !Less(j, i) {
          break;
        }
        UpStep(items, j);
        items := Swapped(items, i, j);
        j := i;
      }
    }

    method Down(n: nat)
      requires n <= |items| && DownHeap(items, n, 0)
      modifies this
      ensures |items| == |old(items)| && items[n..] == old(items[n..])
      ensures Heap(items[..n]) && multiset(items) == multiset(old(items))
    {
      hide DownHeap, Heap, LargestChild, Swapped;
      var i: nat := 0;
      while 2 * i + 1 < n
        invariant |items| == |old(items)| && items[n..] == old(items[n..])
        invariant DownHeap(items, n, i) && multiset(items) == multiset(old(items))
        decreases n - i
      {
        var j := 2 * i + 1;
        if j + 1 < n && Less(j + 1, j) {
          j := j + 1;
        }
        PickedLargest(items, n, i, j);
        if !Less(j, i) {
          HeapDone(items, n, i, j);
          return;
        }
        DownStep(items, n, i, j);
        items := Swapped(items, i, j);
        i := j;
      }
      HeapLeaf(items, n, i);
    }

    method Push(item: EvictionItem)
      requires Valid()
      modifies this
      ensures Valid() && multiset(items) == multiset(old(items)) + multiset{item}
    {
      items := items + [item];
      Up(|items| - 1);
    }

    /** Removes an item accessed last. */
    method Pop() returns (item: EvictionItem)
      requires Valid() && items != []
      modifies this
      ensures Valid() && item == old(items)[0] && multiset(items) == multiset(old(items)) - multiset{item}
      ensures forall x :: x in old(items) ==> x.lastAccessed <= item.lastAccessed
    {
      hide DownHeap, Heap, Swapped;
      AllBelowTop(items);
      var n := |items| - 1;
      LastOnTop(items);
      items := Swapped(items, 0, n);
      Down(n);
      item := items[n];
      assert item == items[n..][0];
      WithoutLast(items, old(items));
      items := items[..n];
    }
  }

  lemma AllBelowTop(s: seq<EvictionItem>)
    requires Heap(s) && s != []
    ensures forall x :: x in s ==> x.lastAccessed <= s[0].lastAccessed
  {
    forall k | 0 <= k < |s|
      ensures s[k].lastAccessed <= s[0].lastAccessed
    {
      TopIsMax(s, k);
    }
  }

  lemma WithoutLast(s: seq<EvictionItem>, was: seq<EvictionItem>)
    requires s != [] && multiset(s) == multiset(was)
    ensures multiset(s[..|s| - 1]) == multiset(was) - multiset{s[|s| - 1]}
  {
    var n := |s| - 1;
    assert s == s[..n] + [s[n]];
  }

  lemma UpStep(s: seq<EvictionItem>, j: nat)
    requires 0 < j < |s| && UpHeap(s, j) && s[j].lastAccessed > s[Parent(j)].lastAccessed
    ensures UpHeap(Swapped(s, Parent(j), j), Parent(j))
  {
    var i := Parent(j);
    var t := Swapped(s, i, j);
    forall k | 0 < k < |t| && k != i
      ensures t[k].lastAccessed <= t[Parent(k)].lastAccessed
    {
      assert s[k].lastAccessed <= s[Parent(k)].lastAccessed || k == j;
    }
    if i > 0 {
      assert s[i].lastAccessed <= s[Parent(i)].lastAccessed;
    }
  }

  /** No child of i was accessed later than j, which is one. */
  ghost predicate LargestChild(s: seq<EvictionItem>, n: nat, i: nat, j: nat)
    requires n <= |s|
  {
    && i < j < n && Parent(j) == i
    && forall k :: 0 < k < n && Parent(k) == i ==> s[k].lastAccessed <= s[j].lastAccessed
  }

  lemma PickedLargest(s: seq<EvictionItem>, n: nat, i: nat, j: nat)
    requires 2 * i + 1 < n <= |s|
    requires j == if 2 * i + 2 < n && s[2 * i + 2].lastAccessed > s[2 * i + 1].lastAccessed
                  then 2 * i + 2 else 2 * i + 1
    ensures LargestChild(s, n, i, j)
  {
  }

  lemma DownStep(s: seq<EvictionItem>, n: nat, i: nat, j: nat)
    requires n <= |s| && DownHeap(s, n, i) && LargestChild(s, n, i, j)
    requires s[j].lastAccessed > s[i].lastAccessed
    ensures DownHeap(Swapped(s, i, j), n, j)
    ensures Swapped(s, i, j)[n..] == s[n..]
  {
    var t := Swapped(s, i, j);
    forall k | 0 < k < n && Parent(k) != j
      ensures t[k].lastAccessed <= t[Parent(k)].lastAccessed
    {
      assert Parent(k) == i || s[k].lastAccessed <= s[Parent(k)].lastAccessed;
    }
  }

  lemma HeapDone(s: seq<EvictionItem>, n: nat, i: nat, j: nat)
    requires n <= |s| && DownHeap(s, n, i) && LargestChild(s, n, i, j)
    requires s[j].lastAccessed <= s[i].lastAccessed
    ensures Heap(s[..n])
  {
  }

  lemma HeapLeaf(s: seq<EvictionItem>, n: nat, i: nat)
    requires n <= |s| && DownHeap(s, n, i) && n <= 2 * i + 1
    ensures Heap(s[..n])
  {
  }

  lemma LastOnTop(s: seq<EvictionItem>)
    requires Heap(s) && s != []
    ensures DownHeap(Swapped(s, 0, |s| - 1), |s| - 1, 0)
    ensures Swapped(s, 0, |s| - 1)[|s| - 1..] == [s[0]]
  {
  }
}
