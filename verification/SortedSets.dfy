/** The sorted set of internal/eval/sortedset/sorted_set.go: a tree ordered by score and
    member beside a map from members to scores.  Scores are real numbers: totally ordered. */
module SortedSets {
  import opened Options
  import opened Decimal
  import opened Orders
  import opened ListSpec

  datatype Item = Item(score: real, member: Str) {
    predicate Less(other: Item) {
      if score != other.score then score < other.score else LexLess(member, other.member)
    }
  }

  lemma LessTransitive(a: Item, b: Item, c: Item)
    requires a.Less(b) && b.Less(c)
    ensures a.Less(c)
  {
    if a.score == b.score == c.score {
      LexTransitive(a.member, b.member, c.member);
    }
  }

  lemma LessTotal(a: Item, b: Item)
    ensures a.Less(b) || a == b || b.Less(a)
    ensures !a.Less(a)
    ensures !(a.Less(b) && b.Less(a))
  {
    LexTotal(a.member, b.member);
    LexIrreflexive(a.member);
    if a.Less(b) && b.Less(a) {
      LessTransitive(a, b, a);
    }
  }

  /** By score, and equal scores by member. */
  ghost predicate Comes(score: real, member: Str, score': real, member': Str) {
    score < score' || (score == score' && LexLess(member, member'))
  }

  lemma LessIs(a: Item, b: Item)
    ensures a.Less(b) <==> Comes(a.score, a.member, b.score, b.member)
  {
  }

  ghost predicate Ascending(items: seq<Item>) {
    forall i, j :: 0 <= i < j < |items| ==> items[i].Less(items[j])
  }

  /** A sequence in ascending order is determined by the items it holds. */
  lemma SameItems(a: seq<Item>, b: seq<Item>)
    requires Ascending(a) && Ascending(b)
    requires forall x :: x in a <==> x in b
    ensures a == b
  {
    hide Item.Less;
    var less := (x: Item, y: Item) => x.Less(y);
    forall x: Item
      ensures !less(x, x)
    {
      LessTotal(x, x);
    }
    forall x: Item, y: Item, z: Item | less(x, y) && less(y, z)
      ensures less(x, z)
    {
      LessTransitive(x, y, z);
    }
    AscendingUnique(less, a, b);
  }

  /** The tree, as the sorted sequence that google/btree keeps. */
  class BTree {
    var items: seq<Item>

    ghost predicate Valid()
      reads this
    {
      Ascending(items)
    }

    constructor ()
      ensures Valid() && items == []
    {
      items := [];
    }

    /** The number of items before the given one. */
    method Find(item: Item) returns (i: nat)
      ensures i <= |items|
      ensures forall k :: 0 <= k < i ==> items[k].Less(item)
      ensures i < |items| ==> !items[i].Less(item)
    {
      i := 0;
      while i < |items| && items[i].Less(item)
        invariant i <= |items|
        invariant forall k :: 0 <= k < i ==> items[k].Less(item)
      {
        i := i + 1;
      }
    }

    method Delete(item: Item)
      requires Valid()
      modifies this
      ensures Valid()
      ensures forall x :: x in items <==> x in old(items) && x != item
    {
      hide Item.Less;
      var i := Find(item);
      Neighbours(items, item, i);
      if i < |items| && !item.Less(items[i]) {
        items := items[..i] + items[i + 1..];
      }
    }

    method ReplaceOrInsert(item: Item)
      requires Valid()
      modifies this
      ensures Valid()
      ensures forall x :: x in items <==> x in old(items) || x == item
    {
      hide Item.Less;
      var i := Find(item);
      Neighbours(items, item, i);
      if i < |items| && !item.Less(items[i]) {
        assert items[i := item] == items;
        items := items[i := item];
      } else {
        items := items[..i] + [item] + items[i..];
      }
    }

    /** Nil when the tree is empty. */
    method DeleteMin() returns (item: Option<Item>)
      modifies this
      ensures old(items) == [] ==> item == None && items == []
      ensures old(items) != [] ==> item == Some(old(items)[0]) && items == old(items)[1..]
    {
      if items == [] {
        return None;
      }
      item := Some(items[0]);
      items := items[1..];
    }

    method DeleteMax() returns (item: Option<Item>)
      modifies this
      ensures old(items) == [] ==> item == None && items == []
      ensures old(items) != [] ==>
                var n := |old(items)| - 1;
                item == Some(old(items)[n]) && items == old(items)[..n]
    {
      if items == [] {
        return None;
      }
      item := Some(items[|items| - 1]);
      items := items[..|items| - 1];
    }
  }

  /** The place of an item among those of a sorted sequence. */
  lemma Neighbours(items: seq<Item>, item: Item, i: nat)
    requires Ascending(items) && i <= |items|
    requires forall k :: 0 <= k < i ==> items[k].Less(item)
    requires i < |items| ==> !items[i].Less(item)
    ensures i < |items| ==> (items[i] == item <==> !item.Less(items[i]))
    ensures forall k :: i < k < |items| ==> item.Less(items[k]) && items[k] != item
    ensures forall k :: 0 <= k < i ==> items[k] != item
    ensures item in items <==> i < |items| && items[i] == item
  {
    hide Item.Less;
    LessTotal(item, item);
    if i < |items| {
      LessTotal(item, items[i]);
      forall k | i < k < |items|
        ensures item.Less(items[k])
      {
        if item != items[i] {
          LessTransitive(item, items[i], items[k]);
        }
      }
    }
  }

  // ---------- the set ----------

  ghost function MembersOf(items: seq<Item>): set<Str> {
    set i | 0 <= i < |items| :: items[i].member
  }

  /** Distinct members are as many as the items that carry them. */
  lemma {:induction false} CountMembers(items: seq<Item>)
    requires forall i, j :: 0 <= i < j < |items| ==> items[i].member != items[j].member
    ensures |MembersOf(items)| == |items|
  {
    if items != [] {
      var n := |items| - 1;
      CountMembers(items[..n]);
      assert MembersOf(items) == MembersOf(items[..n]) + {items[n].member};
    }
  }

  /** The items of a map that come before a given one. */
  ghost function Below(scores: map<Str, real>, item: Item): set<Str> {
    set m | m in scores && Comes(scores[m], m, item.score, item.member)
  }

  ghost function Between(scores: map<Str, real>, lo: real, hi: real): set<Str> {
    set m | m in scores && lo <= scores[m] <= hi
  }

  /** Reads from the other end. */
  function Backwards<T>(s: seq<T>): (r: seq<T>)
    ensures |r| == |s| && forall i :: 0 <= i < |s| ==> r[i] == s[|s| - 1 - i]
  {
    seq(|s|, i requires 0 <= i < |s| => s[|s| - 1 - i])
  }

  /** The answer that lists items, with their scores if asked for. */
  function Render(items: seq<Item>, withScores: bool, format: real -> Str): seq<Str> {
    if items == [] then []
    else
      var n := |items| - 1;
      Render(items[..n], withScores, format)
      + [items[n].member] + (if withScores then [format(items[n].score)] else [])
  }

  lemma NoneRendered(withScores: bool, format: real -> Str)
    ensures Render([], withScores, format) == [] && MembersOf([]) == {}
    ensures forall lo, hi :: Within<Item>([], lo, hi) == []
  {
  }

  lemma RangeStep(order: seq<Item>, n: nat, lo: int, hi: int, withScores: bool, format: real -> Str)
    requires n < |order|
    ensures Render(Within(order[..n + 1], lo, hi), withScores, format)
            == Render(Within(order[..n], lo, hi), withScores, format)
               + (if !(lo <= n <= hi) then []
                  else [order[n].member] + (if withScores then [format(order[n].score)] else []))
  {
    assert order[..n + 1][..n] == order[..n];
    var before := Within(order[..n], lo, hi);
    assert (before + [order[n]])[..|before|] == before && before + [] == before;
    assert Render(before, withScores, format) + [] == Render(before, withScores, format);
  }

  class SortedSet {
    const tree: BTree
    var memberMap: map<Str, real>

    /** The tree is in ascending order and holds exactly the pairs of the map. */
    ghost predicate Valid()
      reads this, tree
    {
      && tree.Valid()
      && forall x :: x in tree.items <==> x.member in memberMap && memberMap[x.member] == x.score
    }

    constructor ()
      ensures Valid() && memberMap == map[] && fresh(tree)
    {
      tree := new BTree();
      memberMap := map[];
    }

    /** The map determines the order of the tree. */
    lemma Determined(items: seq<Item>)
      requires Valid() && Ascending(items)
      requires forall x :: x in items <==> x.member in memberMap && memberMap[x.member] == x.score
      ensures items == tree.items
    {
      SameItems(items, tree.items);
    }

    /** The tree lists the members by score, and those of equal score by name. */
    lemma InOrder(i: nat, j: nat)
      requires Valid() && i < j < |tree.items|
      ensures var a, b := tree.items[i], tree.items[j];
              && a.score <= b.score
              && (a.score == b.score ==>
                    exists k :: 0 <= k <= |a.member| && k < |b.member| && a.member[..k] == b.member[..k]
                                && (k == |a.member| || a.member[k] < b.member[k]))
    {
      var a, b := tree.items[i], tree.items[j];
      LessIs(a, b);
      LexMeans(a.member, b.member);
    }

    lemma Distinct()
      requires Valid()
      ensures forall i, j :: 0 <= i < j < |tree.items| ==> tree.items[i].member != tree.items[j].member
      ensures |tree.items| == |memberMap| && MembersOf(tree.items) == memberMap.Keys
    {
      hide Item.Less;
      var items := tree.items;
      forall i, j | 0 <= i < j < |items|
        ensures items[i].member != items[j].member
      {
        LessTotal(items[i], items[j]);
        assert items[i] in items && items[j] in items;
      }
      CountMembers(items);
      forall m | m in memberMap
        ensures m in MembersOf(items)
      {
        assert Item(memberMap[m], m) in items;
      }
      assert forall i :: 0 <= i < |items| ==> items[i] in items;
      assert MembersOf(items) == memberMap.Keys;
    }

    /** True when the member is new. */
    method Upsert(score: real, member: Str) returns (added: bool)
      requires Valid()
      modifies this, tree
      ensures Valid() && memberMap == old(memberMap)[member := score]
      ensures added == (member !in old(memberMap))
    {
      hide Item.Less, Ascending;
      var known := member in memberMap;
      if known {
        tree.Delete(Item(memberMap[member], member));
      }
      tree.ReplaceOrInsert(Item(score, member));
      memberMap := memberMap[member := score];
      added := !known;
    }

    /** False when there is no such member. */
    method Remove(member: Str) returns (removed: bool)
      requires Valid()
      modifies this, tree
      ensures Valid() && memberMap == old(memberMap) - {member}
      ensures removed == (member in old(memberMap))
    {
      hide Item.Less, Ascending;
      if member !in memberMap {
        assert memberMap == memberMap - {member};
        return false;
      }
      tree.Delete(Item(memberMap[member], member));
      memberMap := memberMap - {member};
      removed := true;
    }

    method Get(member: Str) returns (score: Option<real>)
      requires Valid()
      ensures score == if member in memberMap then Some(memberMap[member]) else None
      ensures forall s :: score == Some(s) <==> Item(s, member) in tree.items
    {
      score := if member in memberMap then Some(memberMap[member]) else None;
    }

    /** The rank of a member is the number of members before it, or after it when counted backwards. */
    method RankWithScore(member: Str, reverse: bool) returns (rank: int, score: real)
      requires Valid()
      ensures member !in memberMap ==> rank == -1
      ensures member in memberMap ==>
                && score == memberMap[member]
                && var below := |Below(memberMap, Item(score, member))|;
                   rank == if reverse then |memberMap| - below - 1 else below
    {
      hide Item.Less, Ascending;
      if member !in memberMap {
        return -1, 0.0;
      }
      score := memberMap[member];
      ghost var item := Item(score, member);
      rank := 0;
      assert item in tree.items && tree.items[..|tree.items|] == tree.items;
      while rank < |tree.items| && tree.items[rank].member != member
        invariant 0 <= rank < |tree.items|
        invariant item !in tree.items[..rank]
      {
        rank := rank + 1;
        assert tree.items[rank - 1] != item;
        assert tree.items[..rank] == tree.items[..rank - 1] + [tree.items[rank - 1]];
      }
      assert tree.items[rank] in tree.items;
      Distinct();
      CountBelow(rank);
      if reverse {
        rank := |memberMap| - rank - 1;
      }
    }

    /** The items before a position are the ones below it. */
    lemma CountBelow(i: nat)
      requires Valid() && i < |tree.items|
      ensures |Below(memberMap, tree.items[i])| == i
    {
      hide Item.Less, Comes;
      Distinct();
      var items, below := tree.items, Below(memberMap, tree.items[i]);
      CountMembers(items[..i]);
      forall m | m in below
        ensures m in MembersOf(items[..i])
      {
        var x := Item(memberMap[m], m);
        var k :| 0 <= k < |items| && items[k] == x;
        LessIs(x, items[i]);
        LessTotal(x, items[i]);
        assert items[..i][k] == x;
      }
      forall k | 0 <= k < i
        ensures items[k].member in below
      {
        LessIs(items[k], items[i]);
        assert items[k] in items;
      }
      assert below == MembersOf(items[..i]);
    }

    /** Positions counted from the front, cut down to those that exist. */
    static method Adjust(start: int, stop: int, length: nat) returns (start': int, stop': int)
      ensures start' == SanitizeStartIndex(length, start) && stop' == SanitizeStopIndex(length, stop)
    {
      start', stop' := start, stop;
      if start' < 0 {
        start' := start' + length;
      }
      if stop' < 0 {
        stop' := stop' + length;
      }
      if start' < 0 {
        start' := 0;
      }
      if stop' >= length {
        stop' := length - 1;
      }
    }

    /** The members between two positions, counted from either end of the order. */
    method GetRange(start: int, stop: int, withScores: bool, reverse: bool, format: real -> Str)
      returns (result: seq<Str>)
      requires Valid()
      ensures var order := if reverse then Backwards(tree.items) else tree.items;
              result == Render(Range(order, start, stop), withScores, format)
    {
      hide Render, Within, Item.Less, Ascending, Backwards;
      NoneRendered(withScores, format);
      ghost var order := if reverse then Backwards(tree.items) else tree.items;
      ghost var lo, hi := Position(|order|, start), Position(|order|, stop);
      SanitizedRange(order, start, stop);
      var length := |tree.items|;
      var start', stop' := Adjust(start, stop, length);
      result := [];
      if start' > stop' || start' >= length {
        return;
      }
      var index := 0;
      while index < length
        invariant 0 <= index <= length
        invariant result == Render(Within(order[..index], lo, hi), withScores, format)
      {
        if index > stop' {
          WithinStop(order, index, lo, hi);
          return;
        }
        var item := if reverse then tree.items[length - 1 - index] else tree.items[index];
        assert item == order[index];
        RangeStep(order, index, lo, hi, withScores, format);
        if index >= start' {
          result := result + [item.member];
          if withScores {
            result := result + [format(item.score)];
          }
        }
        index := index + 1;
      }
      assert order[..length] == order;
    }

    /** Stopping at the first score above the range misses no member. */
    method CountInRange(minVal: real, maxVal: real) returns (count: nat)
      requires Valid()
      ensures count == |Between(memberMap, minVal, maxVal)|
    {
      hide Item.Less;
      ghost var found: set<Str> := {};
      count := 0;
      var i := 0;
      Distinct();
      while i < |tree.items|
        invariant 0 <= i <= |tree.items|
        invariant count == |found|
        invariant found == set k | 0 <= k < i && minVal <= tree.items[k].score <= maxVal :: tree.items[k].member
      {
        var elem := tree.items[i];
        if elem.score < minVal {
        } else if elem.score > maxVal {
          break;
        } else {
          assert elem.member !in found;
          count := count + 1;
          found := found + {elem.member};
        }
        i := i + 1;
      }
      AllFound(i, minVal, maxVal);
      assert found == Between(memberMap, minVal, maxVal);
    }

    /** Past an item above the range there is none inside it. */
    lemma AllFound(i: nat, minVal: real, maxVal: real)
      requires Valid() && i <= |tree.items|
      requires i < |tree.items| ==> tree.items[i].score > maxVal
      ensures Between(memberMap, minVal, maxVal)
              == set k | 0 <= k < i && minVal <= tree.items[k].score <= maxVal :: tree.items[k].member
    {
      var items := tree.items;
      forall m | m in Between(memberMap, minVal, maxVal)
        ensures exists k :: 0 <= k < i && items[k] == Item(memberMap[m], m)
      {
        var x := Item(memberMap[m], m);
        var k :| 0 <= k < |items| && items[k] == x;
        assert i < k ==> items[i].Less(items[k]);
      }
      assert forall k :: 0 <= k < i ==> items[k] in items;
    }

    /** What is left without an item at one end. */
    lemma WithoutEnd(rest: seq<Item>, item: Item)
      requires Valid() && (tree.items == [item] + rest || tree.items == rest + [item])
      ensures Ascending(rest) && item.member in memberMap
      ensures forall x :: x in rest <==> x.member in memberMap - {item.member} && memberMap[x.member] == x.score
    {
      hide Item.Less;
      var items := tree.items;
      assert item in items;
      var (at, shift) := if items == [item] + rest then (0, 1) else (|rest|, 0);
      assert items[at] == item && forall i :: 0 <= i < |rest| ==> items[i + shift] == rest[i];
      forall x | x in rest
        ensures x.member != item.member && x in items
      {
        var i :| 0 <= i < |rest| && rest[i] == x;
        assert items[i + shift] == x;
        LessTotal(x, item);
      }
    }

    /** Removes the first items and returns them in order. */
    method PopMin(count: nat, format: real -> Str) returns (result: seq<Str>)
      requires Valid()
      modifies this, tree
      ensures Valid()
      ensures var items := old(tree.items);
              var k := if count < |items| then count else |items|;
              && result == Render(items[..k], true, format)
              && tree.items == items[k..]
              && memberMap == old(memberMap) - MembersOf(items[..k])
    {
      hide Item.Less, Ascending, Render, MembersOf;
      NoneRendered(true, format);
      ghost var items := tree.items;
      result := [];
      var i := 0;
      while i < count
        invariant 0 <= i <= count && i <= |items|
        invariant Valid() && tree.items == items[i..]
        invariant memberMap == old(memberMap) - MembersOf(items[..i])
        invariant result == Render(items[..i], true, format)
      {
        if tree.items != [] {
          assert tree.items == [items[i]] + items[i + 1..];
          WithoutEnd(items[i + 1..], items[i]);
          OneMore(items[..i], items[i], format);
          assert items[..i + 1] == items[..i] + [items[i]];
        }
        var item := tree.DeleteMin();
        if item == None {
          break;
        }
        result := result + [item.value.member] + [format(item.value.score)];
        memberMap := memberMap - {item.value.member};
        i := i + 1;
      }
    }

    /** Removes the last items and returns them from the last on. */
    method PopMax(count: nat, format: real -> Str) returns (result: seq<Str>)
      requires Valid()
      modifies this, tree
      ensures Valid()
      ensures var items := old(tree.items);
              var k := if count < |items| then count else |items|;
              && result == Render(Backwards(items)[..k], true, format)
              && tree.items == items[..|items| - k]
              && memberMap == old(memberMap) - MembersOf(Backwards(items)[..k])
    {
      hide Item.Less, Ascending, Render, MembersOf, Backwards;
      NoneRendered(true, format);
      ghost var items, down := tree.items, Backwards(tree.items);
      ghost var n := |items|;
      result := [];
      var i := 0;
      while i < count
        invariant 0 <= i <= count && i <= n
        invariant Valid() && tree.items == items[..n - i]
        invariant memberMap == old(memberMap) - MembersOf(down[..i])
        invariant result == Render(down[..i], true, format)
      {
        if tree.items != [] {
          assert tree.items == items[..n - i - 1] + [down[i]];
          WithoutEnd(items[..n - i - 1], down[i]);
          OneMore(down[..i], down[i], format);
          assert down[..i + 1] == down[..i] + [down[i]];
        }
        var item := tree.DeleteMax();
        if item == None {
          break;
        }
        result := result + [item.value.member] + [format(item.value.score)];
        memberMap := memberMap - {item.value.member};
        i := i + 1;
      }
    }
  }

  lemma OneMore(items: seq<Item>, item: Item, format: real -> Str)
    ensures Render(items + [item], true, format) == Render(items, true, format) + [item.member] + [format(item.score)]
    ensures MembersOf(items + [item]) == MembersOf(items) + {item.member}
  {
    var all := items + [item];
    assert all[..|items|] == items && all[|items|] == item;
    assert forall i :: 0 <= i < |items| ==> all[i] == items[i];
    forall m | m in MembersOf(items)
      ensures m in MembersOf(all)
    {
      var i :| 0 <= i < |items| && items[i].member == m;
      assert all[i].member == m;
    }
  }
}
