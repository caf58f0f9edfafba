/** The key-value store of internal/store: objects by key, their deadlines in a side table by
    object, and eviction of the keys accessed longest ago.  Every time.Now() of one call reads
    the same `now`, in milliseconds. */
module Stores {
  import opened Options
  import opened Decimal
  import opened EvictHeaps
  import opened Evictions

  class Obj {
    const value: Str
    var LastAccessedAt: int

    constructor (value: Str)
      ensures this.value == value
    {
      this.value := value;
      LastAccessedAt := 0;
    }
  }

  // ---------- the map the store stands for ----------

  /** A value, and when it stops being visible. */
  datatype Rec = Rec(value: Str, deadline: Option<int>) {
    predicate Visible(t: int) {
      deadline.None? || t < deadline.value
    }
  }

  type View = map<Str, Rec>

  /** The keys that can be seen at a time, with their values. */
  ghost function VisibleAt(v: View, t: int): map<Str, Str> {
    map k | k in v && v[k].Visible(t) :: v[k].value
  }

  /** Dropping keys whose deadline has passed changes nothing that can be seen from then on. */
  lemma DropExpired(v: View, ks: set<Str>, now: int)
    requires forall k :: k in ks && k in v ==> !v[k].Visible(now)
    ensures forall t :: now <= t ==> VisibleAt(v - ks, t) == VisibleAt(v, t)
  {
    forall t | now <= t
      ensures VisibleAt(v - ks, t) == VisibleAt(v, t)
    {
      assert forall k :: k in v && k in ks ==> !v[k].Visible(t);
    }
  }

  type Table = map<Str, Obj>

  /** No two keys share an object. */
  ghost predicate Distinct(store: Table) {
    forall a, b :: a in store && b in store && a != b ==> store[a] != store[b]
  }

  function DeadlineOf(expires: map<Obj, int>, obj: Obj): Option<int> {
    if obj in expires then Some(expires[obj]) else None
  }

  ghost function ViewOf(store: Table, expires: map<Obj, int>): View {
    map k | k in store :: Rec(store[k].value, DeadlineOf(expires, store[k]))
  }

  ghost function ObjsOf(store: Table, ks: set<Str>): set<Obj> {
    set k | k in ks && k in store :: store[k]
  }

  /** Removing keys with the deadlines of their objects removes exactly those keys. */
  lemma ViewWithout(store: Table, expires: map<Obj, int>, ks: set<Str>)
    requires Distinct(store)
    ensures ViewOf(store - ks, expires - ObjsOf(store, ks)) == ViewOf(store, expires) - ks
    ensures Distinct(store - ks)
  {
    forall k | k in store && k !in ks
      ensures store[k] !in ObjsOf(store, ks)
    {
    }
  }

  // ---------- the store ----------

  class Store {
    var store: Table
    var expires: map<Obj, int>
    var numKeys: int
    const maxKeys: int

    constructor (maxKeys: int)
      ensures Valid() && View() == map[] && this.maxKeys == maxKeys
    {
      store, expires, numKeys := map[], map[], 0;
      this.maxKeys := maxKeys;
    }

    ghost function View(): View
      reads this
    {
      ViewOf(store, expires)
    }

    /** No two keys share an object, and the counter is the number of keys, which is bounded. */
    ghost predicate Valid()
      reads this
    {
      && Distinct(store)
      && numKeys == |store|
      && |store| <= (if maxKeys < 1 then 1 else maxKeys)
    }

    predicate HasExpired(obj: Obj, now: int)
      reads this
    {
      obj in expires && expires[obj] <= now
    }

    /** Removes a key and the deadline of its object. */
    method DeleteKey(k: Str, obj: Obj)
      requires k in store && store[k] == obj
      modifies this
      ensures store == old(store) - {k} && expires == old(expires) - {obj} && numKeys == old(numKeys) - 1
    {
      store := store - {k};
      expires := expires - {obj};
      numKeys := numKeys - 1;
    }

    method Del(k: Str) returns (deleted: bool)
      requires Valid()
      modifies this
      ensures Valid() && View() == old(View()) - {k}
      ensures deleted == (k in old(View()))
    {
      hide Distinct, ViewOf;
      if k !in store {
        Absent(k);
        return false;
      }
      RemoveOne(k);
      DeleteKey(k, store[k]);
      deleted := true;
    }

    lemma KeysOfView()
      ensures View().Keys == store.Keys
    {
    }

    lemma Absent(k: Str)
      requires k !in store
      ensures k !in View() && View() - {k} == View()
    {
    }

    lemma RemoveOne(k: Str)
      requires Distinct(store) && k in store
      ensures k in View() && View()[k] == Rec(store[k].value, DeadlineOf(expires, store[k]))
      ensures Distinct(store - {k}) && |store - {k}| == |store| - 1
      ensures ViewOf(store - {k}, expires - {store[k]}) == View() - {k}
    {
      ViewWithout(store, expires, {k});
      assert ObjsOf(store, {k}) == {store[k]};
      assert (store - {k}).Keys == store.Keys - {k};
    }

    /** What reading a key at `now` finds: the value, unless the deadline has passed. */
    ghost predicate Found(v: View, k: Str, now: int, obj: Obj?) {
      && (obj != null <==> k in v && (v[k].deadline == None || now < v[k].deadline.value))
      && (obj != null ==> obj.value == v[k].value)
    }

    /** Reads a key.  An expired key is deleted on the way, which nobody can see. */
    method GetHelper(k: Str, touch: bool, now: int) returns (obj: Obj?)
      requires Valid()
      modifies this, store.Values`LastAccessedAt
      ensures Valid() && Found(old(View()), k, now, obj)
      ensures View() == if obj == null then old(View()) - {k} else old(View())
      ensures forall t :: now <= t ==> VisibleAt(View(), t) == VisibleAt(old(View()), t)
      ensures obj != null && touch ==> obj.LastAccessedAt == now
      ensures forall x :: x in old(store).Values && (x != obj || !touch) ==> x.LastAccessedAt == old(x.LastAccessedAt)
    {
      hide Distinct, ViewOf;
      obj := null;
      if k !in store {
        Absent(k);
        return;
      }
      obj := store[k];
      RemoveOne(k);
      if HasExpired(obj, now) {
        DropExpired(View(), {k}, now);
        DeleteKey(k, obj);
        obj := null;
      } else if touch {
        obj.LastAccessedAt := now;
      }
    }

    /** Reads many keys. */
    method GetAll(keys: seq<Str>, now: int) returns (response: seq<Obj?>)
      requires Valid()
      modifies this, store.Values`LastAccessedAt
      ensures Valid() && |response| == |keys|
      ensures forall i :: 0 <= i < |keys| ==> Found(old(View()), keys[i], now, response[i])
      ensures forall t :: now <= t ==> VisibleAt(View(), t) == VisibleAt(old(View()), t)
      ensures forall x: Obj :: x in response ==> x in old(store).Values && x.LastAccessedAt == now
      ensures forall x: Obj :: x in old(store).Values && x !in response ==> x.LastAccessedAt == old(x.LastAccessedAt)
    {
      hide Distinct, ViewOf, VisibleAt, Rec.Visible;
      response := [];
      ghost var before := View();
      for i := 0 to |keys|
        invariant Valid() && |response| == i
        invariant store.Values <= old(store.Values)
        invariant forall j :: 0 <= j < i ==> Found(before, keys[j], now, response[j])
        invariant forall t :: now <= t ==> VisibleAt(View(), t) == VisibleAt(before, t)
        invariant forall x: Obj :: x in response ==> x in old(store).Values && x.LastAccessedAt == now
        invariant forall x: Obj :: x in old(store).Values && x !in response ==>
                  x.LastAccessedAt == old(x.LastAccessedAt)
      {
        ghost var v := View();
        var obj := GetOne(keys[i], now);
        SameFind(before, v, keys[i], now, obj);
        response := response + [obj];
      }
    }

    /** One step of GetAll. */
    method GetOne(k: Str, now: int) returns (obj: Obj?)
      requires Valid()
      modifies this, store.Values`LastAccessedAt
      ensures Valid() && Found(old(View()), k, now, obj)
      ensures forall t :: now <= t ==> VisibleAt(View(), t) == VisibleAt(old(View()), t)
      ensures store.Values <= old(store.Values)
      ensures obj != null ==> obj in old(store).Values && obj.LastAccessedAt == now
      ensures forall x :: x in old(store).Values && x != obj ==> x.LastAccessedAt == old(x.LastAccessedAt)
    {
      hide Distinct, ViewOf;
      obj := null;
      if k in store {
        RemoveOne(k);
        if HasExpired(store[k], now) {
          DropExpired(View(), {k}, now);
          DeleteKey(k, store[k]);
        } else {
          obj := store[k];
          obj.LastAccessedAt := now;
        }
      } else {
        Absent(k);
      }
    }

    /** What a read finds depends only on what can be seen. */
    lemma SameFind(v: View, v': View, k: Str, now: int, obj: Obj?)
      requires VisibleAt(v, now) == VisibleAt(v', now) && Found(v', k, now, obj)
      ensures Found(v, k, now, obj)
    {
      assert k in VisibleAt(v, now) <==> k in VisibleAt(v', now);
      if obj != null {
        assert VisibleAt(v, now)[k] == VisibleAt(v', now)[k];
      }
    }

    method GetDel(k: Str, now: int) returns (obj: Obj?)
      requires Valid()
      modifies this
      ensures Valid() && Found(old(View()), k, now, obj) && View() == old(View()) - {k}
    {
      hide Distinct, ViewOf;
      obj := null;
      if k in store {
        obj := store[k];
        RemoveOne(k);
        var expired := HasExpired(obj, now);
        DeleteKey(k, obj);
        if expired {
          obj := null;
        }
      } else {
        Absent(k);
      }
    }

    /** One step of DeleteAllExpiredKeys. */
    method ExpireOne(k: Str, now: int) returns (expired: bool)
      requires Valid() && k in store
      modifies this
      ensures Valid() && k in old(View()) && expired == !old(View())[k].Visible(now)
      ensures store.Keys == old(store.Keys) - (if expired then {k} else {})
      ensures View() == if expired then old(View()) - {k} else old(View())
    {
      hide Distinct, ViewOf;
      RemoveOne(k);
      expired := HasExpired(store[k], now);
      if expired {
        DeleteKey(k, store[k]);
      }
    }

    /** The active way of deleting expired keys. */
    method DeleteAllExpiredKeys(now: int)
      requires Valid()
      modifies this
      ensures Valid()
      ensures var v := old(View());
              View() == map k | k in v && (v[k].deadline == None || now < v[k].deadline.value) :: v[k]
      ensures forall t :: now <= t ==> VisibleAt(View(), t) == VisibleAt(old(View()), t)
    {
      hide Distinct, ViewOf, VisibleAt, Rec.Visible;
      ghost var v := View();
      ghost var gone := ExpireAll(now);
      DropExpired(v, gone, now);
      Survivors(v, gone, now);
    }

    /** The walk over all keys. */
    method ExpireAll(now: int) returns (ghost gone: set<Str>)
      requires Valid()
      modifies this
      ensures Valid() && View() == old(View()) - gone
      ensures forall k :: k in old(View()) ==> (k in gone <==> !old(View())[k].Visible(now))
    {
      hide Distinct, ViewOf, VisibleAt, Rec.Visible;
      ghost var v := View();
      var todo := store.Keys;
      gone := {};
      KeysOfView();
      Untouched(v);
      while todo != {}
        invariant Valid() && todo <= store.Keys
        invariant View() == v - gone
        invariant forall k :: k in v && k !in todo ==> (k in gone <==> !v[k].Visible(now))
        decreases |todo|
      {
        var k :| k in todo;
        KeysOfView();
        todo := todo - {k};
        StillThere(v, gone, k);
        var expired := ExpireOne(k, now);
        if expired {
          MinusTwice(v, gone, k);
          gone := gone + {k};
        }
      }
    }

    lemma StillThere(v: View, gone: set<Str>, k: Str)
      requires k in v - gone
      ensures k in v && k !in gone && (v - gone)[k] == v[k]
    {
    }

    lemma Survivors(v: View, gone: set<Str>, now: int)
      requires forall k :: k in v ==> (k in gone <==> !v[k].Visible(now))
      ensures v - gone == map k | k in v && (v[k].deadline == None || now < v[k].deadline.value) :: v[k]
    {
    }

    lemma Untouched(v: View)
      ensures v - {} == v
    {
    }

    lemma MinusTwice(v: View, gone: set<Str>, k: Str)
      ensures v - gone - {k} == v - (gone + {k})
    {
    }

    // ---------- eviction ----------

    /** How many keys to evict: down to a tenth of the limit once it is reached, and at least one. */
    function ShouldEvict(): (toEvict: int)
      reads this
      ensures toEvict <= 0 <==> numKeys < maxKeys
      ensures 0 < toEvict && 1 <= maxKeys && 2 <= numKeys ==> toEvict < numKeys
      ensures 2 <= maxKeys <= numKeys ==> maxKeys <= 10 * (numKeys - toEvict) < maxKeys + 10
    {
      if numKeys < maxKeys then 0
      else
        var targetKeyCount := (maxKeys + 9) / 10;
        if numKeys - targetKeyCount < 1 then 1 else numKeys - targetKeyCount
    }

    function ItemOf(k: Str): (item: EvictionItem)
      requires k in store
      reads this, store.Values
      ensures item.key == k
    {
      EvictionItem(k, store[k].LastAccessedAt)
    }

    /** The items held are those of some keys seen, as many as fit, and no key seen but not held
        was accessed earlier than one held. */
    ghost predicate Selected(held: set<EvictionItem>, seen: set<Str>, toEvict: nat)
      requires seen <= store.Keys
      reads this, store.Values
    {
      && (forall x :: x in held ==> x.key in seen && x == ItemOf(x.key))
      && |held| == (if |seen| < toEvict then |seen| else toEvict)
      && (|held| < toEvict ==> forall k :: k in seen ==> ItemOf(k) in held)
      && forall x, k :: x in held && k in seen && ItemOf(k) !in held ==> x.lastAccessed <= ItemOf(k).lastAccessed
    }

    lemma NoneSelected(toEvict: nat)
      ensures Selected({}, {}, toEvict)
    {
    }

    lemma NotHeld(held: set<EvictionItem>, seen: set<Str>, toEvict: nat, k: Str)
      requires seen <= store.Keys && Selected(held, seen, toEvict) && k in store && k !in seen
      ensures ItemOf(k) !in held
    {
    }

    lemma FullSelected(held: set<EvictionItem>, seen: set<Str>, toEvict: nat)
      requires seen <= store.Keys && Selected(held, seen, toEvict) && toEvict <= |held|
      ensures |held| == toEvict
    {
    }

    /** There is room: the item joins. */
    lemma SelectMore(held: set<EvictionItem>, seen: set<Str>, toEvict: nat, k: Str)
      requires seen <= store.Keys && Selected(held, seen, toEvict) && k in store && k !in seen && |held| < toEvict
      ensures Selected(held + {ItemOf(k)}, seen + {k}, toEvict)
    {
      hide Store.ItemOf;
      NotHeld(held, seen, toEvict, k);
      assert |held + {ItemOf(k)}| == |held| + 1 && |seen + {k}| == |seen| + 1;
    }

    /** The item replaces one that was accessed later than it, and no earlier than any other. */
    lemma SelectInstead(held: set<EvictionItem>, seen: set<Str>, toEvict: nat, k: Str, top: EvictionItem)
      requires seen <= store.Keys && Selected(held, seen, toEvict) && k in store && k !in seen && |held| == toEvict
      requires top in held && forall x :: x in held ==> x.lastAccessed <= top.lastAccessed
      requires ItemOf(k).lastAccessed < top.lastAccessed
      ensures Selected(held - {top} + {ItemOf(k)}, seen + {k}, toEvict)
    {
      NotHeld(held, seen, toEvict, k);
      var held' := held - {top} + {ItemOf(k)};
      assert |held'| == |held|;
      assert |seen + {k}| == |seen| + 1;
      forall a | a in seen + {k} && ItemOf(a) !in held'
        ensures top.lastAccessed <= ItemOf(a).lastAccessed
      {
        assert ItemOf(a) == top || ItemOf(a) !in held;
      }
    }

    /** The item was accessed no earlier than all that are held. */
    lemma SelectSame(held: set<EvictionItem>, seen: set<Str>, toEvict: nat, k: Str, top: EvictionItem)
      requires seen <= store.Keys && Selected(held, seen, toEvict) && k in store && k !in seen && |held| == toEvict
      requires forall x :: x in held ==> x.lastAccessed <= top.lastAccessed
      requires top.lastAccessed <= ItemOf(k).lastAccessed
      ensures Selected(held, seen + {k}, toEvict)
    {
      assert |seen + {k}| == |seen| + 1;
    }

    ghost function AccessTimes(): Times
      reads this, store.Values
    {
      map k | k in store :: store[k].LastAccessedAt
    }

    ghost function ItemsOf(keys: set<Str>): set<EvictionItem>
      requires keys <= store.Keys
      reads this, store.Values
    {
      set k | k in keys :: ItemOf(k)
    }

    /** What is held after the first keys of a walk, if those may go: all of them. */
    ghost predicate FirstHeld(order: seq<Str>, n: nat, i: nat, held: set<EvictionItem>)
      requires Listing(order, store.Keys) && n <= |order| && i <= |order|
      reads this, store.Values
    {
      PartOfListing(order, store.Keys, if i < n then i else n);
      (i < n || Legal(AccessTimes(), n, KeySet(order[..n]))) ==>
        held == ItemsOf(KeySet(order[..if i < n then i else n]))
    }

    /** One key more on the walk. */
    lemma FirstHeldStep(order: seq<Str>, n: nat, i: nat, held: set<EvictionItem>, held': set<EvictionItem>, k: Str)
      requires Listing(order, store.Keys) && n <= |order| && i < |order| && k == order[i]
      requires FirstHeld(order, n, i, held)
      requires i < n ==> held' == held + {ItemOf(k)}
      requires n <= i && (forall x :: x in held ==> x.lastAccessed <= ItemOf(k).lastAccessed) ==> held' == held
      ensures FirstHeld(order, n, i + 1, held')
    {
      PartOfListing(order, store.Keys, n);
      if i < n {
        PartOfListing(order, store.Keys, i + 1);
        PartOfListing(order, store.Keys, i);
        NextKey(order, i);
        assert ItemsOf(KeySet(order[..i]) + {k}) == ItemsOf(KeySet(order[..i])) + {ItemOf(k)};
      } else if Legal(AccessTimes(), n, KeySet(order[..n])) {
        LaterKey(order, store.Keys, n, i);
        assert forall x :: x in held ==> x.key in KeySet(order[..n]) && AccessTimes()[x.key] <= AccessTimes()[k];
      }
    }

    /** Walks the table in the given order and holds the keys to evict. */
    method SelectVictims(toEvict: nat, order: seq<Str>) returns (h: EvictionItemHeap, ghost held: set<EvictionItem>)
      requires 0 < toEvict && Listing(order, store.Keys)
      ensures fresh(h) && h.Valid() && multiset(h.items) == multiset(held)
      ensures Selected(held, store.Keys, toEvict)
      ensures |order| == |store|
      ensures FirstHeld(order, if toEvict < |order| then toEvict else |order|, |order|, held)
    {
      hide Heap, Selected, Store.ItemOf, Legal, KeySet, Store.FirstHeld;
      h := new EvictionItemHeap();
      held := {};
      ghost var seen: set<Str> := {};
      ghost var n := if toEvict < |order| then toEvict else |order|;
      NoneSelected(toEvict);
      ListingSize(order, store.Keys);
      NothingHeld(order, n);
      for i := 0 to |order|
        invariant fresh(h) && h.Valid() && multiset(h.items) == multiset(held)
        invariant seen == KeySet(order[..i]) && |seen| == i && seen <= store.Keys
        invariant Selected(held, seen, toEvict)
        invariant FirstHeld(order, n, i, held)
      {
        var k := order[i];
        PartOfListing(order, store.Keys, i + 1);
        NextKey(order, i);
        LaterKey(order, store.Keys, i, i);
        SelectedSize(held, seen, toEvict);
        ghost var before := held;
        held := Consider(h, k, toEvict, held, seen);
        FirstHeldStep(order, n, i, before, held, k);
        seen := seen + {k};
      }
      assert order[..|order|] == order;
    }

    lemma NothingHeld(order: seq<Str>, n: nat)
      requires Listing(order, store.Keys) && n <= |order|
      ensures FirstHeld(order, n, 0, {}) && KeySet(order[..0]) == {}
    {
    }

    lemma SelectedSize(held: set<EvictionItem>, seen: set<Str>, toEvict: nat)
      requires seen <= store.Keys && Selected(held, seen, toEvict)
      ensures |held| == if |seen| < toEvict then |seen| else toEvict
    {
    }

    /** One key of the store: it joins while there is room, and then in place of one accessed later. */
    method Consider(h: EvictionItemHeap, k: Str, toEvict: nat, ghost held: set<EvictionItem>, ghost seen: set<Str>)
      returns (ghost held': set<EvictionItem>)
      requires 0 < toEvict && k in store && k !in seen && seen <= store.Keys
      requires h.Valid() && multiset(h.items) == multiset(held) && Selected(held, seen, toEvict)
      modifies h
      ensures h.Valid() && multiset(h.items) == multiset(held') && Selected(held', seen + {k}, toEvict)
      ensures |held| < toEvict ==> held' == held + {ItemOf(k)}
      ensures |held| == toEvict && (forall x :: x in held ==> x.lastAccessed <= ItemOf(k).lastAccessed) ==>
              held' == held
    {
      hide Heap, Selected, Store.ItemOf;
      var item := ItemOf(k);
      NotHeld(held, seen, toEvict, k);
      HeapSize(h.items, held);
      InHeap(h.items, held);
      if |h.items| < toEvict {
        h.Push(item);
        SelectMore(held, seen, toEvict, k);
        HeldPlus(held, item);
        held' := held + {item};
      } else {
        FullSelected(held, seen, toEvict);
        AllBelowTop(h.items);
        ghost var top := h.items[0];
        if item.lastAccessed < h.items[0].lastAccessed {
          var popped := h.Pop();
          h.Push(item);
          SelectInstead(held, seen, toEvict, k, top);
          HeldMinus(held, top);
          HeldPlus(held - {top}, item);
          held' := held - {top} + {item};
        } else {
          SelectSame(held, seen, toEvict, k, top);
          held' := held;
        }
      }
    }

    /** How many keys go when so many are asked for. */
    function Available(toEvict: int): nat
      reads this
    {
      if toEvict <= 0 then 0 else if toEvict < |store| then toEvict else |store|
    }

    /** Removes as many keys as asked for, or all there are, walking the table in the given
        order.  None that stays was accessed earlier than one that goes. */
    method EvictVictims(toEvict: int, order: seq<Str>) returns (ghost evicted: set<Str>)
      requires Listing(order, store.Keys)
      modifies this
      ensures old(Available(toEvict)) <= |order|
              && EvictedBy(old(AccessTimes()), order, old(Available(toEvict)), evicted)
      ensures store == old(store) - evicted && expires == old(expires) - ObjsOf(old(store), evicted)
      ensures numKeys == old(numKeys) - |evicted|
    {
      hide Heap, Selected, ObjsOf, Listing, Legal, EvictedBy, Store.FirstHeld, KeySet;
      evicted := {};
      MinusNone(store, expires);
      ListingSize(order, store.Keys);
      if toEvict <= 0 {
        NoneEvicted(AccessTimes(), order);
        return;
      }
      var h, victims := SelectVictims(toEvict, order);
      VictimsAre(victims, toEvict, order);
      DeleteVictims(h, victims);
      evicted := KeysOf(victims);
    }

    /** Pops the heap empty and deletes each key. */
    method DeleteVictims(h: EvictionItemHeap, ghost victims: set<EvictionItem>)
      requires h.Valid() && multiset(h.items) == multiset(victims)
      requires SameKeyOnce(victims) && KeysOf(victims) <= store.Keys
      modifies this, h
      ensures store == old(store) - KeysOf(victims) && expires == old(expires) - ObjsOf(old(store), KeysOf(victims))
      ensures numKeys == old(numKeys) - |victims|
    {
      hide Heap, ObjsOf;
      ghost var s0, e0, held, evicted: set<Str> := store, expires, victims, {};
      MinusNone(s0, e0);
      HeapSize(h.items, held);
      while |h.items| > 0
        invariant h.Valid() && multiset(h.items) == multiset(held) && |h.items| == |held|
        invariant held <= victims && evicted == KeysOf(victims - held) && |evicted| + |held| == |victims|
        invariant store == s0 - evicted && expires == e0 - ObjsOf(s0, evicted)
        invariant numKeys == old(numKeys) - |evicted|
        decreases |h.items|
      {
        InHeap(h.items, held);
        var item := h.Pop();
        HeldMinus(held, item);
        EvictOne(s0, e0, victims, held, item);
        DeleteKey(item.key, store[item.key]);
        evicted := evicted + {item.key};
        held := held - {item};
        HeapSize(h.items, held);
      }
      assert victims - held == victims;
    }

    lemma KeysOfItems(keys: set<Str>)
      requires keys <= store.Keys
      ensures KeysOf(ItemsOf(keys)) == keys
    {
      forall k | k in keys
        ensures k in KeysOf(ItemsOf(keys))
      {
        assert ItemOf(k) in ItemsOf(keys);
      }
    }

    lemma VictimsAre(victims: set<EvictionItem>, toEvict: nat, order: seq<Str>)
      requires Listing(order, store.Keys) && |order| == |store| && 0 < toEvict
      requires Selected(victims, store.Keys, toEvict) && FirstHeld(order, Available(toEvict), |order|, victims)
      ensures |victims| == |KeysOf(victims)| == Available(toEvict)
      ensures SameKeyOnce(victims) && KeysOf(victims) <= store.Keys
      ensures EvictedBy(AccessTimes(), order, Available(toEvict), KeysOf(victims))
    {
      var n, times := Available(toEvict), AccessTimes();
      assert |store.Keys| == |store|;
      KeysOfSize(victims);
      forall v, k | v in KeysOf(victims) && k in store && k !in KeysOf(victims)
        ensures times[v] <= times[k]
      {
        assert ItemOf(v) in victims && ItemOf(k) !in victims;
      }
      if Legal(times, n, KeySet(order[..n])) {
        PartOfListing(order, store.Keys, n);
        KeysOfItems(KeySet(order[..n]));
      }
    }

    // ---------- writing ----------

    /** An object that no key holds yet. */
    method NewObj(value: Str, expDurationMs: int, now: int) returns (obj: Obj)
      requires Valid()
      modifies this
      ensures fresh(obj) && obj.value == value && obj.LastAccessedAt == now
      ensures Valid() && View() == old(View()) && store == old(store)
      ensures DeadlineOf(expires, obj) == if 0 <= expDurationMs then Some(now + expDurationMs) else None
    {
      obj := new Obj(value);
      obj.LastAccessedAt := now;
      if expDurationMs >= 0 {
        SetExpiry(obj, expDurationMs, now);
      }
    }

    method SetExpiry(obj: Obj, expDurationMs: int, now: int)
      requires Valid()
      modifies this
      ensures Valid() && store == old(store) && DeadlineOf(expires, obj) == Some(now + expDurationMs)
      ensures forall k :: k in store && store[k] == obj ==>
                View() == old(View())[k := Rec(obj.value, Some(now + expDurationMs))]
      ensures obj !in store.Values ==> View() == old(View())
    {
      SetUnixTimeExpiry(obj, now + expDurationMs);
    }

    method SetUnixTimeExpiry(obj: Obj, exUnixTimeMillis: int)
      requires Valid()
      modifies this
      ensures Valid() && store == old(store) && DeadlineOf(expires, obj) == Some(exUnixTimeMillis)
      ensures forall k :: k in store && store[k] == obj ==>
                View() == old(View())[k := Rec(obj.value, Some(exUnixTimeMillis))]
      ensures obj !in store.Values ==> View() == old(View())
    {
      expires := expires[obj := exUnixTimeMillis];
    }

    method DelExpiry(obj: Obj)
      requires Valid()
      modifies this
      ensures Valid() && store == old(store) && DeadlineOf(expires, obj) == None
      ensures forall k :: k in store && store[k] == obj ==> View() == old(View())[k := Rec(obj.value, None)]
      ensures obj !in store.Values ==> View() == old(View())
    {
      expires := expires - {obj};
    }

    /** The deadline of a key after an object is put there. */
    function DeadlineAfter(k: Str, obj: Obj, keepTTL: bool): Option<int>
      reads this
    {
      if k !in store then DeadlineOf(expires, obj)
      else if store[k] == obj then None
      else if keepTTL && store[k] in expires && expires[store[k]] > 0 then Some(expires[store[k]])
      else DeadlineOf(expires, obj)
    }

    /** How many keys go to make room for a new one. */
    function Room(): nat
      reads this
    {
      Available(ShouldEvict())
    }

    lemma RoomEnough()
      requires Valid()
      ensures |store| - Room() + 1 <= if maxKeys < 1 then 1 else maxKeys
      ensures numKeys < maxKeys ==> Room() == 0
      ensures maxKeys <= numKeys && maxKeys <= 1 ==> Room() == numKeys
      ensures maxKeys <= numKeys && 2 <= maxKeys ==> maxKeys <= 10 * (numKeys - Room()) < maxKeys + 10
    {
    }

    /** The access times when room is made for a put: the object put was accessed just now. */
    ghost function TimesAt(obj: Obj, now: int): Times
      reads this, store.Values
    {
      map k | k in store :: if store[k] == obj then now else store[k].LastAccessedAt
    }

    /** Evicts as many keys as the strategy asks for. */
    method MakeRoom(order: seq<Str>) returns (ghost evicted: set<Str>)
      requires Listing(order, store.Keys)
      modifies this
      ensures old(Room()) <= |order| && EvictedBy(old(AccessTimes()), order, old(Room()), evicted)
      ensures store == old(store) - evicted && expires == old(expires) - ObjsOf(old(store), evicted)
      ensures numKeys == old(numKeys) - |evicted|
    {
      hide ObjsOf, Listing, Legal, EvictedBy;
      evicted := {};
      MinusNone(store, expires);
      NoneEvicted(AccessTimes(), order);
      var evictCount := ShouldEvict();
      if evictCount > 0 {
        evicted := EvictVictims(evictCount, order);
      }
    }

    /** Puts an object, which may be one that another key holds. */
    method PutHelper(k: Str, obj: Obj, keepTTL: bool, now: int, order: seq<Str>) returns (ghost evicted: set<Str>)
      requires Listing(order, store.Keys)
      modifies this, obj`LastAccessedAt
      ensures obj.LastAccessedAt == now
      ensures var n := if k in old(store) then 0 else old(Room());
              n <= |order| && EvictedBy(old(TimesAt(obj, now)), order, n, evicted)
      ensures store == (old(store) - evicted)[k := obj]
      ensures numKeys == old(numKeys) - |evicted| + (if k in old(store) then 0 else 1)
      ensures PutDeadlines(old(store), old(expires), k, obj, evicted, expires, keepTTL)
    {
      hide ObjsOf, Store.Room, Listing, Legal, EvictedBy;
      evicted := {};
      MinusNone(store, expires);
      NoneEvicted(TimesAt(obj, now), order);
      obj.LastAccessedAt := now;
      assert AccessTimes() == old(TimesAt(obj, now));
      if k in store {
        var currentObject := store[k];
        if currentObject in expires && keepTTL && expires[currentObject] > 0 {
          expires := expires[obj := expires[currentObject]];
        }
        expires := expires - {currentObject};
      } else {
        evicted := MakeRoom(order);
        numKeys := numKeys + 1;
      }
      store := store[k := obj];
    }

    /** `order` is the walk of the table that evicts, if room has to be made.  A new key in a full
        store leaves a tenth of the limit, rounded up, and itself. */
    method Put(k: Str, obj: Obj, keepTTL: bool, now: int, order: seq<Str>) returns (ghost evicted: set<Str>)
      requires Valid() && (forall a :: a in store && a != k ==> store[a] != obj) && Listing(order, store.Keys)
      modifies this, obj`LastAccessedAt
      ensures Valid() && evicted <= old(View()).Keys && obj.LastAccessedAt == now
      ensures View() == (old(View()) - evicted)[k := Rec(obj.value, old(DeadlineAfter(k, obj, keepTTL)))]
      ensures store == (old(store) - evicted)[k := obj]
      ensures var n := if k in old(View()) then 0 else old(Room());
              n <= |order| && EvictedBy(old(TimesAt(obj, now)), order, n, evicted)
      ensures k in old(store) ==> numKeys == old(numKeys)
      ensures k !in old(store) && old(numKeys) < maxKeys ==> numKeys == old(numKeys) + 1
      ensures k !in old(store) && maxKeys <= old(numKeys) && maxKeys <= 1 ==> numKeys == 1
      ensures k !in old(store) && maxKeys <= old(numKeys) && 2 <= maxKeys ==>
                maxKeys <= 10 * (numKeys - 1) < maxKeys + 10
      ensures var carried := if obj in old(expires) then Some(old(expires)[obj]) else None;
              var deadline := View()[k].deadline;
              if k in old(store) then
                var was := old(store)[k];
                if was == obj then deadline == None
                else if keepTTL && was in old(expires) && 0 < old(expires)[was] then deadline == Some(old(expires)[was])
                else deadline == carried
              else deadline == carried
    {
      hide Distinct, ViewOf, ObjsOf, Listing, EvictedBy, Store.Room, Store.ShouldEvict;
      ghost var s0, e0, n := store, expires, if k in store then 0 else Room();
      KeysOfView();
      RoomEnough();
      evicted := PutHelper(k, obj, keepTTL, now, order);
      EvictedSize(old(TimesAt(obj, now)), order, n, evicted);
      OthersKeep(s0, e0, k, obj, evicted, expires, keepTTL);
      ViewAfterPut(s0, e0, k, obj, evicted, expires);
      CountAfterPut(s0, k, obj, evicted);
    }

    /** The access times when Rename makes room. */
    ghost function TimesFor(sourceKey: Str, now: int): Times
      reads this, store.Values
    {
      map k | k in store :: if k == sourceKey then now else store[k].LastAccessedAt
    }

    /** Whether making room for the destination cannot evict the source: no room is needed (Room
        is 0 below the limit), or enough other keys were accessed before now. */
    ghost predicate RenameSafe(sourceKey: Str, destKey: Str, now: int)
      reads this, store.Values
    {
      destKey in store || Room() <= |Older(TimesFor(sourceKey, now), now)|
    }

    /** Puts the source's object at the destination and drops the source.  All is well when
        RenameSafe holds beforehand.  It goes wrong when making room for the destination evicts
        the source: then the counter is one too low for good, and the deadline is lost. */
    method Rename(sourceKey: Str, destKey: Str, now: int, order: seq<Str>) returns (ok: bool, ghost evicted: set<Str>)
      requires Valid() && Listing(order, store.Keys)
      modifies this, store.Values`LastAccessedAt
      ensures ok == (sourceKey == destKey || (sourceKey in old(View()) && old(View())[sourceKey].Visible(now)))
      ensures sourceKey == destKey ==> View() == old(View()) && Valid()
      ensures !ok ==> Valid() && View() == old(View()) - {sourceKey}
      ensures !ok ==> forall t :: now <= t ==> VisibleAt(View(), t) == VisibleAt(old(View()), t)
      ensures forall x :: x in old(store).Values ==>
                var moved := ok && sourceKey != destKey && sourceKey in old(store) && x == old(store)[sourceKey];
                x.LastAccessedAt == if moved then now else old(x.LastAccessedAt)
      ensures old(RenameSafe(sourceKey, destKey, now)) ==> Valid()
      ensures ok && sourceKey != destKey ==>
                var v, n := old(View()), if destKey in old(store) then 0 else old(Room());
                && n <= |order| && EvictedBy(old(TimesFor(sourceKey, now)), order, n, evicted)
                && Valid() == (sourceKey !in evicted)
                && numKeys == |store| - (if sourceKey in evicted then 1 else 0)
                && View() == (v - evicted - {sourceKey})[destKey :=
                     Rec(v[sourceKey].value, if sourceKey in evicted then None else v[sourceKey].deadline)]
    {
      hide Distinct, ViewOf, ObjsOf, PutDeadlines, VisibleAt, Store.ShouldEvict, Store.Room, Listing, EvictedBy, Older;
      evicted := {};
      if sourceKey == destKey {
        return true, evicted;
      }
      if sourceKey !in store {
        Absent(sourceKey);
        return false, evicted;
      }
      var sourceObj := store[sourceKey];
      RemoveOne(sourceKey);
      if HasExpired(sourceObj, now) {
        DropExpired(View(), {sourceKey}, now);
        DeleteKey(sourceKey, sourceObj);
        return false, evicted;
      }
      evicted := Move(sourceKey, sourceObj, destKey, now, order);
      ok := true;
    }

    /** Puts the source's object at the destination and removes the source key, which eviction may
        have removed already. */
    method Move(sourceKey: Str, sourceObj: Obj, destKey: Str, now: int, order: seq<Str>)
      returns (ghost evicted: set<Str>)
      requires Valid() && sourceKey in store && store[sourceKey] == sourceObj && sourceKey != destKey
      requires Listing(order, store.Keys)
      modifies this, sourceObj`LastAccessedAt
      ensures var n := if destKey in old(store) then 0 else old(Room());
              n <= |order| && EvictedBy(old(TimesFor(sourceKey, now)), order, n, evicted)
      ensures sourceObj.LastAccessedAt == now
      ensures Valid() == (sourceKey !in evicted)
      ensures old(RenameSafe(sourceKey, destKey, now)) ==> sourceKey !in evicted
      ensures numKeys == |store| - (if sourceKey in evicted then 1 else 0)
      ensures View() == (old(View()) - evicted - {sourceKey})[destKey :=
                Rec(sourceObj.value, if sourceKey in evicted then None else old(DeadlineOf(expires, sourceObj)))]
    {
      hide Distinct, ViewOf, ObjsOf, PutDeadlines, Store.ShouldEvict, Listing, Legal, EvictedBy, Older;
      ghost var s0, e0, times, n := store, expires, TimesFor(sourceKey, now), if destKey in store then 0 else Room();
      KeysOfView();
      OneSource(sourceKey, now);
      evicted := PutHelper(destKey, sourceObj, false, now, order);
      EvictedSize(times, order, n, evicted);
      SafeSource(times, sourceKey, order, n, evicted);
      ViewAfterRename(s0, e0, sourceKey, destKey, evicted, expires);
      store := store - {sourceKey};
      numKeys := numKeys - 1;
    }

    lemma OneSource(sourceKey: Str, now: int)
      requires Distinct(store) && sourceKey in store
      ensures TimesAt(store[sourceKey], now) == TimesFor(sourceKey, now)
    {
    }

    /** Whatever the walk of the table, a rename of a live key to a new one leaves the store
        valid; or some walk makes it lose the source.  RenameSafe says which. */
    lemma RenameSafeExactly(sourceKey: Str, destKey: Str, now: int)
      requires sourceKey in store && destKey !in store
      ensures RenameSafe(sourceKey, destKey, now) <==>
              forall order, gone | Listing(order, store.Keys) && Room() <= |order|
                                   && EvictedBy(TimesFor(sourceKey, now), order, Room(), gone) :: sourceKey !in gone
    {
      hide Listing, EvictedBy, Older;
      var times := TimesFor(sourceKey, now);
      assert |times.Keys| == |times| && times.Keys == store.Keys && |store.Keys| == |store|;
      WalksSpareExactly(times, sourceKey, Room());
    }

    /** Where RenameSafe does not hold, a walk that starts with a legal eviction of the source,
        which then exists, makes the rename break the store. */
    method RenameLoses(sourceKey: Str, destKey: Str, now: int, order: seq<Str>)
      requires Valid() && Listing(order, store.Keys) && Room() <= |order|
      requires sourceKey in View() && View()[sourceKey].Visible(now) && destKey !in store
      requires sourceKey != destKey && sourceKey in KeySet(order[..Room()])
      requires Legal(TimesFor(sourceKey, now), Room(), KeySet(order[..Room()]))
      modifies this, store.Values`LastAccessedAt
      ensures !Valid() && numKeys == |store| - 1
    {
      hide Distinct, ViewOf, VisibleAt, Store.Room, Listing, Legal, KeySet, Older;
      var ok, evicted := Rename(sourceKey, destKey, now, order);
    }

    method Reset()
      modifies this
      ensures Valid() && View() == map[] && numKeys == 0
    {
      numKeys, store, expires := 0, map[], map[];
    }
  }

  /** What a put does to the deadlines. */
  ghost predicate PutDeadlines(s0: Table, e0: map<Obj, int>, k: Str, obj: Obj, evicted: set<Str>, e1: map<Obj, int>,
                               keepTTL: bool)
  {
    if k in s0 then
      var was := s0[k];
      evicted == {} && e1 == (if keepTTL && was in e0 && e0[was] > 0 then e0[obj := e0[was]] else e0) - {was}
    else e1 == e0 - ObjsOf(s0, evicted)
  }

  /** The deadlines of all keys but the one put and the ones evicted stay. */
  lemma OthersKeep(s0: Table, e0: map<Obj, int>, k: Str, obj: Obj, evicted: set<Str>, e1: map<Obj, int>, keepTTL: bool)
    requires Distinct(s0) && (forall a :: a in s0 && a != k ==> s0[a] != obj) && evicted <= s0.Keys
    requires PutDeadlines(s0, e0, k, obj, evicted, e1, keepTTL)
    ensures forall a :: a in s0 && a != k && a !in evicted ==> DeadlineOf(e1, s0[a]) == DeadlineOf(e0, s0[a])
    ensures k !in s0 ==> DeadlineOf(e1, obj) == DeadlineOf(e0, obj)
  {
    if k !in s0 {
      assert obj !in ObjsOf(s0, evicted);
      assert forall a :: a in s0 && a !in evicted ==> s0[a] !in ObjsOf(s0, evicted);
    }
  }

  lemma ViewAfterPut(s0: Table, e0: map<Obj, int>, k: Str, obj: Obj, evicted: set<Str>, e1: map<Obj, int>)
    requires Distinct(s0) && (forall a :: a in s0 && a != k ==> s0[a] != obj) && evicted <= s0.Keys
    requires forall a :: a in s0 && a != k && a !in evicted ==> DeadlineOf(e1, s0[a]) == DeadlineOf(e0, s0[a])
    ensures var s1 := (s0 - evicted)[k := obj];
            && Distinct(s1)
            && ViewOf(s1, e1) == (ViewOf(s0, e0) - evicted)[k := Rec(obj.value, DeadlineOf(e1, obj))]
  {
  }

  lemma SafeSource(times: Times, source: Str, order: seq<Str>, n: nat, gone: set<Str>)
    requires source in times && n <= |order| && EvictedBy(times, order, n, gone)
    ensures n <= |Older(times, times[source])| ==> source !in gone
  {
    if n <= |Older(times, times[source])| {
      SparedBy(times, source, n, gone);
    }
  }

  /** The table after a rename. */
  lemma ViewAfterRename(s0: Table, e0: map<Obj, int>, source: Str, dest: Str, evicted: set<Str>, e1: map<Obj, int>)
    requires Distinct(s0) && source in s0 && source != dest && evicted <= s0.Keys && dest !in evicted
    requires PutDeadlines(s0, e0, dest, s0[source], evicted, e1, false)
    ensures var obj, s1 := s0[source], (s0 - evicted)[dest := s0[source]] - {source};
            && Distinct(s1)
            && ViewOf(s1, e1) == (ViewOf(s0, e0) - evicted - {source})[dest :=
                 Rec(obj.value, if source in evicted then None else DeadlineOf(e0, obj))]
            && |s1| == |s0| - |evicted| + (if dest in s0 then 0 else 1) - (if source in evicted then 0 else 1)
  {
    hide Distinct, ViewOf, ObjsOf, PutDeadlines;
    RestDeadlines(s0, e0, source, dest, evicted, e1);
    RenamedView(s0, e0, source, dest, evicted, e1);
    RenamedCount(s0, source, dest, evicted);
  }

  lemma RenamedView(s0: Table, e0: map<Obj, int>, source: Str, dest: Str, evicted: set<Str>, e1: map<Obj, int>)
    requires Distinct(s0) && source in s0 && source != dest && evicted <= s0.Keys && dest !in evicted
    requires forall a :: a in s0 && a != source && a != dest && a !in evicted ==>
             DeadlineOf(e1, s0[a]) == DeadlineOf(e0, s0[a])
    ensures var obj, s1 := s0[source], (s0 - evicted)[dest := s0[source]] - {source};
            && Distinct(s1)
            && ViewOf(s1, e1) == (ViewOf(s0, e0) - evicted - {source})[dest := Rec(obj.value, DeadlineOf(e1, obj))]
  {
  }

  lemma RenamedCount(s0: Table, source: Str, dest: Str, evicted: set<Str>)
    requires source in s0 && source != dest && evicted <= s0.Keys && dest !in evicted
    ensures |(s0 - evicted)[dest := s0[source]] - {source}|
            == |s0| - |evicted| + (if dest in s0 then 0 else 1) - (if source in evicted then 0 else 1)
  {
    CountAfterPut(s0, dest, s0[source], evicted);
    var s1 := (s0 - evicted)[dest := s0[source]];
    assert (s1 - {source}).Keys == s1.Keys - {source};
  }

  lemma RestDeadlines(s0: Table, e0: map<Obj, int>, source: Str, dest: Str, evicted: set<Str>, e1: map<Obj, int>)
    requires Distinct(s0) && source in s0 && source != dest && evicted <= s0.Keys && dest !in evicted
    requires PutDeadlines(s0, e0, dest, s0[source], evicted, e1, false)
    ensures forall a :: a in s0 && a != source && a != dest && a !in evicted ==>
            DeadlineOf(e1, s0[a]) == DeadlineOf(e0, s0[a])
    ensures DeadlineOf(e1, s0[source]) == if source in evicted then None else DeadlineOf(e0, s0[source])
  {
    if dest !in s0 {
      assert forall a :: a in s0 ==> (s0[a] in ObjsOf(s0, evicted) <==> a in evicted);
    }
  }

  lemma CountAfterPut(s0: Table, k: Str, obj: Obj, evicted: set<Str>)
    requires evicted <= s0.Keys && k !in evicted
    ensures |(s0 - evicted)[k := obj]| == |s0| - |evicted| + if k in s0 then 0 else 1
  {
    var left := s0 - evicted;
    assert left.Keys == s0.Keys - evicted;
    assert left[k := obj].Keys == left.Keys + {k};
  }

  ghost function KeysOf(items: set<EvictionItem>): set<Str> {
    set x | x in items :: x.key
  }

  lemma {:induction false} KeysOfSize(items: set<EvictionItem>)
    requires SameKeyOnce(items)
    ensures |KeysOf(items)| == |items|
    decreases |items|
  {
    if items != {} {
      var x :| x in items;
      KeysOfSize(items - {x});
      assert KeysOf(items) == KeysOf(items - {x}) + {x.key};
    }
  }

  ghost predicate SameKeyOnce(items: set<EvictionItem>) {
    forall x, y :: x in items && y in items && x.key == y.key ==> x == y
  }

  lemma MinusNone(store: Table, expires: map<Obj, int>)
    ensures store - {} == store && expires - ObjsOf(store, {}) == expires && KeysOf({}) == {}
  {
  }

  /** One victim more. */
  lemma EvictOne(s0: Table, e0: map<Obj, int>, victims: set<EvictionItem>, held: set<EvictionItem>, item: EvictionItem)
    requires SameKeyOnce(victims) && KeysOf(victims) <= s0.Keys && held <= victims && item in held
    ensures var gone, k := KeysOf(victims - held), item.key;
            && k !in gone && KeysOf(victims - (held - {item})) == gone + {k}
            && k in s0 && s0 - gone - {k} == s0 - (gone + {k})
            && e0 - ObjsOf(s0, gone) - {s0[k]} == e0 - ObjsOf(s0, gone + {k})
  {
    assert victims - (held - {item}) == victims - held + {item};
    assert item.key in KeysOf(victims);
    assert ObjsOf(s0, KeysOf(victims - held) + {item.key}) == ObjsOf(s0, KeysOf(victims - held)) + {s0[item.key]};
  }

  lemma HeldPlus(held: set<EvictionItem>, item: EvictionItem)
    requires item !in held
    ensures multiset(held + {item}) == multiset(held) + multiset{item}
  {
  }

  lemma HeldMinus(held: set<EvictionItem>, item: EvictionItem)
    requires item in held
    ensures multiset(held - {item}) == multiset(held) - multiset{item}
  {
  }

  lemma HeapSize(items: seq<EvictionItem>, held: set<EvictionItem>)
    requires multiset(items) == multiset(held)
    ensures |items| == |held|
  {
    assert |multiset(items)| == |items|;
  }

  lemma InHeap(items: seq<EvictionItem>, held: set<EvictionItem>)
    requires multiset(items) == multiset(held)
    ensures forall x :: x in items <==> x in held
  {
    assert forall x :: x in items <==> x in multiset(items);
  }

  /** The guard of Rename is needed: with room for one key, renaming it evicts it first, and the
      counter says 0 while one key is stored. */
  method RenameMiscounts() returns (s: Store)
    ensures fresh(s) && s.numKeys == 0 && |s.store| == 1 && !s.Valid()
  {
    hide Distinct, ObjsOf, PutDeadlines, VisibleAt, ViewOf;
    s := new Store(1);
    var k: Str, k': Str := [97], [98];
    s.KeysOfView();
    ListingOne(k);
    var obj := s.NewObj([], -1, 0);
    ghost var none := s.Put(k, obj, false, 0, []);
    s.KeysOfView();
    OnlyKey(s.store, k, obj);
    ListingOne(k);
    s.RemoveOne(k);
    var ok, evicted := s.Rename(k, k', 1, [k]);
    OneOf(evicted, k);
    s.KeysOfView();
    assert s.View().Keys == {k'};
    assert |s.store| == |s.store.Keys|;
  }

  lemma OnlyKey(store: Table, k: Str, obj: Obj)
    requires store == map[k := obj]
    ensures |store| == 1 && store.Values == {obj} && store.Keys == {k}
  {
    assert store.Keys == {k};
    assert |store| == |store.Keys|;
  }

  lemma OneOf(evicted: set<Str>, k: Str)
    requires |evicted| == 1 && evicted <= {k}
    ensures k in evicted
  {
  }
}
