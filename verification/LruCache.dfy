/**
 The size-limited cache. Each method works through one view of the bimap; its contract says what
 it does to the plain recency list. A method body is one locked block, so it is atomic.
 */
module LruCache {
  import opened Wrappers
  import opened Sequences
  import opened RecencyList
  import opened OrderedSets
  import opened Bimap

  ghost predicate NoneBefore<K, V>(list: seq<Entry<K, V>>, i: nat, value: V)
    requires i <= |list|
  {
    forall j :: 0 <= j < i ==> list[j].value != value
  }

  function ValuesIn<K, V>(list: seq<Entry<K, V>>): seq<V> {
    seq(|list|, i requires 0 <= i < |list| => list[i].value)
  }

  function ValuesAt<K, V>(store: Store<K, V>, ids: seq<nat>): seq<V>
    requires forall i :: 0 <= i < |ids| ==> ids[i] in store
  {
    seq(|ids|, i requires 0 <= i < |ids| => store[ids[i]].value)
  }

  function EntriesAt<K(==), V(==)>(store: Store<K, V>, ids: set<nat>): set<Entry<K, V>>
    requires ids <= store.Keys
  {
    set id | id in ids :: store[id]
  }

  /** Inserts every entry of the store into an ordered set, in an unspecified order. */
  method CollectEntries<K(==, !new), V(==, !new)>(less: (Entry<K, V>, Entry<K, V>) -> bool, store: Store<K, V>)
    returns (entries: seq<Entry<K, V>>)
    requires StrictTotalOrder(less)
    ensures Ascending(less, entries) && Elements(entries) == EntriesAt(store, store.Keys)
  {
    entries := [];
    var rest := store.Keys;
    while rest != {}
      invariant rest <= store.Keys
      invariant Ascending(less, entries) && Elements(entries) == EntriesAt(store, store.Keys - rest)
      decreases rest
    {
      var id :| id in rest;
      assert store.Keys - (rest - {id}) == store.Keys - rest + {id};
      InsertOrderedElements(less, entries, store[id]);
      entries := InsertOrdered(less, entries, store[id]);
      rest := rest - {id};
    }
    assert store.Keys - {} == store.Keys;
  }

  lemma AllEntries<K(!new), V(!new)>(store: Store<K, V>, right: seq<nat>)
    requires RightView(store, right)
    ensures EntriesAt(store, store.Keys) == Elements(Listed(store, right))
  {
    forall x ensures x in EntriesAt(store, store.Keys) <==> x in Elements(Listed(store, right)) {
      if x in EntriesAt(store, store.Keys) {
        var id :| id in store && store[id] == x;
        assert Listed(store, right)[IndexOf(right, id)] == x;
      }
      if x in Listed(store, right) {
        assert right[IndexOf(Listed(store, right), x)] in store;
      }
    }
  }

  lemma SameMultisetSameElements<T(!new)>(a: seq<T>, b: seq<T>)
    requires multiset(a) == multiset(b)
    ensures Elements(a) == Elements(b)
  {
    forall x ensures x in a <==> x in b {
      assert x in a <==> x in multiset(a);
      assert x in b <==> x in multiset(b);
    }
  }

  lemma EmptyRange<K(!new), V(!new)>(store: Store<K, V>, right: seq<nat>, range: seq<nat>, key: K)
    requires RightView(store, right)
    requires forall id :: id in range <==> id in store && store[id].key == key
    ensures range == [] <==> LruOf(Listed(store, right), key).None?
  {
    var list := Listed(store, right);
    LruOfIsFirst(list, key);
    if range != [] {
      assert range[0] in range;
      assert list[IndexOf(right, range[0])].key == key;
    }
    if LruOf(list, key).Some? {
      assert right[IndexOf(list, LruOf(list, key).value)] in range;
    }
  }

  /** The id nearest to the front of the list view stands for the key's first entry. */
  lemma NearestIsLru<K(!new), V(!new)>(store: Store<K, V>, right: seq<nat>, range: seq<nat>, key: K, id: nat)
    requires RightView(store, right)
    requires forall id :: id in range <==> id in store && store[id].key == key
    requires id in range
    requires forall x :: x in range ==> IndexOf(right, id) <= IndexOf(right, x)
    ensures LruOf(Listed(store, right), key) == Some(store[id])
  {
    forall j | 0 <= j < IndexOf(right, id) ensures store[right[j]].key != key {
      assert IndexOf(right, right[j]) == j;
      assert right[j] !in range;
    }
    FirstIsLruOf(Listed(store, right), IndexOf(right, id));
  }

  function KeyHeld<K(==), V>(store: Store<K, V>, k: K): nat -> bool {
    (id: nat) => id in store && store[id].key == k
  }

  lemma {:induction false} ListedOfKey<K(!new), V(!new)>(store: Store<K, V>, right: seq<nat>, k: K)
    requires forall i :: 0 <= i < |right| ==> right[i] in store
    ensures forall i :: 0 <= i < |Filter(KeyHeld(store, k), right)| ==> Filter(KeyHeld(store, k), right)[i] in store
    ensures Listed(store, Filter(KeyHeld(store, k), right)) == OfKey(Listed(store, right), k)
  {
    FilterAt(KeyHeld(store, k), right);
    if right != [] {
      ListedOfKey(store, right[1..], k);
      assert Listed(store, right)[1..] == Listed(store, right[1..]);
      assert right[0] in store;
    }
  }

  lemma SameElementsSameMultiset(a: seq<nat>, b: seq<nat>)
    requires NoDuplicates(a) && NoDuplicates(b) && forall x :: x in a <==> x in b
    ensures multiset(a) == multiset(b) && |a| == |b|
  {
    forall x ensures multiset(a)[x] == multiset(b)[x] {
      OnceInMultiset(a, x);
      OnceInMultiset(b, x);
    }
    assert |multiset(a)| == |a|;
  }

  lemma RemoveBoth(a: seq<nat>, b: seq<nat>, i: nat)
    requires a != [] && multiset(a) == multiset(b) && i < |b| && b[i] == a[0]
    ensures multiset(RemoveAt(a, 0)) == multiset(RemoveAt(b, i))
  {
    RemoveAtMultiset(a, 0);
    RemoveAtMultiset(b, i);
    var x := multiset{a[0]};
    calc {
      multiset(RemoveAt(a, 0));
      multiset(RemoveAt(a, 0)) + x - x;
      multiset(RemoveAt(b, i)) + x - x;
      multiset(RemoveAt(b, i));
    }
  }

  lemma ValuesRemoveAt<K(!new), V(!new)>(store: Store<K, V>, s: seq<nat>, i: nat)
    requires i < |s| && forall j :: 0 <= j < |s| ==> s[j] in store
    ensures forall j :: 0 <= j < |RemoveAt(s, i)| ==> RemoveAt(s, i)[j] in store
    ensures multiset(ValuesAt(store, s)) == multiset(ValuesAt(store, RemoveAt(s, i))) + multiset{store[s[i]].value}
  {
    assert ValuesAt(store, RemoveAt(s, i)) == RemoveAt(ValuesAt(store, s), i);
    RemoveAtMultiset(ValuesAt(store, s), i);
  }

  lemma {:induction false} ValuesPermute<K(!new), V(!new)>(store: Store<K, V>, a: seq<nat>, b: seq<nat>)
    requires forall i :: 0 <= i < |a| ==> a[i] in store
    requires forall i :: 0 <= i < |b| ==> b[i] in store
    requires multiset(a) == multiset(b)
    ensures multiset(ValuesAt(store, a)) == multiset(ValuesAt(store, b))
  {
    if a == [] {
      assert |multiset(b)| == 0;
    } else {
      assert a[0] in multiset(b);
      var i := IndexOf(b, a[0]);
      RemoveBoth(a, b, i);
      ValuesPermute(store, RemoveAt(a, 0), RemoveAt(b, i));
      ValuesRemoveAt(store, a, 0);
      ValuesRemoveAt(store, b, i);
    }
  }

  /** A bucket is the key's part of the list view, possibly in another order. */
  lemma RangeHoldsTheKey<K(!new), V(!new)>(store: Store<K, V>, right: seq<nat>, range: seq<nat>, key: K)
    requires RightView(store, right) && NoDuplicates(range)
    requires forall id :: id in range <==> id in store && store[id].key == key
    ensures forall i :: 0 <= i < |range| ==> range[i] in store
    ensures var mine := OfKey(Listed(store, right), key);
            |range| == |mine| && multiset(ValuesAt(store, range)) == multiset(ValuesIn(mine))
  {
    assert forall i :: 0 <= i < |range| ==> range[i] in range;
    var ids := Filter(KeyHeld(store, key), right);
    FilterMembers(KeyHeld(store, key), right);
    FilterAt(KeyHeld(store, key), right);
    FilterKeepsNoDuplicates(KeyHeld(store, key), right);
    ListedOfKey(store, right, key);
    assert ValuesAt(store, ids) == ValuesIn(OfKey(Listed(store, right), key));
    SameElementsSameMultiset(range, ids);
    ValuesPermute(store, range, ids);
  }

  class LruCache<K(==, !new), V(==, !new)> {
    const capacity: nat
    const cache: Bimap<K, V>

    ghost predicate Valid()
      reads this, cache
    {
      cache.Valid() && Consistent(capacity, cache.Contents())
    }

    /** The recency list, least recently used first. */
    ghost function Contents(): seq<Entry<K, V>>
      requires Valid()
      reads this, cache
    {
      cache.Contents()
    }

    constructor (capacity: nat := 0)
      ensures Valid() && fresh(cache) && this.capacity == capacity && Contents() == []
    {
      this.capacity := capacity;
      cache := new Bimap<K, V>();
    }

    /** Every id stands for one position of the recency list, and every position for one id. */
    lemma IdsAreEntries()
      requires Valid()
      ensures forall id :: id in cache.store ==> cache.store[id] in Contents()
      ensures forall i :: 0 <= i < |Contents()| ==>
                cache.right[i] in cache.store && Contents()[i] == cache.store[cache.right[i]]
    {
      forall id | id in cache.store ensures cache.store[id] in Contents() {
        assert Contents()[cache.Distance(id)] == cache.store[id];
      }
    }

    /** Scans the key's bucket, in whatever order it is, for the pair. */
    method FindEntry(key: K, value: V) returns (found: Option<nat>)
      requires Valid()
      ensures found.None? ==> Entry(key, value) !in Contents()
      ensures found.Some? ==> found.value in cache.store && cache.store[found.value] == Entry(key, value)
    {
      hide Consistent, NoDuplicates, LeftView;
      var range := cache.EqualRange(key);
      for i := 0 to |range|
        invariant forall j :: 0 <= j < i ==> range[j] in cache.store && cache.store[range[j]].value != value
      {
        assert range[i] in range;
        if cache.store[range[i]].value == value {
          return Some(range[i]);
        }
      }
      IdsAreEntries();
      return None;
    }

    /**
     Scans the key's bucket for the id that is nearest to the front of the list view. Whatever the
     bucket order, that is the key's first entry in the recency list.
     */
    method GetLruEntry(key: K) returns (found: Option<nat>)
      requires Valid()
      ensures found.Some? <==> LruOf(Contents(), key).Some?
      ensures found.Some? ==>
        found.value in cache.store && LruOf(Contents(), key) == Some(cache.store[found.value])
    {
      var range := cache.EqualRange(key);
      EmptyRange(cache.store, cache.right, range, key);
      if range == [] {
        return None;
      }
      var entry := range[0];
      for i := 0 to |range|
        invariant entry in range
        invariant forall j :: 0 <= j < i ==>
                    range[j] in cache.store && cache.Distance(entry) <= cache.Distance(range[j])
      {
        assert range[i] in range;
        if cache.Distance(range[i]) < cache.Distance(entry) {
          entry := range[i];
        }
      }
      forall id | id in range ensures cache.Distance(entry) <= cache.Distance(id) {
        assert range[IndexOf(range, id)] == id;
      }
      NearestIsLru(cache.store, cache.right, range, key, entry);
      return Some(entry);
    }

    method Get(key: K) returns (r: Option<V>)
      requires Valid()
      modifies cache
      ensures Valid()
      ensures Contents() == RecencyList.Get(old(Contents()), key)
      ensures r == ValueOf(LruOf(old(Contents()), key))
    {
      GetConsistent(capacity, Contents(), key);
      var entry := GetLruEntry(key);
      if entry.None? {
        return None;
      }
      r := Some(cache.store[entry.value].value);
      WithoutAt(Contents(), cache.Distance(entry.value));
      cache.RelocateToEnd(entry.value);
    }

    method Pop(key: K) returns (r: Option<V>)
      requires Valid()
      modifies cache
      ensures Valid()
      ensures Contents() == RecencyList.Pop(old(Contents()), key)
      ensures r == ValueOf(LruOf(old(Contents()), key))
    {
      GetConsistent(capacity, Contents(), key);
      var entry := GetLruEntry(key);
      if entry.None? {
        return None;
      }
      r := Some(cache.store[entry.value].value);
      WithoutAt(Contents(), cache.Distance(entry.value));
      cache.Erase(entry.value);
    }

    method Put(key: K, value: V)
      requires Valid()
      modifies cache
      ensures Valid()
      ensures Contents() == RecencyList.Put(capacity, old(Contents()), Entry(key, value))
    {
      ghost var x := Entry(key, value);
      PutConsistent(capacity, Contents(), x);
      WithoutMembers(Contents(), x);
      var duplicate := FindEntry(key, value);
      if duplicate.Some? {
        WithoutAt(Contents(), cache.Distance(duplicate.value));
        cache.Erase(duplicate.value);
      }
      assert cache.Contents() == Without(old(Contents()), x);
      if capacity != 0 && |cache.store| >= capacity {
        cache.Erase(cache.right[0]);
      }
      assert cache.Contents() == Evict(capacity, Without(old(Contents()), x));
      cache.Insert(Entry(key, value));
    }

    /** Returns the key's values in bucket order, so only the multiset is determined. */
    method RemoveKey(key: K) returns (removed: seq<V>)
      requires Valid()
      modifies cache
      ensures Valid()
      ensures Contents() == NotOfKey(old(Contents()), key)
      ensures |removed| == |OfKey(old(Contents()), key)|
      ensures multiset(removed) == multiset(ValuesIn(OfKey(old(Contents()), key)))
    {
      hide Consistent, NoDuplicates, LeftView, Filter;
      FilterConsistent(capacity, Contents(), LacksKey<K, V>(key));
      var range := cache.EqualRange(key);
      RangeHoldsTheKey(cache.store, cache.right, range, key);
      removed := [];
      for i := 0 to |range|
        invariant |removed| == i
        invariant forall j :: 0 <= j < i ==> removed[j] == cache.store[range[j]].value
      {
        removed := removed + [cache.store[range[i]].value];
      }
      assert removed == ValuesAt(cache.store, range);
      cache.EraseKey(key);
    }

    method Remove(key: K, value: V) returns (r: Option<V>)
      requires Valid()
      modifies cache
      ensures Valid()
      ensures Contents() == Without(old(Contents()), Entry(key, value))
      ensures r == if Entry(key, value) in old(Contents()) then Some(value) else None
    {
      WithoutConsistent(capacity, Contents(), Entry(key, value));
      WithoutMembers(Contents(), Entry(key, value));
      IdsAreEntries();
      var entry := FindEntry(key, value);
      if entry.None? {
        return None;
      }
      r := Some(cache.store[entry.value].value);
      WithoutAt(Contents(), cache.Distance(entry.value));
      cache.Erase(entry.value);
    }

    method Clear()
      requires Valid()
      modifies cache
      ensures Valid() && Contents() == []
    {
      cache.Clear();
    }

    method ContainsKey(key: K) returns (r: bool)
      requires Valid()
      ensures r <==> exists i :: 0 <= i < |Contents()| && Contents()[i].key == key
    {
      IdsAreEntries();
      var range := cache.EqualRange(key);
      if range != [] {
        assert range[0] in range;
        assert Contents()[cache.Distance(range[0])].key == key;
      }
      assert forall i :: 0 <= i < |Contents()| && Contents()[i].key == key ==> cache.right[i] in range;
      return range != [];
    }

    /** The key of the least recently used entry with this value. */
    method GetKey(value: V) returns (r: Option<K>)
      requires Valid()
      ensures r.None? ==> NoneBefore(Contents(), |Contents()|, value)
      ensures r.Some? ==>
        exists i :: 0 <= i < |Contents()| && Contents()[i] == Entry(r.value, value) && NoneBefore(Contents(), i, value)
    {
      hide Consistent, LeftView, NoDuplicates, Listed;
      ghost var list := Contents();
      IdsAreEntries();
      for i := 0 to |cache.right|
        invariant NoneBefore(list, i, value)
      {
        var entry := cache.store[cache.right[i]];
        if entry.value == value {
          assert list[i] == Entry(entry.key, value);
          return Some(entry.key);
        }
      }
      return None;
    }

    /**
     Visits the hash view in an unspecified order and inserts into a set ordered by `lessK` and
     `lessV`: no entry is lost and none is merged.
     */
    method EntrySet(lessK: (K, K) -> bool, lessV: (V, V) -> bool) returns (entries: seq<Entry<K, V>>)
      requires Valid() && StrictTotalOrder(lessK) && StrictTotalOrder(lessV)
      ensures forall i, j :: 0 <= i < j < |entries| ==>
                || lessK(entries[i].key, entries[j].key)
                || (entries[i].key == entries[j].key && lessV(entries[i].value, entries[j].value))
      ensures Elements(entries) == Elements(Contents()) && |entries| == |Contents()|
    {
      EntryLessIsTotal(lessK, lessV);
      entries := CollectEntries(EntryLess(lessK, lessV), cache.store);
      AllEntries(cache.store, cache.right);
      NoDuplicatesCardinality(Contents());
      AscendingCardinality(EntryLess(lessK, lessV), entries);
      AscendingPairs(lessK, lessV, entries);
    }

    /** The source reads the range before testing it, so the key has to be present. */
    method ValueSet(key: K, less: (V, V) -> bool) returns (values: seq<V>)
      requires Valid() && LruOf(Contents(), key).Some? && StrictTotalOrder(less)
      ensures Ascending(less, values) && Elements(values) == Elements(ValuesIn(OfKey(Contents(), key)))
    {
      var range := cache.EqualRange(key);
      RangeHoldsTheKey(cache.store, cache.right, range, key);
      ghost var all := ValuesAt(cache.store, range);
      values := InsertOrdered(less, [], cache.store[range[0]].value);
      assert all[..1] == [all[0]];
      var itr := 1;
      while itr != |range|
        invariant 1 <= itr <= |range|
        invariant Ascending(less, values) && Elements(values) == Elements(all[..itr])
      {
        assert all[..itr + 1] == all[..itr] + [all[itr]];
        ElementsAppend(all[..itr], all[itr]);
        InsertOrderedElements(less, values, all[itr]);
        values := InsertOrdered(less, values, cache.store[range[itr]].value);
        itr := itr + 1;
      }
      assert all[..itr] == all;
      SameMultisetSameElements(all, ValuesIn(OfKey(Contents(), key)));
    }

    method Size() returns (n: nat)
      requires Valid()
      ensures n == |Contents()|
    {
      return |cache.store|;
    }

    method IsFull() returns (r: bool)
      requires Valid()
      ensures r <==> RecencyList.IsFull(capacity, Contents())
    {
      if capacity == 0 {
        return false;
      }
      var n := Size();
      return n >= capacity;
    }

    method ValueRange(key: K) returns (n: nat)
      requires Valid()
      ensures n == |OfKey(Contents(), key)|
    {
      RangeHoldsTheKey(cache.store, cache.right, cache.EqualRange(key), key);
      return |cache.EqualRange(key)|;
    }
  }
}
