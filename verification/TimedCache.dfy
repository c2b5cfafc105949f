/**
 The cache with timed expiration. It wraps each value with the second at which it was put and
 drops expired entries lazily, on top of the size-limited cache. Lookups that return nothing
 because of expiry take the base cache's lock twice; `Interleaving` treats those as two steps.
 */
module TimedCache {
  import opened Wrappers
  import opened Sequences
  import opened RecencyList
  import opened OrderedSets
  import opened TimedList
  import opened Bimap
  import Base = LruCache

  /** The wall clock: every reading is at least the one before. */
  class Clock {
    var now: nat

    constructor () {
      now := 0;
    }

    method Read() returns (t: nat)
      modifies this
      ensures old(now) <= now == t
    {
      t :| now <= t;
      now := t;
    }
  }

  function NotAmong<T(==)>(entries: seq<T>): T -> bool {
    (x: T) => x !in entries
  }

  /** `expired` are exactly the entries with `value` among the first `i`, all of them past their time. */
  ghost predicate ScannedUpTo<K, V>(list: seq<Timed<K, V>>, value: V, expiration: nat, now: nat, i: nat,
                                    expired: seq<Timed<K, V>>)
    requires i <= |list|
  {
    && (forall x :: x in expired ==> x in list[..i] && x.value.value == value)
    && (forall j :: 0 <= j < i && list[j].value.value == value ==>
          list[j] in expired && Expired(now, expiration, list[j].value.timestamp))
  }

  lemma ScanOne<K(!new), V(!new)>(less: (Timed<K, V>, Timed<K, V>) -> bool, list: seq<Timed<K, V>>, value: V,
                                  expiration: nat, before: nat, now: nat, i: nat, expired: seq<Timed<K, V>>)
    requires StrictTotalOrder(less) && Ascending(less, expired)
    requires i < |list| && ScannedUpTo(list, value, expiration, before, i, expired) && before <= now
    requires list[i].value.value == value ==> Expired(now, expiration, list[i].value.timestamp)
    ensures var grown := if list[i].value.value == value then InsertOrdered(less, expired, list[i]) else expired;
            Ascending(less, grown) && ScannedUpTo(list, value, expiration, now, i + 1, grown)
  {
    InsertOrderedLosesNone(less, expired, list[i]);
    assert list[..i + 1] == list[..i] + [list[i]];
  }

  lemma RemoveScanned<K(!new), V(!new)>(list: seq<Timed<K, V>>, value: V, cut: nat, expired: seq<Timed<K, V>>)
    requires NoDuplicates(list) && cut <= |list|
    requires forall x :: x in expired ==> x in list[..cut] && x.value.value == value
    requires forall j :: 0 <= j < cut && list[j].value.value == value ==> list[j] in expired
    ensures Filter(NotAmong(expired), list) == Filter(LacksValue(value), list[..cut]) + list[cut..]
  {
    var seen, rest := list[..cut], list[cut..];
    assert list == seen + rest;
    FilterConcat(NotAmong(expired), seen, rest);
    FilterAgree(NotAmong(expired), LacksValue(value), seen);
    FilterAll(NotAmong(expired), rest);
  }

  lemma ValuesOneMore<K(!new), V(!new)>(entries: seq<Entry<K, V>>, i: nat)
    requires i < |entries|
    ensures Base.ValuesIn(entries[..i + 1]) == Base.ValuesIn(entries[..i]) + [entries[i].value]
  {
  }

  lemma WithoutOneMore<K(!new), V(!new)>(entries: seq<Entry<K, V>>, i: nat, list: seq<Entry<K, V>>)
    requires i < |entries|
    ensures Without(Filter(NotAmong(entries[..i]), list), entries[i]) == Filter(NotAmong(entries[..i + 1]), list)
  {
    FilterTwice(Differs(entries[i]), NotAmong(entries[..i]), NotAmong(entries[..i + 1]), list);
  }

  lemma WithoutCollected<K(!new), V(!new)>(entries: seq<Timed<K, V>>, list: seq<Timed<K, V>>, key: K, value: V)
    requires forall x :: x in entries <==> x.key == key && x.value.value == value && x in list
    ensures Filter(NotAmong(entries), list) == WithoutPair(list, key, value)
  {
    FilterAgree(NotAmong(entries), LacksPair(key, value), list);
  }

  lemma ValuesOfOneKey<K(!new), V(!new)>(entries: seq<Entry<K, V>>, key: K)
    requires forall x :: x in entries ==> x.key == key
    ensures forall v :: v in Base.ValuesIn(entries) <==> Entry(key, v) in entries
  {
    var values := Base.ValuesIn(entries);
    forall v ensures v in values <==> Entry(key, v) in entries {
      if v in values {
        var x := entries[IndexOf(values, v)];
        assert x in entries && x == Entry(key, v);
      }
      if Entry(key, v) in entries {
        assert values[IndexOf(entries, Entry(key, v))] == v;
      }
    }
  }

  ghost predicate Holds<K, V>(store: Store<K, V>, id: nat, x: Entry<K, V>) {
    id in store && store[id] == x
  }

  /** `entries` are exactly the entries with `value` behind the first `n` ids. */
  ghost predicate CollectedFrom<K, V>(store: Store<K, CacheValue<V>>, ids: seq<nat>, n: nat, value: V,
                                      entries: seq<Timed<K, V>>)
    requires n <= |ids|
  {
    && (forall x :: x in entries ==> x.value.value == value && exists j :: 0 <= j < n && Holds(store, ids[j], x))
    && (forall j :: 0 <= j < n ==> ids[j] in store && (store[ids[j]].value.value == value ==> store[ids[j]] in entries))
  }

  lemma CollectOne<K(!new), V(!new)>(less: (Timed<K, V>, Timed<K, V>) -> bool, store: Store<K, CacheValue<V>>,
                                     ids: seq<nat>, n: nat, value: V, entries: seq<Timed<K, V>>)
    requires StrictTotalOrder(less) && Ascending(less, entries)
    requires n < |ids| && CollectedFrom(store, ids, n, value, entries) && ids[n] in store
    ensures var x := store[ids[n]];
            var grown := if x.value.value == value then InsertOrdered(less, entries, x) else entries;
            Ascending(less, grown) && CollectedFrom(store, ids, n + 1, value, grown)
  {
    InsertOrderedLosesNone(less, entries, store[ids[n]]);
    assert Holds(store, ids[n], store[ids[n]]);
  }

  /** Inserts the entries with `value` behind `range` into an ordered set, in bucket order. */
  method Collect<K(!new), V(==, !new)>(less: (Timed<K, V>, Timed<K, V>) -> bool, store: Store<K, CacheValue<V>>,
                                       range: seq<nat>, value: V)
    returns (entries: seq<Timed<K, V>>)
    requires StrictTotalOrder(less) && forall i :: 0 <= i < |range| ==> range[i] in store
    ensures Ascending(less, entries) && CollectedFrom(store, range, |range|, value, entries)
  {
    entries := [];
    for i := 0 to |range|
      invariant Ascending(less, entries) && CollectedFrom(store, range, i, value, entries)
    {
      CollectOne(less, store, range, i, value, entries);
      var entry := store[range[i]];
      if entry.value.value == value {
        entries := InsertOrdered(less, entries, entry);
      }
    }
  }

  lemma AllCollected<K(!new), V(!new)>(store: Store<K, CacheValue<V>>, right: seq<nat>, range: seq<nat>, key: K,
                                       value: V, entries: seq<Timed<K, V>>)
    requires RightView(store, right)
    requires forall id :: id in range <==> id in store && store[id].key == key
    requires CollectedFrom(store, range, |range|, value, entries)
    ensures forall x :: x in entries <==> x.key == key && x.value.value == value && x in Listed(store, right)
  {
    forall x | x in entries ensures x.key == key && x in Listed(store, right) {
      var j :| 0 <= j < |range| && Holds(store, range[j], x);
      assert range[j] in range;
      assert Listed(store, right)[IndexOf(right, range[j])] == x;
    }
    forall x | x in Listed(store, right) && x.key == key && x.value.value == value ensures x in entries {
      var id := right[IndexOf(Listed(store, right), x)];
      assert range[IndexOf(range, id)] == id;
    }
  }

  lemma AscendingStamps<K(!new), V(!new)>(lessK: (K, K) -> bool, lessV: (V, V) -> bool, key: K, value: V,
                                          entries: seq<Timed<K, V>>)
    requires StrictTotalOrder(lessK) && Ascending(EntryLess(lessK, ValueLess(lessV)), entries)
    requires forall x :: x in entries ==> x.key == key && x.value.value == value
    ensures forall i, j :: 0 <= i < j < |entries| ==> entries[i].value.timestamp < entries[j].value.timestamp
  {
  }

  class TimedCache<K(==, !new), V(==, !new)> {
    const base: Base.LruCache<K, CacheValue<V>>
    const expiration: nat
    const lessK: (K, K) -> bool
    const lessV: (V, V) -> bool

    ghost predicate Valid()
      reads this, base, base.cache
    {
      base.Valid() && StrictTotalOrder(lessK) && StrictTotalOrder(lessV)
    }

    ghost function Contents(): seq<Timed<K, V>>
      requires Valid()
      reads this, base, base.cache
    {
      base.Contents()
    }

    constructor (lessK: (K, K) -> bool, lessV: (V, V) -> bool, capacity: nat := 1000, expiration: nat := 43200)
      requires StrictTotalOrder(lessK) && StrictTotalOrder(lessV)
      ensures Valid() && fresh(base) && fresh(base.cache) && Contents() == []
      ensures base.capacity == capacity && this.expiration == expiration
    {
      this.lessK, this.lessV, this.expiration := lessK, lessV, expiration;
      base := new Base.LruCache<K, CacheValue<V>>(capacity);
    }

    /** Reads the clock. */
    method IsExpired(timestamp: nat, clock: Clock) returns (r: bool)
      modifies clock
      ensures old(clock.now) <= clock.now
      ensures r == Expired(clock.now, expiration, timestamp)
    {
      if expiration == 0 {
        return false;
      }
      var now := clock.Read();
      return now >= (timestamp + expiration) * MICROS;
    }

    method Get(key: K, clock: Clock) returns (r: Option<V>)
      requires Valid()
      modifies base.cache, clock
      ensures Valid() && old(clock.now) <= clock.now
      ensures Outcome(Contents(), r) == GetTimed(old(Contents()), key, clock.now, expiration)
    {
      LruOfIsFirst(Contents(), key);
      var cacheValue := base.Get(key);
      if cacheValue.None? {
        return None;
      }
      var value := cacheValue.value;
      DropAfterTouch(old(Contents()), Entry(key, value));
      var expired := IsExpired(value.timestamp, clock);
      if expired {
        var _ := base.Remove(key, value);
        return None;
      }
      return Some(value.value);
    }

    method Pop(key: K, clock: Clock) returns (r: Option<V>)
      requires Valid()
      modifies base.cache, clock
      ensures Valid() && old(clock.now) <= clock.now
      ensures Outcome(Contents(), r) == PopTimed(old(Contents()), key, clock.now, expiration)
    {
      LruOfIsFirst(Contents(), key);
      var cacheValue := base.Pop(key);
      if cacheValue.None? {
        return None;
      }
      var value := cacheValue.value;
      var expired := IsExpired(value.timestamp, clock);
      return if expired then None else Some(value.value);
    }

    method Put(key: K, value: V, clock: Clock)
      requires Valid()
      modifies base.cache, clock
      ensures Valid() && old(clock.now) <= clock.now
      ensures Contents() ==
        RecencyList.Put(base.capacity, old(Contents()), Entry(key, CacheValue(Stamp(clock.now), value)))
    {
      var now := clock.Read();
      base.Put(key, CacheValue(now / MICROS, value));
    }

    /**
     Reverse lookup, in one critical section. The clock may advance from one entry to the next;
     `LookupFindsFirstLive` says what this means when it does not.
     */
    method GetKey(value: V, clock: Clock) returns (key: Option<K>)
      requires Valid()
      modifies base.cache, clock
      ensures Valid() && old(clock.now) <= clock.now
      ensures LookupOutcome(old(Contents()), value, expiration, old(clock.now), clock.now, key, Contents())
    {
      ValueLessIsTotal(lessV);
      EntryLessIsTotal(lessK, ValueLess(lessV));
      ghost var list := Contents();
      ghost var cut;
      var expired;
      var entries := Listed(base.cache.store, base.cache.right);
      key, expired, cut := Scan(EntryLess(lessK, ValueLess(lessV)), entries, value, clock);
      var _ := RemoveAll(expired);
      RemoveScanned(list, value, cut, expired);
      assert LookupUpTo(list, value, expiration, old(clock.now), clock.now, cut, key, Contents());
    }

    /** Walks the list view up to the first live entry with `value`; collects the expired ones before it. */
    method Scan(less: (Timed<K, V>, Timed<K, V>) -> bool, list: seq<Timed<K, V>>, value: V, clock: Clock)
      returns (key: Option<K>, expired: seq<Timed<K, V>>, ghost cut: nat)
      requires StrictTotalOrder(less)
      modifies clock
      ensures old(clock.now) <= clock.now
      ensures cut <= |list| && ScannedUpTo(list, value, expiration, clock.now, cut, expired)
      ensures cut == |list| ==> key.None?
      ensures cut < |list| ==>
        var x := list[cut];
        x.value.value == value && !Expired(old(clock.now), expiration, x.value.timestamp) && key == Some(x.key)
    {
      expired := [];
      for i := 0 to |list|
        invariant old(clock.now) <= clock.now
        invariant Ascending(less, expired)
        invariant ScannedUpTo(list, value, expiration, clock.now, i, expired)
      {
        var entry := list[i];
        ghost var before := clock.now;
        if entry.value.value == value {
          var isExpired := IsExpired(entry.value.timestamp, clock);
          if !isExpired {
            return Some(entry.key), expired, i;
          }
        }
        ScanOne(less, list, value, expiration, before, clock.now, i, expired);
        if entry.value.value == value {
          expired := InsertOrdered(less, expired, entry);
        }
      }
      return None, expired, |list|;
    }

    /**
     Removes the entries of `key` and `value` whatever their stamps, and returns them oldest stamp
     first: that is the order of the set they are collected in.
     */
    method RemovePair(key: K, value: V) returns (removed: seq<CacheValue<V>>)
      requires Valid()
      modifies base.cache
      ensures Valid()
      ensures Contents() == WithoutPair(old(Contents()), key, value)
      ensures forall x :: x in removed <==> x.value == value && Entry(key, x) in old(Contents())
      ensures forall i, j :: 0 <= i < j < |removed| ==> removed[i].timestamp < removed[j].timestamp
    {
      var toRemove := CollectPair(key, value);
      WithoutCollected(toRemove, Contents(), key, value);
      ValuesOfOneKey(toRemove, key);
      removed := RemoveAll(toRemove);
    }

    /** The key's entries with this value, as the ordered set that the source collects. */
    method CollectPair(key: K, value: V) returns (entries: seq<Timed<K, V>>)
      requires Valid()
      ensures Ascending(EntryLess(lessK, ValueLess(lessV)), entries)
      ensures forall x :: x in entries <==> x.key == key && x.value.value == value && x in Contents()
      ensures forall i, j :: 0 <= i < j < |entries| ==> entries[i].value.timestamp < entries[j].value.timestamp
    {
      ValueLessIsTotal(lessV);
      EntryLessIsTotal(lessK, ValueLess(lessV));
      var range := base.cache.EqualRange(key);
      assert forall i :: 0 <= i < |range| ==> range[i] in range;
      entries := Collect(EntryLess(lessK, ValueLess(lessV)), base.cache.store, range, value);
      AllCollected(base.cache.store, base.cache.right, range, key, value, entries);
      AscendingStamps(lessK, lessV, key, value, entries);
    }

    /** Removes each of `entries`, one after the other, and lists their values. */
    method RemoveAll(entries: seq<Timed<K, V>>) returns (removed: seq<CacheValue<V>>)
      requires Valid()
      modifies base.cache
      ensures Valid()
      ensures Contents() == Filter(NotAmong(entries), old(Contents()))
      ensures removed == Base.ValuesIn(entries)
    {
      ghost var list := Contents();
      FilterAll(NotAmong<Timed<K, V>>([]), list);
      removed := [];
      for i := 0 to |entries|
        invariant base.Valid()
        invariant base.Contents() == Filter(NotAmong(entries[..i]), list)
        invariant removed == Base.ValuesIn(entries[..i])
      {
        var entry := entries[i];
        ValuesOneMore(entries, i);
        WithoutOneMore(entries, i, list);
        var _ := base.Remove(entry.key, entry.value);
        removed := removed + [entry.value];
      }
      assert entries[..|entries|] == entries;
    }
  }
}
