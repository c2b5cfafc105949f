/** How the values that share one key are served, and how the keys share the cache. */
module KeyFairness {
  import opened Wrappers
  import opened Sequences
  import opened RecencyList

  /** The list after `n` consecutive `get(k)`. */
  function GetTimes<K(==), V(==)>(list: seq<Entry<K, V>>, k: K, n: nat): seq<Entry<K, V>>
    decreases n
  {
    if n == 0 then list else GetTimes(Get(list, k), k, n - 1)
  }

  /** What `n` consecutive `get(k)` return. */
  function Returned<K(==), V(==)>(list: seq<Entry<K, V>>, k: K, n: nat): seq<Option<V>>
    decreases n
  {
    if n == 0 then [] else [ValueOf(LruOf(list, k))] + Returned(Get(list, k), k, n - 1)
  }

  /** The values of key `k`, least recently used first. */
  function ValuesOf<K(==), V>(list: seq<Entry<K, V>>, k: K): seq<V> {
    var mine := OfKey(list, k);
    seq(|mine|, i requires 0 <= i < |mine| => mine[i].value)
  }

  lemma ValuesDiffer<K(!new), V(!new)>(list: seq<Entry<K, V>>, k: K)
    requires NoDuplicates(list)
    ensures NoDuplicates(ValuesOf(list, k))
  {
    KeyAt(list, k);
    KeyMembers(list, k);
    var mine := OfKey(list, k);
    assert forall i :: 0 <= i < |mine| ==> mine[i] == Entry(k, mine[i].value);
  }

  lemma RemoveFromFront<T>(a: seq<T>, b: seq<T>, i: nat)
    requires i < |a|
    ensures RemoveAt(a + b, i) + [a[i]] == RemoveAt(a, i) + (b + [a[i]])
  {
  }

  lemma ServeOne<K(!new), V(!new)>(waiting: seq<Entry<K, V>>, served: seq<Entry<K, V>>, k: K, i: nat)
    requires NoDuplicates(waiting + served) && i < |waiting|
    requires waiting[i].key == k && forall j :: 0 <= j < i ==> waiting[j].key != k
    ensures LruOf(waiting + served, k) == Some(waiting[i])
    ensures Get(waiting + served, k) == RemoveAt(waiting, i) + (served + [waiting[i]])
    ensures NoDuplicates(RemoveAt(waiting, i) + (served + [waiting[i]]))
    ensures OfKey(waiting, k) == [waiting[i]] + OfKey(RemoveAt(waiting, i), k)
    ensures NotOfKey(waiting, k) == NotOfKey(RemoveAt(waiting, i), k)
  {
    var all := waiting + served;
    assert all[i] == waiting[i] && forall j :: 0 <= j < |waiting| ==> all[j] == waiting[j];
    FirstIsLruOf(all, i);
    WithoutAt(all, i);
    RemoveFromFront(waiting, served, i);
    WithoutConsistent(0, all, waiting[i]);
    WithoutAt(waiting, i);
    DropFirstOfKey(waiting, k, i);
  }

  /**
   When the entries `served` of `k` have already moved to the back, gets on `k` return its waiting
   entries in their order, and move them behind the served ones.
   */
  ghost predicate Serves<K, V>(waiting: seq<Entry<K, V>>, served: seq<Entry<K, V>>, k: K) {
    var n := |OfKey(waiting, k)|;
    && GetTimes(waiting + served, k, n) == NotOfKey(waiting, k) + served + OfKey(waiting, k)
    && |Returned(waiting + served, k, n)| == n
    && forall i :: 0 <= i < n ==> Returned(waiting + served, k, n)[i] == Some(OfKey(waiting, k)[i].value)
  }

  lemma ServesNone<K(!new), V(!new)>(waiting: seq<Entry<K, V>>, served: seq<Entry<K, V>>, k: K)
    requires LruOf(waiting, k).None?
    ensures Serves(waiting, served, k)
  {
    LruOfIsFirst(waiting, k);
    FilterAll(LacksKey<K, V>(k), waiting);
    assert waiting + served == waiting + served + [];
  }

  lemma MoveToServed<T>(others: seq<T>, served: seq<T>, x: T, rest: seq<T>)
    ensures others + (served + [x]) + rest == others + served + ([x] + rest)
  {
  }

  lemma ServedFirst<K, V>(x: Entry<K, V>, rest: seq<Entry<K, V>>, returned: seq<Option<V>>)
    requires |returned| == |rest| && forall i :: 0 <= i < |rest| ==> returned[i] == Some(rest[i].value)
    ensures forall i :: 0 <= i <= |rest| ==> ([Some(x.value)] + returned)[i] == Some(([x] + rest)[i].value)
  {
  }

  lemma ServesMore<K(!new), V(!new)>(waiting: seq<Entry<K, V>>, served: seq<Entry<K, V>>, k: K, x: Entry<K, V>,
                                     rest: seq<Entry<K, V>>)
    requires LruOf(waiting + served, k) == Some(x) && Get(waiting + served, k) == rest + (served + [x])
    requires OfKey(waiting, k) == [x] + OfKey(rest, k) && NotOfKey(waiting, k) == NotOfKey(rest, k)
    requires Serves(rest, served + [x], k)
    ensures Serves(waiting, served, k)
  {
    hide OfKey, NotOfKey, LruOf, Get;
    MoveToServed(NotOfKey(rest, k), served, x, OfKey(rest, k));
    ServedFirst(x, OfKey(rest, k), Returned(rest + (served + [x]), k, |OfKey(rest, k)|));
  }

  lemma {:induction false} ServeRest<K(!new), V(!new)>(waiting: seq<Entry<K, V>>, served: seq<Entry<K, V>>, k: K)
    requires NoDuplicates(waiting + served)
    requires forall x :: x in served ==> x.key == k
    ensures Serves(waiting, served, k)
    decreases |waiting|
  {
    hide Serves, Filter;
    LruOfIsFirst(waiting, k);
    if LruOf(waiting, k).None? {
      ServesNone(waiting, served, k);
    } else {
      var x := LruOf(waiting, k).value;
      var i := IndexOf(waiting, x);
      ServeOne(waiting, served, k, i);
      ServeRest(RemoveAt(waiting, i), served + [x], k);
      ServesMore(waiting, served, k, x, RemoveAt(waiting, i));
    }
  }

  /**
   Main result: if a key has n values, n consecutive gets return each of them exactly once, least
   recently used first, and rotate the key's entries to the back in their old order.
   */
  lemma RoundRobin<K(!new), V(!new)>(list: seq<Entry<K, V>>, k: K)
    requires NoDuplicates(list)
    ensures var n := |OfKey(list, k)|;
            && GetTimes(list, k, n) == NotOfKey(list, k) + OfKey(list, k)
            && |Returned(list, k, n)| == n
            && NoDuplicates(ValuesOf(list, k))
            && forall i :: 0 <= i < n ==> Returned(list, k, n)[i] == Some(ValuesOf(list, k)[i])
  {
    assert list + [] == list;
    ServeRest(list, [], k);
    EmptyMiddle(NotOfKey(list, k), OfKey(list, k));
    ValuesDiffer(list, k);
  }

  // ---------------------------------------------------------------------------------------------
  // Counting entries by key
  // ---------------------------------------------------------------------------------------------

  /** The sizes of the keys' ranges, added up. */
  ghost function RangeSum<K, V>(list: seq<Entry<K, V>>, keys: set<K>): nat {
    if keys == {} then 0
    else
      var k :| k in keys;
      |OfKey(list, k)| + RangeSum(list, keys - {k})
  }

  lemma {:induction false} RangeSumAgrees<K(!new), V(!new)>(a: seq<Entry<K, V>>, b: seq<Entry<K, V>>, keys: set<K>)
    requires forall k :: k in keys ==> OfKey(a, k) == OfKey(b, k)
    ensures RangeSum(a, keys) == RangeSum(b, keys)
    decreases keys
  {
    if keys != {} {
      var k :| k in keys && RangeSum(a, keys) == |OfKey(a, k)| + RangeSum(a, keys - {k})
                         && RangeSum(b, keys) == |OfKey(b, k)| + RangeSum(b, keys - {k});
      RangeSumAgrees(a, b, keys - {k});
    }
  }

  lemma {:induction false} SplitByKey<K(!new), V(!new)>(list: seq<Entry<K, V>>, k: K)
    ensures |list| == |OfKey(list, k)| + |NotOfKey(list, k)|
  {
    if list != [] {
      SplitByKey(list[1..], k);
    }
  }

  /** Every entry is counted under exactly one key. */
  lemma {:induction false} RangesAddUp<K(!new), V(!new)>(list: seq<Entry<K, V>>, keys: set<K>)
    requires forall i :: 0 <= i < |list| ==> list[i].key in keys
    ensures RangeSum(list, keys) == |list|
    decreases keys
  {
    assert |list| > 0 ==> list[0].key in keys;
    if keys != {} {
      var k :| k in keys && RangeSum(list, keys) == |OfKey(list, k)| + RangeSum(list, keys - {k});
      var others := NotOfKey(list, k);
      KeyAt(list, k);
      RangesAddUp(others, keys - {k});
      forall k' | k' in keys - {k} ensures OfKey(others, k') == OfKey(list, k') {
        FilterTwice(HasKey<K, V>(k'), LacksKey<K, V>(k), HasKey<K, V>(k'), list);
      }
      RangeSumAgrees(list, others, keys - {k});
      SplitByKey(list, k);
    }
  }
}
