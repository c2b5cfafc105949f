/** `std::set` as a sorted sequence: what an insertion keeps depends on the comparison it is given. */
module OrderedSets {
  import opened Sequences
  import opened RecencyList

  ghost predicate StrictTotalOrder<T(!new)>(less: (T, T) -> bool) {
    && (forall a :: !less(a, a))
    && (forall a, b :: less(a, b) || less(b, a) || a == b)
    && (forall a, b, c :: less(a, b) && less(b, c) ==> less(a, c))
  }

  ghost predicate Ascending<T>(less: (T, T) -> bool, s: seq<T>) {
    forall i, j :: 0 <= i < j < |s| ==> less(s[i], s[j])
  }

  /** An element that is neither less nor greater than a present one is not inserted. */
  function InsertOrdered<T>(less: (T, T) -> bool, s: seq<T>, x: T): seq<T> {
    if s == [] then [x]
    else if less(s[0], x) then [s[0]] + InsertOrdered(less, s[1..], x)
    else if less(x, s[0]) then [x] + s
    else s
  }

  /** Under a strict total order no inserted element is lost. */
  lemma {:induction false} InsertOrderedLosesNone<T(!new)>(less: (T, T) -> bool, s: seq<T>, x: T)
    requires StrictTotalOrder(less) && Ascending(less, s)
    ensures Ascending(less, InsertOrdered(less, s, x))
    ensures forall y :: y in InsertOrdered(less, s, x) <==> y in s || y == x
  {
    if s != [] {
      assert s == [s[0]] + s[1..];
      if less(s[0], x) {
        InsertOrderedLosesNone(less, s[1..], x);
        assert forall y :: y in s[1..] ==> less(s[0], y);
      }
    }
  }

  lemma InsertOrderedElements<T(!new)>(less: (T, T) -> bool, s: seq<T>, x: T)
    requires StrictTotalOrder(less) && Ascending(less, s)
    ensures Ascending(less, InsertOrdered(less, s, x))
    ensures Elements(InsertOrdered(less, s, x)) == Elements(s) + {x}
  {
    InsertOrderedLosesNone(less, s, x);
  }

  /** A set has as many members as its sorted sequence has places. */
  lemma AscendingCardinality<T(!new)>(less: (T, T) -> bool, s: seq<T>)
    requires StrictTotalOrder(less) && Ascending(less, s)
    ensures |Elements(s)| == |s|
  {
    assert forall i, j :: 0 <= i < j < |s| ==> less(s[i], s[j]) && !less(s[i], s[i]);
    NoDuplicatesCardinality(s);
  }

  /** `std::pair`: by key, then by value. */
  function EntryLess<K, V>(lessK: (K, K) -> bool, lessV: (V, V) -> bool): (Entry<K, V>, Entry<K, V>) -> bool {
    (a: Entry<K, V>, b: Entry<K, V>) => lessK(a.key, b.key) || (!lessK(b.key, a.key) && lessV(a.value, b.value))
  }

  lemma EntryLessIsTotal<K(!new), V(!new)>(lessK: (K, K) -> bool, lessV: (V, V) -> bool)
    requires StrictTotalOrder(lessK) && StrictTotalOrder(lessV)
    ensures StrictTotalOrder(EntryLess(lessK, lessV))
  {
    var pair := EntryLess(lessK, lessV);
    forall a, b ensures !pair(a, a) && (pair(a, b) || pair(b, a) || a == b) {
      assert lessK(a.key, b.key) || lessK(b.key, a.key) || a.key == b.key;
      assert lessV(a.value, b.value) || lessV(b.value, a.value) || a.value == b.value;
      assert !lessV(a.value, a.value) && !lessK(a.key, a.key);
    }
    forall a, b, c | pair(a, b) && pair(b, c) ensures pair(a, c) {
      assert lessK(a.key, b.key) || lessK(b.key, a.key) || a.key == b.key;
      assert lessK(b.key, c.key) || lessK(c.key, b.key) || b.key == c.key;
      assert lessK(a.key, b.key) && lessK(b.key, c.key) ==> lessK(a.key, c.key);
      assert lessV(a.value, b.value) && lessV(b.value, c.value) ==> lessV(a.value, c.value);
      assert !lessK(a.key, a.key);
    }
  }

  /** In a set of pairs the keys ascend, and the values of one key ascend. */
  lemma AscendingPairs<K(!new), V(!new)>(lessK: (K, K) -> bool, lessV: (V, V) -> bool, s: seq<Entry<K, V>>)
    requires StrictTotalOrder(lessK) && Ascending(EntryLess(lessK, lessV), s)
    ensures forall i, j :: 0 <= i < j < |s| ==>
              lessK(s[i].key, s[j].key) || (s[i].key == s[j].key && lessV(s[i].value, s[j].value))
  {
    forall i, j | 0 <= i < j < |s|
      ensures lessK(s[i].key, s[j].key) || (s[i].key == s[j].key && lessV(s[i].value, s[j].value))
    {
      assert EntryLess(lessK, lessV)(s[i], s[j]);
      assert lessK(s[i].key, s[j].key) || lessK(s[j].key, s[i].key) || s[i].key == s[j].key;
    }
  }
}
