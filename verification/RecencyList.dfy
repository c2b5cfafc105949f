/**
 The cache seen as one plain sequence of entries, least recently used first. These functions are
 the meaning that the methods of `LruCache` are proved against; the theorems about whole runs are
 proved about them.
 */
module RecencyList {
  import opened Wrappers
  import opened Sequences

  datatype Entry<K, V> = Entry(key: K, value: V)

  function HasKey<K(==), V>(k: K): Entry<K, V> -> bool {
    (e: Entry<K, V>) => e.key == k
  }

  function LacksKey<K(==), V>(k: K): Entry<K, V> -> bool {
    (e: Entry<K, V>) => e.key != k
  }

  function Differs<K(==), V(==)>(x: Entry<K, V>): Entry<K, V> -> bool {
    (e: Entry<K, V>) => e != x
  }

  function Without<K(==), V(==)>(list: seq<Entry<K, V>>, x: Entry<K, V>): seq<Entry<K, V>> {
    Filter(Differs(x), list)
  }

  /** The entries of key `k`, least recently used first. */
  function OfKey<K(==), V>(list: seq<Entry<K, V>>, k: K): seq<Entry<K, V>> {
    Filter(HasKey(k), list)
  }

  function NotOfKey<K(==), V>(list: seq<Entry<K, V>>, k: K): seq<Entry<K, V>> {
    Filter(LacksKey(k), list)
  }

  /** The least recently used entry of key `k`. */
  function LruOf<K(==), V>(list: seq<Entry<K, V>>, k: K): Option<Entry<K, V>> {
    var mine := OfKey(list, k);
    if mine == [] then None else Some(mine[0])
  }

  function ValueOf<K, V>(e: Option<Entry<K, V>>): Option<V> {
    if e.None? then None else Some(e.value.value)
  }

  /** `x` becomes the most recently used entry. */
  function Touch<K(==), V(==)>(list: seq<Entry<K, V>>, x: Entry<K, V>): seq<Entry<K, V>> {
    Without(list, x) + [x]
  }

  /** Capacity 0 means unlimited. */
  predicate IsFull<T>(capacity: nat, list: seq<T>) {
    capacity != 0 && |list| >= capacity
  }

  function Evict<T>(capacity: nat, list: seq<T>): seq<T> {
    if IsFull(capacity, list) then list[1..] else list
  }

  function Put<K(==), V(==)>(capacity: nat, list: seq<Entry<K, V>>, x: Entry<K, V>): seq<Entry<K, V>> {
    Evict(capacity, Without(list, x)) + [x]
  }

  function Get<K(==), V(==)>(list: seq<Entry<K, V>>, k: K): seq<Entry<K, V>> {
    match LruOf(list, k)
    case None => list
    case Some(x) => Touch(list, x)
  }

  function Pop<K(==), V(==)>(list: seq<Entry<K, V>>, k: K): seq<Entry<K, V>> {
    match LruOf(list, k)
    case None => list
    case Some(x) => Without(list, x)
  }

  /** What every reachable state satisfies: no pair twice, and never more than the capacity. */
  ghost predicate Consistent<T>(capacity: nat, list: seq<T>) {
    NoDuplicates(list) && (capacity != 0 ==> |list| <= capacity)
  }

  // ---------------------------------------------------------------------------------------------
  // The list after an operation
  // ---------------------------------------------------------------------------------------------

  /** `LruOf` is the entry of the key with the smallest list position. */
  lemma {:induction false} LruOfIsFirst<K(!new), V(!new)>(list: seq<Entry<K, V>>, k: K)
    ensures LruOf(list, k).None? <==> forall x :: x in list ==> x.key != k
    ensures LruOf(list, k).Some? ==>
      var x := LruOf(list, k).value;
      x.key == k && x in list && forall j :: 0 <= j < IndexOf(list, x) ==> list[j].key != k
  {
    FilterMembers(HasKey(k), list);
    if list != [] {
      LruOfIsFirst(list[1..], k);
      if list[0].key != k && LruOf(list, k).Some? {
        var x := LruOf(list, k).value;
        assert LruOf(list[1..], k) == Some(x);
        assert IndexOf(list, x) == 1 + IndexOf(list[1..], x);
        forall j | 0 <= j < IndexOf(list, x) ensures list[j].key != k {
          if j > 0 {
            assert list[j] == list[1..][j - 1];
          }
        }
      }
    }
  }

  /** The converse: the first position that holds the key identifies `LruOf`. */
  lemma FirstIsLruOf<K(!new), V(!new)>(list: seq<Entry<K, V>>, i: nat)
    requires i < |list|
    requires forall j :: 0 <= j < i ==> list[j].key != list[i].key
    ensures LruOf(list, list[i].key) == Some(list[i])
  {
    var k := list[i].key;
    FilterAround(HasKey(k), list, i);
    FilterNone(HasKey(k), list[..i]);
  }

  lemma KeyAt<K(!new), V(!new)>(list: seq<Entry<K, V>>, k: K)
    ensures forall i :: 0 <= i < |OfKey(list, k)| ==> OfKey(list, k)[i] in list && OfKey(list, k)[i].key == k
    ensures forall i :: 0 <= i < |NotOfKey(list, k)| ==>
              NotOfKey(list, k)[i] in list && NotOfKey(list, k)[i].key != k
  {
    FilterAt(HasKey<K, V>(k), list);
    FilterAt(LacksKey<K, V>(k), list);
  }

  lemma KeyMembers<K(!new), V(!new)>(list: seq<Entry<K, V>>, k: K)
    ensures forall x :: x in OfKey(list, k) <==> x in list && x.key == k
    ensures forall x :: x in NotOfKey(list, k) <==> x in list && x.key != k
    ensures NoDuplicates(list) ==> NoDuplicates(OfKey(list, k)) && NoDuplicates(NotOfKey(list, k))
  {
    FilterMembers(HasKey<K, V>(k), list);
    FilterMembers(LacksKey<K, V>(k), list);
    if NoDuplicates(list) {
      FilterKeepsNoDuplicates(HasKey<K, V>(k), list);
      FilterKeepsNoDuplicates(LacksKey<K, V>(k), list);
    }
  }

  lemma WithoutMembers<K(!new), V(!new)>(list: seq<Entry<K, V>>, x: Entry<K, V>)
    ensures forall y :: y in Without(list, x) <==> y in list && y != x
    ensures NoDuplicates(list) ==> NoDuplicates(Without(list, x))
    ensures x !in list ==> Without(list, x) == list
  {
    FilterMembers(Differs(x), list);
    if NoDuplicates(list) {
      FilterKeepsNoDuplicates(Differs(x), list);
    }
    if x !in list {
      FilterAll(Differs(x), list);
    }
  }

  lemma ElementsAppend<T(!new)>(s: seq<T>, x: T)
    ensures Elements(s + [x]) == Elements(s) + {x}
  {
  }

  lemma WithoutAt<K(!new), V(!new)>(list: seq<Entry<K, V>>, i: nat)
    requires NoDuplicates(list) && i < |list|
    ensures Without(list, list[i]) == RemoveAt(list, i)
  {
    FilterButOne(Differs(list[i]), list, i);
  }

  lemma WithoutLength<K(!new), V(!new)>(list: seq<Entry<K, V>>, x: Entry<K, V>)
    requires NoDuplicates(list)
    ensures |Without(list, x)| == |list| - if x in list then 1 else 0
  {
    if x in list {
      WithoutAt(list, IndexOf(list, x));
    } else {
      WithoutMembers(list, x);
    }
  }

  lemma WithoutConcat<K(!new), V(!new)>(a: seq<Entry<K, V>>, b: seq<Entry<K, V>>, x: Entry<K, V>)
    ensures Without(a + b, x) == Without(a, x) + Without(b, x)
  {
    FilterConcat(Differs(x), a, b);
  }

  lemma FirstIsDropped<K(!new), V(!new)>(list: seq<Entry<K, V>>, k: K, i: nat)
    requires i < |list| && list[i].key == k && forall j :: 0 <= j < i ==> list[j].key != k
    ensures OfKey(list, k) == [list[i]] + OfKey(RemoveAt(list, i), k)
  {
    FilterAround(HasKey<K, V>(k), list, i);
    FilterNone(HasKey<K, V>(k), list[..i]);
    FilterConcat(HasKey<K, V>(k), list[..i], list[i + 1..]);
  }

  /** Dropping the key's first entry: the key keeps the others, and the other keys keep theirs. */
  lemma DropFirstOfKey<K(!new), V(!new)>(list: seq<Entry<K, V>>, k: K, i: nat)
    requires NoDuplicates(list) && i < |list|
    requires list[i].key == k && forall j :: 0 <= j < i ==> list[j].key != k
    ensures var after := Without(list, list[i]);
            && NoDuplicates(after) && |after| == |list| - 1
            && OfKey(list, k) == [list[i]] + OfKey(after, k)
            && NotOfKey(after, k) == NotOfKey(list, k)
  {
    WithoutAt(list, i);
    RemoveAtMembers(list, i);
    FirstIsDropped(list, k, i);
    FilterAround(LacksKey<K, V>(k), list, i);
    FilterConcat(LacksKey<K, V>(k), list[..i], list[i + 1..]);
    EmptyMiddle(NotOfKey(list[..i], k), NotOfKey(list[i + 1..], k));
  }

  lemma PutConsistent<K(!new), V(!new)>(capacity: nat, list: seq<Entry<K, V>>, x: Entry<K, V>)
    requires Consistent(capacity, list)
    ensures Consistent(capacity, Put(capacity, list, x))
    ensures x in Put(capacity, list, x)
  {
    WithoutMembers(list, x);
    WithoutLength(list, x);
  }

  lemma WithoutConsistent<K(!new), V(!new)>(capacity: nat, list: seq<Entry<K, V>>, x: Entry<K, V>)
    requires Consistent(capacity, list)
    ensures Consistent(capacity, Without(list, x))
    ensures x in list ==> Consistent(capacity, Touch(list, x)) && |Touch(list, x)| == |list|
  {
    WithoutMembers(list, x);
    WithoutLength(list, x);
  }

  lemma FilterConsistent<T(!new)>(capacity: nat, list: seq<T>, p: T -> bool)
    requires Consistent(capacity, list)
    ensures Consistent(capacity, Filter(p, list))
  {
    FilterKeepsNoDuplicates(p, list);
    FilterMembers(p, list);
  }

  lemma GetConsistent<K(!new), V(!new)>(capacity: nat, list: seq<Entry<K, V>>, k: K)
    requires Consistent(capacity, list)
    ensures Consistent(capacity, Get(list, k)) && |Get(list, k)| == |list|
    ensures Consistent(capacity, Pop(list, k))
  {
    LruOfIsFirst(list, k);
    if LruOf(list, k).Some? {
      WithoutConsistent(capacity, list, LruOf(list, k).value);
    }
  }

  // ---------------------------------------------------------------------------------------------
  // What one operation may change
  // ---------------------------------------------------------------------------------------------

  /**
   A `put` removes at most one other entry: the least recently used one, and exactly when the
   cache was full and did not hold the pair. Everything else keeps its relative order, in front of
   the new entry.
   */
  lemma PutEvictsOnlyTheFront<K(!new), V(!new)>(capacity: nat, list: seq<Entry<K, V>>, x: Entry<K, V>)
    requires Consistent(capacity, list)
    ensures var evicts := IsFull(capacity, list) && x !in list;
            Elements(Put(capacity, list, x)) == Elements(if evicts then list[1..] else list) + {x}
            && Put(capacity, list, x) == Without(if evicts then list[1..] else list, x) + [x]
            && |Put(capacity, list, x)| == |list| + if x in list || evicts then 0 else 1
  {
    WithoutLength(list, x);
    WithoutMembers(list, x);
    var kept := if IsFull(capacity, list) && x !in list then list[1..] else list;
    WithoutMembers(kept, x);
    assert Put(capacity, list, x) == Without(kept, x) + [x];
    ElementsAppend(Without(kept, x), x);
    assert Elements(Without(kept, x)) + {x} == Elements(kept) + {x};
  }

  /** A successful `get` leaves the list that putting the returned pair again would leave. */
  lemma GetIsPutOfTheReturnedPair<K(!new), V(!new)>(capacity: nat, list: seq<Entry<K, V>>, k: K)
    requires Consistent(capacity, list)
    requires LruOf(list, k).Some?
    ensures Get(list, k) == Put(capacity, list, LruOf(list, k).value)
  {
    LruOfIsFirst(list, k);
    WithoutLength(list, LruOf(list, k).value);
  }

  /** `get` forgets nothing: it permutes the list, and only the returned entry moves. */
  lemma GetOnlyReorders<K(!new), V(!new)>(list: seq<Entry<K, V>>, k: K)
    requires NoDuplicates(list)
    ensures Elements(Get(list, k)) == Elements(list)
    ensures NotOfKey(Get(list, k), k) == NotOfKey(list, k)
  {
    LruOfIsFirst(list, k);
    if LruOf(list, k).Some? {
      var x := LruOf(list, k).value;
      WithoutMembers(list, x);
      ElementsAppend(Without(list, x), x);
      assert Elements(Without(list, x)) + {x} == Elements(list);
      FilterConcat(LacksKey(k), Without(list, x), [x]);
      FilterNone(LacksKey(k), [x]);
      FilterTwice(LacksKey(k), Differs(x), LacksKey(k), list);
    }
  }

  /** A `pop` takes exactly the key's first entry out; the key keeps the others, in their order. */
  lemma PopTakesTheFirst<K(!new), V(!new)>(list: seq<Entry<K, V>>, k: K)
    requires NoDuplicates(list)
    ensures var mine, after := OfKey(list, k), Pop(list, k);
            && NotOfKey(after, k) == NotOfKey(list, k)
            && (mine == [] ==> after == list)
            && (mine != [] ==> NoDuplicates(after) && |after| == |list| - 1 && OfKey(after, k) == mine[1..])
  {
    LruOfIsFirst(list, k);
    if OfKey(list, k) != [] {
      DropFirstOfKey(list, k, IndexOf(list, OfKey(list, k)[0]));
    }
  }

  /** A `get` moves the key's first entry behind all others; everything else keeps its order. */
  lemma GetMovesTheFirst<K(!new), V(!new)>(list: seq<Entry<K, V>>, k: K)
    requires NoDuplicates(list) && OfKey(list, k) != []
    ensures var mine, after := OfKey(list, k), Get(list, k);
            && NoDuplicates(after) && |after| == |list| && after[|list| - 1] == mine[0]
            && OfKey(after, k) == mine[1..] + [mine[0]]
            && NotOfKey(after, k) == NotOfKey(list, k)
  {
    var x := OfKey(list, k)[0];
    LruOfIsFirst(list, k);
    GetConsistent(0, list, k);
    GetOnlyReorders(list, k);
    DropFirstOfKey(list, k, IndexOf(list, x));
    FilterConcat(HasKey<K, V>(k), Without(list, x), [x]);
    FilterAll(HasKey<K, V>(k), [x]);
  }

  // ---------------------------------------------------------------------------------------------
  // Small lists
  // ---------------------------------------------------------------------------------------------

  /** Two entries of one key, put one after the other. */
  lemma TwoValues<K(!new), V(!new)>(capacity: nat, x: Entry<K, V>, y: Entry<K, V>)
    requires x != y && x.key == y.key && capacity != 1
    ensures Put(capacity, [], x) == [x] && Put(capacity, [x], y) == [x, y]
    ensures LruOf([x, y], x.key) == Some(x) && Get([x, y], x.key) == [y, x]
    ensures Without([y, x], x) == [y]
  {
    FilterTwo(Differs(y), x, x);
    FilterTwo(Differs(x), x, y);
    FilterTwo(Differs(x), y, x);
    FilterTwo(HasKey<K, V>(x.key), x, y);
  }

  /** With capacity 1 the second entry replaces the first. */
  lemma ReplacedValue<K(!new), V(!new)>(x: Entry<K, V>, y: Entry<K, V>)
    requires x != y
    ensures Put(1, [], x) == [x] && Put(1, [x], y) == [y] && Get([y], y.key) == [y]
  {
    FilterTwo(Differs(y), x, x);
    FilterTwo(Differs(y), y, y);
    FilterTwo(HasKey<K, V>(y.key), y, y);
  }

  lemma TwoPuts<K(!new), V(!new)>(capacity: nat, x: Entry<K, V>, y: Entry<K, V>)
    requires x != y && capacity != 1
    ensures Put(capacity, [], x) == [x] && Put(capacity, [x], y) == [x, y]
  {
    FilterTwo(Differs(y), x, x);
  }

  /** With capacity 2 the third entry evicts the first, and a pop finds the key's other entry. */
  lemma PopAfterEviction<K(!new), V(!new)>(x: Entry<K, V>, y: Entry<K, V>, z: Entry<K, V>)
    requires x != z && x.key == z.key != y.key
    ensures Put(2, Put(2, Put(2, [], x), y), z) == [y, z]
    ensures Pop([y, z], z.key) == [y]
  {
    TwoPuts(2, x, y);
    FilterTwo(Differs(z), x, y);
    FilterTwo(HasKey<K, V>(z.key), y, z);
    FilterTwo(Differs(z), y, z);
  }

  lemma PopFromThree<K(!new), V(!new)>(x: Entry<K, V>, y: Entry<K, V>, z: Entry<K, V>)
    requires x != z && x.key == z.key != y.key
    ensures Put(3, Put(3, Put(3, [], x), y), z) == [x, y, z]
    ensures Pop([x, y, z], z.key) == [y, z]
  {
    TwoPuts(3, x, y);
    FilterTwo(Differs(z), x, y);
    assert [x, y, z] == [x] + [y, z];
    FilterFirst(HasKey<K, V>(z.key), x, [y, z]);
    FilterTwo(HasKey<K, V>(z.key), y, z);
    FilterFirst(Differs(x), x, [y, z]);
    FilterTwo(Differs(x), y, z);
  }
}
