/**
 The contract of the Boost bimap that the cache is built on: one store of entries with two views.
 The left view is a hash multimap: a bucket of entry ids per key, in no particular order. The right
 view is a list of the same ids: insertion appends to it and `RelocateToEnd` moves within it.
 */
module Bimap {
  import opened Sequences
  import opened RecencyList

  type Store<K, V> = map<nat, Entry<K, V>>

  /** The list view holds every id of the store once. */
  ghost predicate RightView<K, V>(store: Store<K, V>, right: seq<nat>) {
    && NoDuplicates(right)
    && (forall i :: 0 <= i < |right| ==> right[i] in store)
    && (forall id :: id in store ==> id in right)
  }

  /** The hash view holds every id of the store once, in the bucket of its key. */
  ghost predicate LeftView<K, V>(store: Store<K, V>, left: map<K, seq<nat>>) {
    && (forall k :: k in left ==> left[k] != [] && NoDuplicates(left[k]))
    && (forall k, id :: k in left && id in left[k] ==> id in store && store[id].key == k)
    && (forall id :: id in store ==> store[id].key in left && id in left[store[id].key])
  }

  /** The entries of `store` in the order of the list view. */
  function Listed<K, V>(store: Store<K, V>, right: seq<nat>): seq<Entry<K, V>>
    requires forall i :: 0 <= i < |right| ==> right[i] in store
  {
    seq(|right|, i requires 0 <= i < |right| => store[right[i]])
  }

  function Bucket<K>(left: map<K, seq<nat>>, k: K): seq<nat> {
    if k in left then left[k] else []
  }

  function KeyKept<K(==), V>(store: Store<K, V>, k: K): nat -> bool {
    (id: nat) => id in store && store[id].key != k
  }

  function StoreWithout<K(==), V>(store: Store<K, V>, k: K): Store<K, V> {
    map id | id in store && store[id].key != k :: store[id]
  }

  // ---------------------------------------------------------------------------------------------
  // The two views under each change of the store
  // ---------------------------------------------------------------------------------------------

  lemma InsertRight<K(!new), V(!new)>(store: Store<K, V>, right: seq<nat>, id: nat, x: Entry<K, V>)
    requires RightView(store, right) && id !in store
    ensures RightView(store[id := x], right + [id])
    ensures Listed(store[id := x], right + [id]) == Listed(store, right) + [x]
  {
  }

  lemma InsertedId(s: seq<nat>, at: nat, id: nat)
    requires NoDuplicates(s) && id !in s && at <= |s|
    ensures NoDuplicates(InsertedAt(s, at, id))
    ensures forall x :: x in InsertedAt(s, at, id) <==> x in s || x == id
  {
  }

  lemma InsertLeft<K(!new), V(!new)>(store: Store<K, V>, left: map<K, seq<nat>>, id: nat, x: Entry<K, V>, at: nat)
    requires LeftView(store, left) && id !in store && at <= |Bucket(left, x.key)|
    ensures var bucket := Bucket(left, x.key);
            LeftView(store[id := x], left[x.key := InsertedAt(bucket, at, id)])
  {
    var bucket := Bucket(left, x.key);
    InsertedId(bucket, at, id);
  }

  lemma EraseRight<K(!new), V(!new)>(store: Store<K, V>, right: seq<nat>, i: nat)
    requires RightView(store, right) && i < |right|
    ensures RightView(store - {right[i]}, RemoveAt(right, i))
    ensures Listed(store - {right[i]}, RemoveAt(right, i)) == RemoveAt(Listed(store, right), i)
  {
  }

  lemma ShrinkBucket<K(!new), V(!new)>(store: Store<K, V>, left: map<K, seq<nat>>, id: nat, k: K, rest: seq<nat>)
    requires LeftView(store, left) && id in store && k == store[id].key
    requires NoDuplicates(rest) && forall x :: x in rest <==> x in left[k] && x != id
    ensures LeftView(store - {id}, if rest == [] then left - {k} else left[k := rest])
  {
    hide NoDuplicates;
    if rest == [] {
      assert forall x :: x in left[k] ==> x == id;
    }
  }

  lemma EraseLeft<K(!new), V(!new)>(store: Store<K, V>, left: map<K, seq<nat>>, id: nat)
    requires LeftView(store, left) && id in store
    ensures var k := store[id].key;
            var rest := RemoveAt(left[k], IndexOf(left[k], id));
            LeftView(store - {id}, if rest == [] then left - {k} else left[k := rest])
  {
    var k := store[id].key;
    RemoveAtMembers(left[k], IndexOf(left[k], id));
    ShrinkBucket(store, left, id, k, RemoveAt(left[k], IndexOf(left[k], id)));
  }

  lemma {:induction false} FilterListed<K(!new), V(!new)>(store: Store<K, V>, right: seq<nat>, k: K)
    requires forall i :: 0 <= i < |right| ==> right[i] in store
    ensures forall i :: 0 <= i < |Filter(KeyKept(store, k), right)| ==> Filter(KeyKept(store, k), right)[i] in store
    ensures Listed(store, Filter(KeyKept(store, k), right)) == NotOfKey(Listed(store, right), k)
  {
    FilterAt(KeyKept(store, k), right);
    if right != [] {
      FilterListed(store, right[1..], k);
      assert Listed(store, right)[1..] == Listed(store, right[1..]);
      assert right[0] in store;
    }
  }

  lemma EraseKeyRight<K(!new), V(!new)>(store: Store<K, V>, right: seq<nat>, k: K)
    requires RightView(store, right)
    ensures var kept := Filter(KeyKept(store, k), right);
            && RightView(StoreWithout(store, k), kept)
            && Listed(StoreWithout(store, k), kept) == NotOfKey(Listed(store, right), k)
  {
    FilterMembers(KeyKept(store, k), right);
    FilterAt(KeyKept(store, k), right);
    FilterKeepsNoDuplicates(KeyKept(store, k), right);
    FilterListed(store, right, k);
  }

  lemma EraseKeyLeft<K(!new), V(!new)>(store: Store<K, V>, left: map<K, seq<nat>>, k: K)
    requires LeftView(store, left)
    ensures LeftView(StoreWithout(store, k), left - {k})
  {
  }

  lemma RelocateRight<K(!new), V(!new)>(store: Store<K, V>, right: seq<nat>, i: nat)
    requires RightView(store, right) && i < |right|
    ensures RightView(store, RemoveAt(right, i) + [right[i]])
    ensures Listed(store, RemoveAt(right, i) + [right[i]]) == RemoveAt(Listed(store, right), i) + [store[right[i]]]
  {
    RemoveAtMembers(right, i);
    var rest := RemoveAt(right, i);
    assert forall j :: 0 <= j < |rest| ==> (rest + [right[i]])[j] == rest[j];
    forall id | id in store ensures id in rest + [right[i]] {
      assert (rest + [right[i]])[|rest|] == right[i];
    }
  }

  // ---------------------------------------------------------------------------------------------
  // The bimap
  // ---------------------------------------------------------------------------------------------

  class Bimap<K(==, !new), V(==, !new)> {
    var store: Store<K, V>
    var left: map<K, seq<nat>>
    var right: seq<nat>
    var nextId: nat

    ghost predicate Valid()
      reads this
    {
      RightView(store, right) && LeftView(store, left) && forall id :: id in store ==> id < nextId
    }

    ghost function Contents(): (list: seq<Entry<K, V>>)
      requires Valid()
      reads this
      ensures |list| == |right| == |store|
    {
      NoDuplicatesCardinality(right);
      assert store.Keys == Elements(right);
      Listed(store, right)
    }

    constructor ()
      ensures Valid() && Contents() == []
    {
      store, left, right, nextId := map[], map[], [], 0;
    }

    /** The ids under `k`, in bucket order; empty when the key is absent. */
    function EqualRange(k: K): (ids: seq<nat>)
      reads this
      ensures Valid() ==> NoDuplicates(ids)
      ensures Valid() ==> forall id :: id in ids <==> id in store && store[id].key == k
    {
      Bucket(left, k)
    }

    /** The distance of `id` from the beginning of the list view. */
    function Distance(id: nat): (i: nat)
      requires Valid() && id in store
      reads this
      ensures i < |right| && right[i] == id && Contents()[i] == store[id]
    {
      IndexOf(right, id)
    }

    /** Bucket order is the library's business: the new id lands anywhere in its bucket. */
    method Insert(x: Entry<K, V>)
      requires Valid()
      modifies this
      ensures Valid() && Contents() == old(Contents()) + [x]
    {
      var id := nextId;
      var bucket := Bucket(left, x.key);
      var at: nat :| at <= |bucket|;
      InsertLeft(store, left, id, x, at);
      InsertRight(store, right, id, x);
      left := left[x.key := InsertedAt(bucket, at, id)];
      right := right + [id];
      store := store[id := x];
      nextId := nextId + 1;
    }

    method Erase(id: nat)
      requires Valid() && id in store
      modifies this
      ensures Valid() && Contents() == RemoveAt(old(Contents()), old(Distance(id)))
    {
      var k := store[id].key;
      var rest := RemoveAt(left[k], IndexOf(left[k], id));
      EraseLeft(store, left, id);
      EraseRight(store, right, IndexOf(right, id));
      left := if rest == [] then left - {k} else left[k := rest];
      right := RemoveAt(right, IndexOf(right, id));
      store := store - {id};
    }

    /** Erases the whole range of `k`. */
    method EraseKey(k: K)
      requires Valid()
      modifies this
      ensures Valid() && Contents() == NotOfKey(old(Contents()), k)
    {
      EraseKeyRight(store, right, k);
      EraseKeyLeft(store, left, k);
      right := Filter(KeyKept(store, k), right);
      left := left - {k};
      store := StoreWithout(store, k);
    }

    method RelocateToEnd(id: nat)
      requires Valid() && id in store
      modifies this`right
      ensures Valid()
      ensures Contents() == RemoveAt(old(Contents()), old(Distance(id))) + [store[id]]
    {
      RelocateRight(store, right, IndexOf(right, id));
      right := RemoveAt(right, IndexOf(right, id)) + [id];
    }

    method Clear()
      modifies this
      ensures Valid() && Contents() == []
    {
      store, left, right, nextId := map[], map[], [], 0;
    }
  }
}
