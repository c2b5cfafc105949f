/**
 Whole histories of the base cache: which entries it holds after any sequence of operations, and
 how caches of different capacities relate.
 */
module LruRuns {
  import opened Sequences
  import opened RecencyList

  datatype Op<K, V> =
    | DoPut(entry: Entry<K, V>)
    | DoGet(key: K)
    | DoPop(key: K)
    | DoRemoveKey(key: K)
    | DoRemove(entry: Entry<K, V>)
    | DoClear

  function Apply<K(==), V(==)>(capacity: nat, list: seq<Entry<K, V>>, op: Op<K, V>): seq<Entry<K, V>> {
    match op
    case DoPut(x) => Put(capacity, list, x)
    case DoGet(k) => Get(list, k)
    case DoPop(k) => Pop(list, k)
    case DoRemoveKey(k) => NotOfKey(list, k)
    case DoRemove(x) => Without(list, x)
    case DoClear => []
  }

  /** The recency list after the operations `ops` on an empty cache. */
  function Run<K(==), V(==)>(capacity: nat, ops: seq<Op<K, V>>): seq<Entry<K, V>> {
    if ops == [] then [] else Apply(capacity, Run(capacity, ops[..|ops| - 1]), ops[|ops| - 1])
  }

  lemma RunMore<K(!new), V(!new)>(capacity: nat, ops: seq<Op<K, V>>, op: Op<K, V>)
    ensures Run(capacity, ops + [op]) == Apply(capacity, Run(capacity, ops), op)
  {
    assert (ops + [op])[..|ops|] == ops;
  }

  lemma RunOfThree<K(!new), V(!new)>(capacity: nat, a: Op<K, V>, b: Op<K, V>, c: Op<K, V>)
    ensures Run(capacity, [a, b, c]) == Apply(capacity, Apply(capacity, Apply(capacity, [], a), b), c)
  {
    assert [a, b, c] == [a, b] + [c] && [a, b] == [a] + [b] && [a] == [] + [a];
    RunMore(capacity, [a, b], c);
    RunMore(capacity, [a], b);
    RunMore(capacity, [], a);
  }

  lemma {:induction false} ReachableIsConsistent<K(!new), V(!new)>(capacity: nat, ops: seq<Op<K, V>>)
    ensures Consistent(capacity, Run(capacity, ops))
  {
    if ops != [] {
      var before := ops[..|ops| - 1];
      ReachableIsConsistent(capacity, before);
      var list := Run(capacity, before);
      match ops[|ops| - 1]
      case DoPut(x) => PutConsistent(capacity, list, x);
      case DoGet(k) => GetConsistent(capacity, list, k);
      case DoPop(k) => GetConsistent(capacity, list, k);
      case DoRemoveKey(k) => FilterConsistent(capacity, list, LacksKey<K, V>(k));
      case DoRemove(x) => WithoutConsistent(capacity, list, x);
      case DoClear =>
    }
  }

  // ---------------------------------------------------------------------------------------------
  // Least recently used, over whole runs
  // ---------------------------------------------------------------------------------------------

  ghost predicate PutsAndGets<K, V>(ops: seq<Op<K, V>>) {
    forall op :: op in ops ==> op.DoPut? || op.DoGet?
  }

  /** The pair that `op` touches in state `list`, if any: the pair put, or the pair a `get` returns. */
  function Touched<K(==), V(==)>(list: seq<Entry<K, V>>, op: Op<K, V>): seq<Entry<K, V>> {
    match op
    case DoPut(x) => [x]
    case DoGet(k) => if LruOf(list, k).None? then [] else [LruOf(list, k).value]
    case _ => []
  }

  /** All touched pairs of a run, oldest first. */
  function Trace<K(==), V(==)>(capacity: nat, ops: seq<Op<K, V>>): seq<Entry<K, V>> {
    if ops == [] then []
    else Trace(capacity, ops[..|ops| - 1]) + Touched(Run(capacity, ops[..|ops| - 1]), ops[|ops| - 1])
  }

  /** When `x` was touched last. */
  function LastTouch<T(==)>(trace: seq<T>, x: T): (i: nat)
    requires x in trace
    ensures i < |trace| && trace[i] == x && x !in trace[i + 1..]
  {
    if trace[|trace| - 1] == x then |trace| - 1 else LastTouch(trace[..|trace| - 1], x)
  }

  /** The pairs touched after the last touch of `x`. */
  function TouchedSince<T(==)>(trace: seq<T>, x: T): set<T>
    requires x in trace
  {
    Elements(trace[LastTouch(trace, x) + 1..])
  }

  /**
   `list` holds exactly the `capacity` most recently touched distinct pairs of `trace` (all of
   them when the capacity is 0), in the order of their last touch.
   */
  ghost predicate IsLruOf<T>(capacity: nat, trace: seq<T>, list: seq<T>) {
    && NoDuplicates(list)
    && (forall x :: x in list ==> x in trace)
    && (forall x :: x in trace ==> (x in list <==> capacity == 0 || |TouchedSince(trace, x)| < capacity))
    && (forall i, j :: 0 <= i < j < |list| ==>
          list[i] in trace && list[j] in trace && LastTouch(trace, list[i]) < LastTouch(trace, list[j]))
  }

  function PutAll<K(==), V(==)>(capacity: nat, trace: seq<Entry<K, V>>): seq<Entry<K, V>> {
    if trace == [] then []
    else Put(capacity, PutAll(capacity, trace[..|trace| - 1]), trace[|trace| - 1])
  }

  /** Gets can be replaced by puts of what they returned. */
  lemma {:induction false} RunIsPutAll<K(!new), V(!new)>(capacity: nat, ops: seq<Op<K, V>>)
    requires PutsAndGets(ops)
    ensures Run(capacity, ops) == PutAll(capacity, Trace(capacity, ops))
  {
    if ops != [] {
      var before, op := ops[..|ops| - 1], ops[|ops| - 1];
      RunIsPutAll(capacity, before);
      ReachableIsConsistent(capacity, before);
      var list, trace := Run(capacity, before), Trace(capacity, before);
      var touched := Touched(list, op);
      if op.DoGet? && LruOf(list, op.key).Some? {
        GetIsPutOfTheReturnedPair(capacity, list, op.key);
      }
      if touched == [] {
        assert trace + touched == trace;
      } else {
        assert (trace + touched)[..|trace + touched| - 1] == trace;
      }
    }
  }

  lemma {:induction false} PutAllIsConsistent<K(!new), V(!new)>(capacity: nat, trace: seq<Entry<K, V>>)
    ensures Consistent(capacity, PutAll(capacity, trace))
  {
    if trace != [] {
      PutAllIsConsistent(capacity, trace[..|trace| - 1]);
      PutConsistent(capacity, PutAll(capacity, trace[..|trace| - 1]), trace[|trace| - 1]);
    }
  }

  ghost predicate SortedByTouch<T>(trace: seq<T>, list: seq<T>) {
    && (forall x :: x in list ==> x in trace)
    && (forall i, j :: 0 <= i < j < |list| ==> LastTouch(trace, list[i]) < LastTouch(trace, list[j]))
  }

  lemma RemoveAtOrder<T(!new)>(trace: seq<T>, list: seq<T>, i: nat)
    requires i < |list| && SortedByTouch(trace, list)
    ensures SortedByTouch(trace, RemoveAt(list, i))
  {
    hide LastTouch;
    var rest := RemoveAt(list, i);
    assert forall j :: 0 <= j < |rest| ==> rest[j] == list[if j < i then j else j + 1];
  }

  lemma WithoutOrder<K(!new), V(!new)>(trace: seq<Entry<K, V>>, list: seq<Entry<K, V>>, x: Entry<K, V>)
    requires NoDuplicates(list) && SortedByTouch(trace, list)
    ensures SortedByTouch(trace, Without(list, x))
  {
    hide SortedByTouch, Without, RemoveAt;
    if x in list {
      WithoutAt(list, IndexOf(list, x));
      RemoveAtOrder(trace, list, IndexOf(list, x));
    } else {
      WithoutMembers(list, x);
    }
  }

  lemma LastTouchAppend<T(!new)>(before: seq<T>, x: T, y: T)
    ensures y in before && y != x ==> LastTouch(before + [x], y) == LastTouch(before, y)
    ensures LastTouch(before + [x], x) == |before|
  {
    assert (before + [x])[..|before|] == before;
  }

  /** A pair that is touched again goes to the back. */
  lemma TouchAppend<T(!new)>(before: seq<T>, kept: seq<T>, x: T)
    requires SortedByTouch(before, kept) && x !in kept
    ensures SortedByTouch(before + [x], kept + [x])
  {
    hide LastTouch;
    var trace, list := before + [x], kept + [x];
    forall y | y in kept ensures LastTouch(trace, y) == LastTouch(before, y) {
      LastTouchAppend(before, x, y);
    }
    LastTouchAppend(before, x, x);
    forall i, j | 0 <= i < j < |list| ensures LastTouch(trace, list[i]) < LastTouch(trace, list[j]) {
      assert list[i] == kept[i] && kept[i] in kept;
      assert j < |kept| ==> list[j] == kept[j] && kept[j] in kept;
    }
  }

  lemma NothingSorted<T(!new)>(trace: seq<T>, list: seq<T>)
    requires list == []
    ensures SortedByTouch(trace, list)
  {
  }

  /** Without a limit, `IsLruOf` asks for every touched pair in the order of the last touches. */
  lemma UnlimitedLru<T(!new)>(trace: seq<T>, list: seq<T>)
    ensures IsLruOf(0, trace, list) <==>
            NoDuplicates(list) && SortedByTouch(trace, list) && forall x :: x in trace ==> x in list
  {
    hide NoDuplicates, LastTouch, TouchedSince;
  }

  /** The unlimited list holds every touched pair in the order of the last touches. */
  lemma {:induction false} PutAllUnlimited<K(!new), V(!new)>(trace: seq<Entry<K, V>>)
    ensures IsLruOf(0, trace, PutAll(0, trace))
  {
    hide IsLruOf, SortedByTouch, NoDuplicates, Without, LastTouch;
    UnlimitedLru(trace, PutAll(0, trace));
    PutAllIsConsistent(0, trace);
    if trace == [] {
      NothingSorted(trace, PutAll(0, trace));
    } else {
      var before, x := trace[..|trace| - 1], trace[|trace| - 1];
      var list := PutAll(0, before);
      PutAllUnlimited(before);
      UnlimitedLru(before, list);
      WithoutMembers(list, x);
      WithoutOrder(before, list, x);
      TouchAppend(before, Without(list, x), x);
      assert trace == before + [x];
    }
  }

  /** The bounded list is the unlimited one cut down to its last `capacity` entries. */
  lemma {:induction false} PutAllIsSuffix<K(!new), V(!new)>(capacity: nat, trace: seq<Entry<K, V>>)
    requires capacity > 0
    ensures IsSuffix(PutAll(capacity, trace), PutAll(0, trace))
    ensures |PutAll(capacity, trace)| ==
      if |PutAll(0, trace)| < capacity then |PutAll(0, trace)| else capacity
  {
    if trace != [] {
      var before, x := trace[..|trace| - 1], trace[|trace| - 1];
      PutAllIsSuffix(capacity, before);
      PutAllIsConsistent(capacity, before);
      PutAllIsConsistent(0, before);
      var small, large := PutAll(capacity, before), PutAll(0, before);
      PutKeepsInclusion(capacity, 0, small, large, x);
      PutEvictsOnlyTheFront(capacity, small, x);
      PutEvictsOnlyTheFront(0, large, x);
    }
  }

  lemma SuffixInOrder<T(!new)>(trace: seq<T>, all: seq<T>, list: seq<T>)
    requires NoDuplicates(all) && SortedByTouch(trace, all) && IsSuffix(list, all)
    ensures NoDuplicates(list) && SortedByTouch(trace, list)
  {
  }

  lemma SuffixMembers<T(!new)>(all: seq<T>, list: seq<T>, i: nat)
    requires NoDuplicates(all) && IsSuffix(list, all) && i < |all|
    ensures all[i] in list <==> i >= |all| - |list|
  {
  }

  lemma LastTouchIsLast<T(!new)>(trace: seq<T>, i: nat)
    requires i < |trace|
    ensures LastTouch(trace, trace[i]) >= i
  {
  }

  lemma TouchedSinceIsLater<T(!new)>(trace: seq<T>, all: seq<T>, i: nat, y: T)
    requires IsLruOf(0, trace, all) && i < |all|
    requires all[i] in trace && y in TouchedSince(trace, all[i])
    ensures y in all[i + 1..]
  {
    var start := LastTouch(trace, all[i]) + 1;
    LastTouchIsLast(trace, start + IndexOf(trace[start..], y));
    assert y in trace;
    var j := IndexOf(all, y);
    assert j > i;
    assert all[i + 1..][j - i - 1] == y;
  }

  lemma LaterIsTouchedSince<T(!new)>(trace: seq<T>, all: seq<T>, i: nat, j: nat)
    requires IsLruOf(0, trace, all) && i < j < |all| && all[i] in trace
    ensures all[j] in TouchedSince(trace, all[i])
  {
  }

  lemma TouchedSinceIsTail<T(!new)>(trace: seq<T>, all: seq<T>, i: nat)
    requires IsLruOf(0, trace, all) && i < |all|
    ensures all[i] in trace && |TouchedSince(trace, all[i])| == |all| - 1 - i
  {
    var x := all[i];
    forall y | y in TouchedSince(trace, x) ensures y in all[i + 1..] {
      TouchedSinceIsLater(trace, all, i, y);
    }
    forall y | y in all[i + 1..] ensures y in TouchedSince(trace, x) {
      LaterIsTouchedSince(trace, all, i, i + 1 + IndexOf(all[i + 1..], y));
    }
    assert TouchedSince(trace, x) == Elements(all[i + 1..]);
    NoDuplicatesCardinality(all[i + 1..]);
  }

  /** From the cut-off position to the count of pairs touched since. */
  lemma SuffixIsLru<T(!new)>(capacity: nat, trace: seq<T>, all: seq<T>, list: seq<T>)
    requires capacity > 0 && IsLruOf(0, trace, all) && IsSuffix(list, all)
    requires |list| == if |all| < capacity then |all| else capacity
    ensures IsLruOf(capacity, trace, list)
  {
    SuffixInOrder(trace, all, list);
    forall x | x in trace ensures x in list <==> |TouchedSince(trace, x)| < capacity {
      var i := IndexOf(all, x);
      TouchedSinceIsTail(trace, all, i);
      SuffixMembers(all, list, i);
    }
  }

  /** Main result: after any run of `put` and `get` the cache is least recently used. */
  lemma LruOverRuns<K(!new), V(!new)>(capacity: nat, ops: seq<Op<K, V>>)
    requires PutsAndGets(ops)
    ensures IsLruOf(capacity, Trace(capacity, ops), Run(capacity, ops))
  {
    var trace := Trace(capacity, ops);
    RunIsPutAll(capacity, ops);
    PutAllUnlimited(trace);
    if capacity > 0 {
      PutAllIsSuffix(capacity, trace);
      SuffixIsLru(capacity, trace, PutAll(0, trace), PutAll(capacity, trace));
    }
  }

  lemma AllButLast<T(!new)>(s: seq<T>)
    requires s != [] && NoDuplicates(s)
    ensures Elements(s[..|s| - 1]) == Elements(s) - {s[|s| - 1]}
  {
  }

  lemma LastIsLatest<T(!new)>(trace: seq<T>, a: seq<T>, b: seq<T>)
    requires SortedByTouch(trace, a) && SortedByTouch(trace, b)
    requires |a| == |b| > 0 && Elements(a) == Elements(b)
    ensures a[|a| - 1] == b[|b| - 1]
  {
    var n := |a| - 1;
    assert a[n] in Elements(b) && b[n] in Elements(a);
    var i, j := IndexOf(b, a[n]), IndexOf(a, b[n]);
    assert LastTouch(trace, b[n]) <= LastTouch(trace, a[n]);
    assert LastTouch(trace, a[n]) <= LastTouch(trace, b[n]);
  }

  lemma SameEnds<T>(a: seq<T>, b: seq<T>)
    requires |a| == |b| > 0 && a[..|a| - 1] == b[..|b| - 1] && a[|a| - 1] == b[|b| - 1]
    ensures a == b
  {
  }

  lemma {:induction false} SortedIsUnique<T(!new)>(trace: seq<T>, a: seq<T>, b: seq<T>)
    requires SortedByTouch(trace, a) && SortedByTouch(trace, b)
    requires NoDuplicates(a) && NoDuplicates(b)
    requires |a| == |b| && Elements(a) == Elements(b)
    ensures a == b
  {
    if a != [] {
      LastIsLatest(trace, a, b);
      AllButLast(a);
      AllButLast(b);
      SortedIsUnique(trace, a[..|a| - 1], b[..|b| - 1]);
      SameEnds(a, b);
    }
  }

  /** `IsLruOf` leaves no choice: it determines the list. */
  lemma LruIsUnique<T(!new)>(capacity: nat, trace: seq<T>, a: seq<T>, b: seq<T>)
    requires IsLruOf(capacity, trace, a) && IsLruOf(capacity, trace, b)
    ensures a == b
  {
    assert Elements(a) == Elements(b);
    NoDuplicatesCardinality(a);
    NoDuplicatesCardinality(b);
    SortedIsUnique(trace, a, b);
  }

  // ---------------------------------------------------------------------------------------------
  // Inclusion: a smaller cache holds the most recent part of a larger one
  // ---------------------------------------------------------------------------------------------

  ghost predicate Smaller(c1: nat, c2: nat) {
    0 < c1 && (c2 == 0 || c1 <= c2)
  }

  ghost predicate NoLookups<K, V>(ops: seq<Op<K, V>>) {
    forall op :: op in ops ==> !op.DoGet? && !op.DoPop?
  }

  lemma SuffixSplit<T(!new)>(small: seq<T>, large: seq<T>)
    requires IsSuffix(small, large)
    ensures large == large[..|large| - |small|] + small
  {
  }

  lemma PutKeepsInclusion<K(!new), V(!new)>(c1: nat, c2: nat, small: seq<Entry<K, V>>, large: seq<Entry<K, V>>,
                                            x: Entry<K, V>)
    requires Smaller(c1, c2) && Consistent(c1, small) && Consistent(c2, large)
    requires IsSuffix(small, large)
    ensures IsSuffix(Put(c1, small, x), Put(c2, large, x))
  {
    SuffixSplit(small, large);
    var extra := large[..|large| - |small|];
    WithoutConcat(extra, small, x);
  }

  /** Main result: under equal operations the smaller cache is always a suffix of the larger. */
  lemma {:induction false} InclusionOverRuns<K(!new), V(!new)>(c1: nat, c2: nat, ops: seq<Op<K, V>>)
    requires Smaller(c1, c2) && NoLookups(ops)
    ensures IsSuffix(Run(c1, ops), Run(c2, ops))
  {
    if ops != [] {
      var before := ops[..|ops| - 1];
      InclusionOverRuns(c1, c2, before);
      ReachableIsConsistent(c1, before);
      ReachableIsConsistent(c2, before);
      var small, large := Run(c1, before), Run(c2, before);
      SuffixSplit(small, large);
      var extra := large[..|large| - |small|];
      var op := ops[|ops| - 1];
      assert op in ops;
      match op
      case DoPut(x) => PutKeepsInclusion(c1, c2, small, large, x);
      case DoRemoveKey(k) => FilterConcat(LacksKey<K, V>(k), extra, small);
      case DoRemove(x) => WithoutConcat(extra, small, x);
      case DoClear =>
    }
  }

  /** The entries that only the larger cache holds. */
  function Extra<T>(small: seq<T>, large: seq<T>): seq<T>
    requires |small| <= |large|
  {
    large[..|large| - |small|]
  }

  lemma LruOfConcat<K(!new), V(!new)>(a: seq<Entry<K, V>>, b: seq<Entry<K, V>>, k: K)
    ensures LruOf(a + b, k) == if LruOf(a, k).Some? then LruOf(a, k) else LruOf(b, k)
  {
    FilterConcat(HasKey<K, V>(k), a, b);
  }

  lemma ApartFrom<T(!new)>(a: seq<T>, b: seq<T>, x: T)
    requires NoDuplicates(a + b) && x in a
    ensures x !in b && NoDuplicates(b)
  {
    assert forall i :: 0 <= i < |b| ==> b[i] == (a + b)[|a| + i];
    assert (a + b)[IndexOf(a, x)] == x;
  }

  lemma DifferentEnds<T(!new)>(small: seq<T>, rest: seq<T>, x: T)
    requires small != [] && small[|small| - 1] != x
    ensures !IsSuffix(small, rest + [x])
  {
  }

  lemma GetEndsWithin<K(!new), V(!new)>(list: seq<Entry<K, V>>, k: K)
    requires NoDuplicates(list) && list != []
    ensures |Get(list, k)| == |list| && Get(list, k)[|list| - 1] in list
  {
    GetConsistent(0, list, k);
    LruOfIsFirst(list, k);
  }

  lemma GetOfExtra<K(!new), V(!new)>(extra: seq<Entry<K, V>>, small: seq<Entry<K, V>>, k: K)
    requires NoDuplicates(extra + small) && LruOf(extra, k).Some?
    ensures IsSuffix(Get(small, k), Get(extra + small, k)) <==> small == []
  {
    LruOfConcat(extra, small, k);
    LruOfIsFirst(extra, k);
    var x := LruOf(extra, k).value;
    ApartFrom(extra, small, x);
    if small != [] {
      GetEndsWithin(small, k);
      DifferentEnds(Get(small, k), Without(extra + small, x), x);
    }
  }

  lemma GetOfShared<K(!new), V(!new)>(extra: seq<Entry<K, V>>, small: seq<Entry<K, V>>, k: K)
    requires NoDuplicates(extra + small) && LruOf(extra, k).None?
    ensures Get(extra + small, k) == extra + Get(small, k)
    ensures Pop(extra + small, k) == extra + Pop(small, k)
  {
    LruOfConcat(extra, small, k);
    LruOfIsFirst(extra, k);
    if LruOf(small, k).Some? {
      var x := LruOf(small, k).value;
      LruOfIsFirst(small, k);
      WithoutConcat(extra, small, x);
      WithoutMembers(extra, x);
    }
  }

  /**
   `get` is not part of `InclusionOverRuns`: it keeps the inclusion exactly when the larger cache
   holds no entry of the key beyond those of the smaller one (or the smaller one is empty).
   */
  lemma GetKeepsInclusionExactly<K(!new), V(!new)>(small: seq<Entry<K, V>>, large: seq<Entry<K, V>>, k: K)
    requires IsSuffix(small, large) && NoDuplicates(large)
    ensures IsSuffix(Get(small, k), Get(large, k)) <==> small == [] || LruOf(Extra(small, large), k).None?
  {
    var extra := Extra(small, large);
    SuffixSplit(small, large);
    if LruOf(extra, k).Some? {
      GetOfExtra(extra, small, k);
    } else {
      GetOfShared(extra, small, k);
    }
  }

  /**
   For instance with capacities 1 and 2: after two values for one key, a get moves the first value to
   the back of the larger cache, which the smaller one no longer holds.
   */
  lemma GetBreaksInclusion<K(!new), V(!new)>(k: K, v1: V, v2: V)
    requires v1 != v2
    ensures var ops := [DoPut(Entry(k, v1)), DoPut(Entry(k, v2)), DoGet(k)];
            && Run(1, ops) == [Entry(k, v2)] && Run(2, ops) == [Entry(k, v2), Entry(k, v1)]
            && !IsSuffix(Run(1, ops), Run(2, ops))
  {
    var x, y := Entry(k, v1), Entry(k, v2);
    RunOfThree(1, DoPut(x), DoPut(y), DoGet(k));
    RunOfThree(2, DoPut(x), DoPut(y), DoGet(k));
    TwoValues(2, x, y);
    ReplacedValue(x, y);
  }

  lemma SuffixOfAppended<T>(extra: seq<T>, small: seq<T>, t: seq<T>)
    requires |small| == |t| + 1
    ensures IsSuffix(t, extra + small) <==> t == small[1..]
  {
    assert (extra + small)[|extra + small| - |t|..] == small[1..];
  }

  lemma RemoveAtIsTail<T>(s: seq<T>, i: nat)
    requires NoDuplicates(s) && i < |s|
    ensures RemoveAt(s, i) == s[1..] <==> i == 0
  {
    if i > 0 {
      assert RemoveAt(s, i)[0] == s[0] && s[1..][0] == s[1];
    }
  }

  lemma PopOfBoth<K(!new), V(!new)>(extra: seq<Entry<K, V>>, small: seq<Entry<K, V>>, k: K)
    requires NoDuplicates(small) && LruOf(small, k).Some?
    ensures IsSuffix(Pop(small, k), extra + small) <==> small[0].key == k
  {
    LruOfIsFirst(small, k);
    var i := IndexOf(small, LruOf(small, k).value);
    WithoutAt(small, i);
    SuffixOfAppended(extra, small, RemoveAt(small, i));
    RemoveAtIsTail(small, i);
  }

  /** Likewise for `pop`, which may also hit the very front of the smaller cache. */
  lemma PopKeepsInclusionExactly<K(!new), V(!new)>(small: seq<Entry<K, V>>, large: seq<Entry<K, V>>, k: K)
    requires IsSuffix(small, large) && NoDuplicates(large)
    ensures IsSuffix(Pop(small, k), Pop(large, k)) <==>
            LruOf(Extra(small, large), k).None? || LruOf(small, k).None? || small[0].key == k
  {
    var extra := Extra(small, large);
    SuffixSplit(small, large);
    if LruOf(extra, k).Some? {
      var x := LruOf(extra, k).value;
      LruOfConcat(extra, small, k);
      LruOfIsFirst(extra, k);
      WithoutConcat(extra, small, x);
      ApartFrom(extra, small, x);
      WithoutMembers(small, x);
      assert Pop(large, k) == Without(extra, x) + small;
      if LruOf(small, k).Some? {
        PopOfBoth(Without(extra, x), small, k);
      }
    } else {
      GetOfShared(extra, small, k);
    }
  }

  /** For instance with capacities 2 and 3, when another key's entry was put between two values for one key. */
  lemma PopBreaksInclusion<K(!new), V(!new)>(k: K, j: K, v1: V, v2: V)
    requires k != j && v1 != v2
    ensures var ops := [DoPut(Entry(k, v1)), DoPut(Entry(j, v1)), DoPut(Entry(k, v2)), DoPop(k)];
            && Run(2, ops) == [Entry(j, v1)] && Run(3, ops) == [Entry(j, v1), Entry(k, v2)]
            && !IsSuffix(Run(2, ops), Run(3, ops))
  {
    var x, y, z := Entry(k, v1), Entry(j, v1), Entry(k, v2);
    RunMore(2, [DoPut(x), DoPut(y), DoPut(z)], DoPop(k));
    RunMore(3, [DoPut(x), DoPut(y), DoPut(z)], DoPop(k));
    RunOfThree(2, DoPut(x), DoPut(y), DoPut(z));
    RunOfThree(3, DoPut(x), DoPut(y), DoPut(z));
    PopAfterEviction(x, y, z);
    PopFromThree(x, y, z);
    assert [DoPut(x), DoPut(y), DoPut(z)] + [DoPop(k)] == [DoPut(x), DoPut(y), DoPut(z), DoPop(k)];
    assert [y] != [z];
  }
}
