/**
 The timed cache shared by any number of threads. Each locked block of the source is one atomic
 step, and so is each clock reading outside the lock: a `get` is a locked lookup, an unlocked expiry
 check and a locked removal of exactly the value it saw; a `put` is stamped before it takes the
 lock; `getKey` holds the lock while its clock readings go by.
 */
module Interleaving {
  import opened Wrappers
  import opened Sequences
  import opened RecencyList
  import opened TimedList

  datatype Config = Config(capacity: nat, expiration: nat)

  /** Where a thread is inside an operation. */
  datatype Position<K, V> =
    | Idle
    | Stamped(entry: Timed<K, V>)
    | Looked(entry: Timed<K, V>)
    | FoundExpired(entry: Timed<K, V>)
    | Taken(entry: Timed<K, V>)
    | Scanning(value: V, since: nat)

  datatype State<K, V> = State(
    now: nat,
    list: seq<Timed<K, V>>,
    lock: Option<nat>,
    threads: map<nat, Position<K, V>>)
  {
    function At(t: nat): Position<K, V> {
      if t in threads then threads[t] else Idle
    }

    function Move(t: nat, p: Position<K, V>): State<K, V> {
      this.(threads := threads[t := p])
    }
  }

  datatype Step<K, V> =
    | Tick(to: nat)
    | StampPut(t: nat, key: K, value: V)
    | CommitPut(t: nat)
    | LookupGet(t: nat, key: K)
    | CheckGet(t: nat)
    | RemoveGet(t: nat)
    | TakePop(t: nat, key: K)
    | CheckPop(t: nat)
    | BeginGetKey(t: nat, value: V)
    | EndGetKey(t: nat, result: Option<K>, after: seq<Timed<K, V>>)
    | RemoveKey(t: nat, key: K)
    | RemovePair(t: nat, key: K, value: V)
    | Clear(t: nat)

  /** When a step can be taken: the thread is there, and the lock is free if the step needs it. */
  ghost predicate Enabled<K, V>(c: Config, s: State<K, V>, step: Step<K, V>) {
    match step
    case Tick(to) => s.now <= to
    case StampPut(t, _, _) => s.At(t).Idle?
    case CommitPut(t) => s.At(t).Stamped? && s.lock.None?
    case LookupGet(t, _) => s.At(t).Idle? && s.lock.None?
    case CheckGet(t) => s.At(t).Looked?
    case RemoveGet(t) => s.At(t).FoundExpired? && s.lock.None?
    case TakePop(t, _) => s.At(t).Idle? && s.lock.None?
    case CheckPop(t) => s.At(t).Taken?
    case BeginGetKey(t, _) => s.At(t).Idle? && s.lock.None?
    case EndGetKey(t, result, after) =>
      s.At(t).Scanning? && s.lock == Some(t)
      && LookupOutcome(s.list, s.At(t).value, c.expiration, s.At(t).since, s.now, result, after)
    case RemoveKey(t, _) => s.At(t).Idle? && s.lock.None?
    case RemovePair(t, _, _) => s.At(t).Idle? && s.lock.None?
    case Clear(t) => s.At(t).Idle? && s.lock.None?
  }

  ghost function Next<K, V>(c: Config, s: State<K, V>, step: Step<K, V>): State<K, V>
    requires Enabled(c, s, step)
  {
    match step
    case Tick(to) => s.(now := to)
    case StampPut(t, k, v) => s.Move(t, Stamped(Entry(k, CacheValue(Stamp(s.now), v))))
    case CommitPut(t) => s.(list := Put(c.capacity, s.list, s.At(t).entry)).Move(t, Idle)
    case LookupGet(t, k) =>
      (match LruOf(s.list, k)
       case None => s
       case Some(x) => s.(list := Get(s.list, k)).Move(t, Looked(x)))
    case CheckGet(t) =>
      var x := s.At(t).entry;
      s.Move(t, if Expired(s.now, c.expiration, x.value.timestamp) then FoundExpired(x) else Idle)
    case RemoveGet(t) => s.(list := Without(s.list, s.At(t).entry)).Move(t, Idle)
    case TakePop(t, k) =>
      (match LruOf(s.list, k)
       case None => s
       case Some(x) => s.(list := Pop(s.list, k)).Move(t, Taken(x)))
    case CheckPop(t) => s.Move(t, Idle)
    case BeginGetKey(t, v) => s.(lock := Some(t)).Move(t, Scanning(v, s.now))
    case EndGetKey(t, _, after) => s.(list := after, lock := None).Move(t, Idle)
    case RemoveKey(t, k) => s.(list := NotOfKey(s.list, k))
    case RemovePair(t, k, v) => s.(list := WithoutPair(s.list, k, v))
    case Clear(t) => s.(list := [])
  }

  /** The pair whose value a `get` or `pop` returns in this step. */
  ghost function Returns<K, V>(c: Config, s: State<K, V>, step: Step<K, V>): Option<Timed<K, V>>
    requires Enabled(c, s, step)
  {
    if (step.CheckGet? || step.CheckPop?) && !Expired(s.now, c.expiration, s.At(step.t).entry.value.timestamp)
    then Some(s.At(step.t).entry)
    else None
  }

  /** `states` is a run from an empty cache that takes `steps` one after the other. */
  ghost predicate IsRun<K, V>(c: Config, states: seq<State<K, V>>, steps: seq<Step<K, V>>) {
    && |states| == |steps| + 1
    && states[0].list == [] && states[0].lock == None && states[0].threads == map[]
    && forall i :: 0 <= i < |steps| ==>
         Enabled(c, states[i], steps[i]) && states[i + 1] == Next(c, states[i], steps[i])
  }

  // ---------------------------------------------------------------------------------------------
  // What every state of every run satisfies
  // ---------------------------------------------------------------------------------------------

  /** Step `j` stamped `x`. */
  ghost predicate StampedAt<K, V>(states: seq<State<K, V>>, steps: seq<Step<K, V>>, j: nat, x: Timed<K, V>)
    requires j < |states| && j < |steps|
  {
    && steps[j].StampPut? && steps[j].key == x.key && steps[j].value == x.value.value
    && x.value.timestamp == Stamp(states[j].now)
  }

  /** Some step before `n` stamped `x`. */
  ghost predicate WasPut<K, V>(states: seq<State<K, V>>, steps: seq<Step<K, V>>, n: nat, x: Timed<K, V>)
    requires n <= |steps| < |states|
  {
    exists j :: 0 <= j < n && StampedAt(states, steps, j, x)
  }

  ghost predicate HoldsEntry<K, V>(p: Position<K, V>) {
    p.Stamped? || p.Looked? || p.FoundExpired? || p.Taken?
  }

  ghost predicate Safe<K, V>(c: Config, s: State<K, V>) {
    && Consistent(c.capacity, s.list)
    && (forall t :: s.At(t).FoundExpired? ==> Expired(s.now, c.expiration, s.At(t).entry.value.timestamp))
    && (forall t :: s.At(t).Scanning? ==> s.At(t).since <= s.now)
  }

  ghost predicate ListWasPut<K, V>(states: seq<State<K, V>>, steps: seq<Step<K, V>>, n: nat)
    requires n <= |steps| < |states|
  {
    forall i :: 0 <= i < |states[n].list| ==> WasPut(states, steps, n, states[n].list[i])
  }

  ghost predicate ThreadsWerePut<K, V>(states: seq<State<K, V>>, steps: seq<Step<K, V>>, n: nat)
    requires n <= |steps| < |states|
  {
    forall t :: HoldsEntry(states[n].At(t)) ==> WasPut(states, steps, n, states[n].At(t).entry)
  }

  lemma PutMembers<K(!new), V(!new)>(capacity: nat, list: seq<Entry<K, V>>, x: Entry<K, V>)
    ensures forall y :: y in Put(capacity, list, x) ==> y in list || y == x
  {
    WithoutMembers(list, x);
    forall y | y in Put(capacity, list, x) ensures y in list || y == x {
      assert y in Without(list, x) || y == x;
    }
  }

  lemma GetMembers<K(!new), V(!new)>(list: seq<Entry<K, V>>, k: K)
    ensures forall y :: y in Get(list, k) ==> y in list
    ensures forall y :: y in Pop(list, k) ==> y in list
  {
    LruOfIsFirst(list, k);
    if LruOf(list, k).Some? {
      var x := LruOf(list, k).value;
      WithoutMembers(list, x);
      forall y | y in Get(list, k) ensures y in list {
        assert y in Without(list, x) || y == x;
      }
    }
  }

  lemma LookupMembers<K(!new), V(!new)>(list: seq<Timed<K, V>>, v: V, expiration: nat, start: nat, end: nat,
                                        result: Option<K>, after: seq<Timed<K, V>>)
    requires LookupOutcome(list, v, expiration, start, end, result, after)
    ensures forall y :: y in after ==> y in list
    ensures forall y :: y in list && y !in after ==> y.value.value == v && Expired(end, expiration, y.value.timestamp)
  {
    var cut: nat :| LookupUpTo(list, v, expiration, start, end, cut, result, after);
    FilterMembers(LacksValue<K, V>(v), list[..cut]);
    assert list == list[..cut] + list[cut..];
  }

  /** Every entry after a step was there before, or is the one that the step puts. */
  lemma NoNewEntries<K(!new), V(!new)>(c: Config, s: State<K, V>, step: Step<K, V>)
    requires Safe(c, s) && Enabled(c, s, step)
    ensures forall x :: x in Next(c, s, step).list ==>
              x in s.list || (step.CommitPut? && s.At(step.t) == Stamped(x))
  {
    match step
    case CommitPut(t) =>
      PutMembers(c.capacity, s.list, s.At(t).entry);
    case LookupGet(t, k) =>
      GetMembers(s.list, k);
    case RemoveGet(t) =>
      WithoutMembers(s.list, s.At(t).entry);
    case TakePop(t, k) =>
      GetMembers(s.list, k);
    case EndGetKey(t, result, after) =>
      LookupMembers(s.list, s.At(t).value, c.expiration, s.At(t).since, s.now, result, after);
    case RemoveKey(t, k) =>
      KeyMembers(s.list, k);
    case RemovePair(t, k, v) =>
      FilterMembers(LacksPair<K, V>(k, v), s.list);
    case _ =>
  }

  lemma GetKeepsMembers<K(!new), V(!new)>(list: seq<Entry<K, V>>, k: K)
    requires NoDuplicates(list)
    ensures forall y :: y in list ==> y in Get(list, k)
  {
    GetOnlyReorders(list, k);
    forall y | y in list ensures y in Get(list, k) {
      assert y in Elements(list);
    }
  }

  lemma LookupConsistent<K(!new), V(!new)>(capacity: nat, list: seq<Timed<K, V>>, v: V, cut: nat)
    requires Consistent(capacity, list) && cut <= |list|
    ensures Consistent(capacity, Filter(LacksValue<K, V>(v), list[..cut]) + list[cut..])
  {
    FilterConsistent(0, list[..cut], LacksValue<K, V>(v));
    FilterMembers(LacksValue<K, V>(v), list[..cut]);
    FilterAt(LacksValue<K, V>(v), list[..cut]);
  }

  lemma StepKeepsConsistent<K(!new), V(!new)>(c: Config, s: State<K, V>, step: Step<K, V>)
    requires Safe(c, s) && Enabled(c, s, step)
    ensures Consistent(c.capacity, Next(c, s, step).list)
  {
    match step
    case CommitPut(t) => PutConsistent(c.capacity, s.list, s.At(t).entry);
    case LookupGet(t, k) => GetConsistent(c.capacity, s.list, k);
    case RemoveGet(t) => WithoutConsistent(c.capacity, s.list, s.At(t).entry);
    case TakePop(t, k) => GetConsistent(c.capacity, s.list, k);
    case EndGetKey(t, result, after) =>
      var v := s.At(t).value;
      var cut: nat :| LookupUpTo(s.list, v, c.expiration, s.At(t).since, s.now, cut, result, after);
      LookupConsistent(c.capacity, s.list, v, cut);
    case RemoveKey(t, k) => FilterConsistent(c.capacity, s.list, LacksKey<K, CacheValue<V>>(k));
    case RemovePair(t, k, v) => FilterConsistent(c.capacity, s.list, LacksPair<K, V>(k, v));
    case _ =>
  }

  lemma StepKeepsSafe<K(!new), V(!new)>(c: Config, s: State<K, V>, step: Step<K, V>)
    requires Safe(c, s) && Enabled(c, s, step)
    ensures Safe(c, Next(c, s, step)) && s.now <= Next(c, s, step).now
  {
    StepKeepsConsistent(c, s, step);
    var next := Next(c, s, step);
    forall t | next.At(t).FoundExpired?
      ensures Expired(next.now, c.expiration, next.At(t).entry.value.timestamp)
    {
      assert s.At(t).FoundExpired? || s.At(t).Looked?;
    }
    forall t | next.At(t).Scanning? ensures next.At(t).since <= next.now {
      assert s.At(t).Scanning? || s.At(t).Idle?;
    }
  }

  lemma {:induction false} RunIsSafe<K(!new), V(!new)>(c: Config, states: seq<State<K, V>>,
                                                       steps: seq<Step<K, V>>, n: nat)
    requires IsRun(c, states, steps) && n <= |steps|
    ensures Safe(c, states[n])
    ensures forall i :: 0 <= i <= n ==> states[i].now <= states[n].now
  {
    if n > 0 {
      RunIsSafe(c, states, steps, n - 1);
      StepKeepsSafe(c, states[n - 1], steps[n - 1]);
    }
  }

  lemma InListWasPut<K(!new), V(!new)>(states: seq<State<K, V>>, steps: seq<Step<K, V>>, n: nat, x: Timed<K, V>)
    requires n < |steps| < |states| && ListWasPut(states, steps, n)
    requires x in states[n].list
    ensures WasPut(states, steps, n + 1, x)
  {
  }

  lemma StepKeepsListPut<K(!new), V(!new)>(c: Config, states: seq<State<K, V>>, steps: seq<Step<K, V>>, n: nat, m: nat)
    requires IsRun(c, states, steps) && m == n + 1 <= |steps|
    requires Safe(c, states[n]) && ListWasPut(states, steps, n) && ThreadsWerePut(states, steps, n)
    ensures ListWasPut(states, steps, m)
  {
    var s, step := states[n], steps[n];
    NoNewEntries(c, s, step);
    forall i | 0 <= i < |states[m].list| ensures WasPut(states, steps, m, states[m].list[i]) {
      var x := states[m].list[i];
      if x in s.list {
        InListWasPut(states, steps, n, x);
      } else {
        assert WasPut(states, steps, n, s.At(step.t).entry);
      }
    }
  }

  /** What a thread holds after a step it held before, or stamps now, or finds in the list. */
  lemma NewlyHeld<K(!new), V(!new)>(c: Config, s: State<K, V>, step: Step<K, V>, t: nat)
    requires Enabled(c, s, step) && HoldsEntry(Next(c, s, step).At(t))
    ensures var x := Next(c, s, step).At(t).entry;
            || (HoldsEntry(s.At(t)) && s.At(t).entry == x)
            || (step.StampPut? && x == Entry(step.key, CacheValue(Stamp(s.now), step.value)))
            || x in s.list
  {
    hide Put, Get, Pop, LruOf, Without, NotOfKey, WithoutPair, Expired, LookupOutcome, Stamp;
    if step.LookupGet? || step.TakePop? {
      LruOfIsFirst(s.list, step.key);
    }
  }

  lemma StepKeepsThreadsPut<K(!new), V(!new)>(c: Config, states: seq<State<K, V>>, steps: seq<Step<K, V>>,
                                              n: nat, m: nat)
    requires IsRun(c, states, steps) && m == n + 1 <= |steps|
    requires ListWasPut(states, steps, n) && ThreadsWerePut(states, steps, n)
    ensures ThreadsWerePut(states, steps, m)
  {
    hide Enabled, Next, ListWasPut;
    var s, step := states[n], steps[n];
    forall t | HoldsEntry(states[m].At(t)) ensures WasPut(states, steps, m, states[m].At(t).entry) {
      var x := states[m].At(t).entry;
      NewlyHeld(c, s, step, t);
      if HoldsEntry(s.At(t)) && s.At(t).entry == x {
        assert WasPut(states, steps, n, s.At(t).entry);
      } else if x in s.list {
        InListWasPut(states, steps, n, x);
      } else {
        assert StampedAt(states, steps, n, x);
      }
    }
  }

  /** Everything in the cache, or in a thread's hands, was stamped by an earlier `put`. */
  lemma {:induction false} AllEntriesWerePut<K(!new), V(!new)>(c: Config, states: seq<State<K, V>>,
                                                               steps: seq<Step<K, V>>, n: nat)
    requires IsRun(c, states, steps) && n <= |steps|
    ensures ListWasPut(states, steps, n) && ThreadsWerePut(states, steps, n)
  {
    if n > 0 {
      AllEntriesWerePut(c, states, steps, n - 1);
      RunIsSafe(c, states, steps, n - 1);
      StepKeepsListPut(c, states, steps, n - 1, n);
      StepKeepsThreadsPut(c, states, steps, n - 1, n);
    }
  }

  // ---------------------------------------------------------------------------------------------
  // Main results
  // ---------------------------------------------------------------------------------------------

  /**
   Freshness: whatever a `get` or `pop` returns was put, as that very pair, by an earlier `put`,
   whose stamp was taken strictly less than `expiration` seconds before.
   */
  lemma ReturnedValuesAreFresh<K(!new), V(!new)>(c: Config, states: seq<State<K, V>>, steps: seq<Step<K, V>>, n: nat)
    requires IsRun(c, states, steps) && n < |steps|
    requires Returns(c, states[n], steps[n]).Some?
    ensures var x := Returns(c, states[n], steps[n]).value;
            exists j :: 0 <= j < n && StampedAt(states, steps, j, x)
              && (c.expiration > 0 ==> states[n].now < states[j].now + c.expiration * MICROS)
  {
    AllEntriesWerePut(c, states, steps, n);
    var x := Returns(c, states[n], steps[n]).value;
    assert WasPut(states, steps, n, states[n].At(steps[n].t).entry);
    var j :| 0 <= j < n && StampedAt(states, steps, j, x);
    Lifetime(states[j].now, states[n].now, c.expiration);
  }

  /** Conversely a value is withheld only when every `put` that could have made it is old enough. */
  lemma WithheldValuesAreOld<K(!new), V(!new)>(c: Config, states: seq<State<K, V>>, steps: seq<Step<K, V>>, n: nat)
    requires IsRun(c, states, steps) && n < |steps| && (steps[n].CheckGet? || steps[n].CheckPop?)
    requires Returns(c, states[n], steps[n]).None?
    ensures c.expiration > 0
    ensures var x := states[n].At(steps[n].t).entry;
            && WasPut(states, steps, n, x)
            && forall j :: 0 <= j < |steps| && StampedAt(states, steps, j, x) ==>
                 states[n].now > states[j].now + (c.expiration - 1) * MICROS
  {
    AllEntriesWerePut(c, states, steps, n);
    var x := states[n].At(steps[n].t).entry;
    assert HoldsEntry(states[n].At(steps[n].t));
    forall j | 0 <= j < |steps| && StampedAt(states, steps, j, x)
      ensures states[n].now > states[j].now + (c.expiration - 1) * MICROS
    {
      Lifetime(states[j].now, states[n].now, c.expiration);
    }
  }

  /** The steps that drop entries on account of their age. */
  ghost predicate DropsExpired<K, V>(step: Step<K, V>) {
    step.LookupGet? || step.CheckGet? || step.RemoveGet? || step.BeginGetKey? || step.EndGetKey?
  }

  /**
   Safety of lazy expiry: whatever the other threads do between its steps, a `get` or `getKey`
   removes only entries that have expired by then, and that no `put` stamped within the last
   `expiration - 1` seconds; with expiration 0 it removes nothing.
   */
  lemma LookupsDropOnlyExpired<K(!new), V(!new)>(c: Config, states: seq<State<K, V>>, steps: seq<Step<K, V>>, n: nat)
    requires IsRun(c, states, steps) && n < |steps| && DropsExpired(steps[n])
    ensures forall x :: x in states[n].list && x !in states[n + 1].list ==>
              && Expired(states[n].now, c.expiration, x.value.timestamp)
              && c.expiration > 0
              && forall j :: 0 <= j < |steps| && StampedAt(states, steps, j, x) ==>
                   states[n].now > states[j].now + (c.expiration - 1) * MICROS
  {
    RunIsSafe(c, states, steps, n);
    var s, step := states[n], steps[n];
    forall x | x in s.list && x !in states[n + 1].list
      ensures Expired(s.now, c.expiration, x.value.timestamp)
    {
      match step
      case LookupGet(t, k) => GetKeepsMembers(s.list, k);
      case RemoveGet(t) => WithoutMembers(s.list, s.At(t).entry);
      case EndGetKey(t, result, after) =>
        LookupMembers(s.list, s.At(t).value, c.expiration, s.At(t).since, s.now, result, after);
      case _ =>
    }
    forall x, j | x in s.list && x !in states[n + 1].list && 0 <= j < |steps| && StampedAt(states, steps, j, x)
      ensures s.now > states[j].now + (c.expiration - 1) * MICROS
    {
      Lifetime(states[j].now, s.now, c.expiration);
    }
  }

  /** A removal after a failed expiry check drops at most the one entry that the check was about. */
  lemma GetDropsAtMostOne<K(!new), V(!new)>(c: Config, states: seq<State<K, V>>, steps: seq<Step<K, V>>, n: nat)
    requires IsRun(c, states, steps) && n < |steps| && steps[n].RemoveGet?
    ensures var x := states[n].At(steps[n].t).entry;
            && Elements(states[n + 1].list) == Elements(states[n].list) - {x}
            && |states[n + 1].list| >= |states[n].list| - 1
  {
    RunIsSafe(c, states, steps, n);
    var x := states[n].At(steps[n].t).entry;
    WithoutMembers(states[n].list, x);
    WithoutLength(states[n].list, x);
  }

  /**
   No step but the commit of a `put` brings an entry in, and that entry carries the stamp taken
   when the `put` began: nothing prolongs a lifetime.
   */
  lemma LifetimesAreNotExtended<K(!new), V(!new)>(c: Config, states: seq<State<K, V>>, steps: seq<Step<K, V>>, n: nat)
    requires IsRun(c, states, steps) && n < |steps|
    ensures forall x :: x in states[n + 1].list && x !in states[n].list ==>
              && steps[n].CommitPut? && states[n].At(steps[n].t) == Stamped(x)
              && WasPut(states, steps, n, x)
  {
    RunIsSafe(c, states, steps, n);
    NoNewEntries(c, states[n], steps[n]);
    AllEntriesWerePut(c, states, steps, n);
    forall x | x in states[n + 1].list && x !in states[n].list ensures WasPut(states, steps, n, x) {
      assert HoldsEntry(states[n].At(steps[n].t));
    }
  }

  // ---------------------------------------------------------------------------------------------
  // Removals and the lock
  // ---------------------------------------------------------------------------------------------

  /** The step that takes for a `pop` removes exactly the key's first entry and hands it to the thread. */
  lemma TakePopRemoves<K(!new), V(!new)>(c: Config, s: State<K, V>, t: nat, k: K)
    requires Safe(c, s) && Enabled(c, s, TakePop(t, k))
    ensures var mine, after := OfKey(s.list, k), Next(c, s, TakePop(t, k));
            && NotOfKey(after.list, k) == NotOfKey(s.list, k)
            && (mine == [] ==> after == s)
            && (mine != [] ==>
                  && |after.list| == |s.list| - 1 && OfKey(after.list, k) == mine[1..]
                  && after.At(t) == Taken(mine[0]))
  {
    PopTakesTheFirst(s.list, k);
  }

  /** The removal of a key leaves exactly the other keys' entries, in their order. */
  lemma RemoveKeyRemoves<K(!new), V(!new)>(list: seq<Timed<K, V>>, k: K)
    ensures forall x :: x in NotOfKey(list, k) <==> x in list && x.key != k
    ensures forall k' :: k' != k ==> OfKey(NotOfKey(list, k), k') == OfKey(list, k')
  {
    hide NoDuplicates, Filter;
    KeyMembers(list, k);
    forall k' | k' != k ensures OfKey(NotOfKey(list, k), k') == OfKey(list, k') {
      FilterTwice(HasKey<K, CacheValue<V>>(k'), LacksKey<K, CacheValue<V>>(k), HasKey<K, CacheValue<V>>(k'), list);
    }
  }

  /** The removal of a pair leaves exactly the other pairs' entries, whatever the stamps. */
  lemma RemovePairRemoves<K(!new), V(!new)>(list: seq<Timed<K, V>>, k: K, v: V)
    ensures forall x :: x in WithoutPair(list, k, v) <==> x in list && !(x.key == k && x.value.value == v)
    ensures forall k' :: k' != k ==> OfKey(WithoutPair(list, k, v), k') == OfKey(list, k')
  {
    hide NoDuplicates, Filter;
    FilterMembers(LacksPair<K, V>(k, v), list);
    forall k' | k' != k ensures OfKey(WithoutPair(list, k, v), k') == OfKey(list, k') {
      FilterTwice(HasKey<K, CacheValue<V>>(k'), LacksPair<K, V>(k, v), HasKey<K, CacheValue<V>>(k'), list);
    }
  }

  /** Both kinds of removal and `clear`, in one step each, leave exactly the other entries. */
  lemma RemovalsRemove<K(!new), V(!new)>(c: Config, s: State<K, V>, t: nat, k: K, v: V)
    requires s.At(t).Idle? && s.lock.None?
    ensures var after := Next(c, s, RemoveKey(t, k)).list;
            && (forall x :: x in after <==> x in s.list && x.key != k)
            && (forall k' :: k' != k ==> OfKey(after, k') == OfKey(s.list, k'))
    ensures var after := Next(c, s, RemovePair(t, k, v)).list;
            && (forall x :: x in after <==> x in s.list && !(x.key == k && x.value.value == v))
            && (forall k' :: k' != k ==> OfKey(after, k') == OfKey(s.list, k'))
    ensures Next(c, s, Clear(t)).list == []
  {
    hide NotOfKey, WithoutPair, OfKey;
    RemoveKeyRemoves(s.list, k);
    RemovePairRemoves(s.list, k, v);
  }

  ghost predicate Holds<K, V>(list: seq<Timed<K, V>>, k: K) {
    exists x :: x in list && x.key == k
  }

  /** Step `i` commits an entry of key `k`. */
  ghost predicate CommitsKey<K, V>(states: seq<State<K, V>>, steps: seq<Step<K, V>>, i: nat, k: K)
    requires i < |steps| && i < |states|
  {
    steps[i].CommitPut? && states[i].At(steps[i].t).Stamped? && states[i].At(steps[i].t).entry.key == k
  }

  /**
   Over whole runs: a key that is gone, by whatever removal, stays gone until an entry of it is
   committed again.
   */
  lemma {:induction false} GoneUntilPut<K(!new), V(!new)>(c: Config, states: seq<State<K, V>>,
                                                          steps: seq<Step<K, V>>, n: nat, m: nat, k: K)
    requires IsRun(c, states, steps) && n <= m <= |steps| && !Holds(states[n].list, k)
    requires forall i :: n <= i < m ==> !CommitsKey(states, steps, i, k)
    ensures !Holds(states[m].list, k)
  {
    if n < m {
      GoneUntilPut(c, states, steps, n, m - 1, k);
      RunIsSafe(c, states, steps, m - 1);
      NoNewEntries(c, states[m - 1], steps[m - 1]);
      assert !CommitsKey(states, steps, m - 1, k);
    }
  }

  /** A thread scans exactly if it holds the lock. */
  ghost predicate LockIsScanning<K, V>(s: State<K, V>) {
    forall t: nat :: s.At(t).Scanning? <==> s.lock == Some(t)
  }

  lemma NobodyScans<K(!new), V(!new)>(s: State<K, V>)
    requires s.threads == map[] && s.lock == None
    ensures LockIsScanning(s)
  {
  }

  lemma ScanStep<K(!new), V(!new)>(c: Config, s: State<K, V>, step: Step<K, V>)
    requires Enabled(c, s, step) && LockIsScanning(s)
    ensures LockIsScanning(Next(c, s, step))
    ensures s.lock.Some? && Next(c, s, step).lock.Some? ==>
              Next(c, s, step).list == s.list && Next(c, s, step).lock == s.lock
  {
    hide Put, Get, Pop, LruOf, Without, NotOfKey, WithoutPair, Expired, LookupOutcome, Stamp;
  }

  /** The thread that scans is the one that holds the lock. */
  lemma {:induction false} ScannerHoldsLock<K(!new), V(!new)>(c: Config, states: seq<State<K, V>>,
                                                              steps: seq<Step<K, V>>, n: nat)
    requires IsRun(c, states, steps) && n <= |steps|
    ensures LockIsScanning(states[n])
  {
    hide Enabled, Next, LockIsScanning;
    if n == 0 {
      NobodyScans(states[0]);
    } else {
      ScannerHoldsLock(c, states, steps, n - 1);
      ScanStep(c, states[n - 1], steps[n - 1]);
    }
  }

  /** While a `getKey` is under way no step of another thread changes the list under it. */
  lemma {:induction false} ScanSeesOneList<K(!new), V(!new)>(c: Config, states: seq<State<K, V>>,
                                                             steps: seq<Step<K, V>>, n: nat, m: nat)
    requires IsRun(c, states, steps) && n <= m <= |steps|
    requires forall i :: n <= i <= m ==> states[i].lock.Some?
    ensures states[m].list == states[n].list && states[m].lock == states[n].lock
  {
    hide Enabled, Next, LockIsScanning;
    if n < m {
      ScanSeesOneList(c, states, steps, n, m - 1);
      ScannerHoldsLock(c, states, steps, m - 1);
      ScanStep(c, states[m - 1], steps[m - 1]);
    }
  }

  // ---------------------------------------------------------------------------------------------
  // Steps taken without interruption
  // ---------------------------------------------------------------------------------------------

  function ValueIn<K, V>(x: Option<Timed<K, V>>): Option<V> {
    if x.None? then None else Some(x.value.value.value)
  }

  /** All the steps of a `get` in a row, with no clock tick in between. */
  ghost function WholeGet<K, V>(c: Config, s: State<K, V>, t: nat, k: K): (State<K, V>, Option<V>)
    requires Enabled(c, s, LookupGet(t, k))
  {
    var looked := Next(c, s, LookupGet(t, k));
    if looked.At(t).Looked? then
      var checked := Next(c, looked, CheckGet(t));
      var result := Returns(c, looked, CheckGet(t));
      if checked.At(t).FoundExpired? then (Next(c, checked, RemoveGet(t)), None)
      else (checked, ValueIn(result))
    else (looked, None)
  }

  /** A thread that is not interrupted sees the sequential `get` of the timed cache. */
  lemma UninterruptedGetIsTimedGet<K(!new), V(!new)>(c: Config, s: State<K, V>, t: nat, k: K)
    requires Enabled(c, s, LookupGet(t, k))
    ensures var (after, result) := WholeGet(c, s, t, k);
            && Outcome(after.list, result) == GetTimed(s.list, k, s.now, c.expiration)
            && after.At(t).Idle? && after.now == s.now && after.lock == s.lock
  {
    LruOfIsFirst(s.list, k);
    if LruOf(s.list, k).Some? {
      DropAfterTouch(s.list, LruOf(s.list, k).value);
    }
  }

  /** Both steps of a `pop` in a row, with no clock tick in between. */
  ghost function WholePop<K, V>(c: Config, s: State<K, V>, t: nat, k: K): (State<K, V>, Option<V>)
    requires Enabled(c, s, TakePop(t, k))
  {
    var taken := Next(c, s, TakePop(t, k));
    if taken.At(t).Taken? then (Next(c, taken, CheckPop(t)), ValueIn(Returns(c, taken, CheckPop(t))))
    else (taken, None)
  }

  /** Likewise for `pop`. */
  lemma UninterruptedPopIsTimedPop<K(!new), V(!new)>(c: Config, s: State<K, V>, t: nat, k: K)
    requires Enabled(c, s, TakePop(t, k))
    ensures var (after, result) := WholePop(c, s, t, k);
            && Outcome(after.list, result) == PopTimed(s.list, k, s.now, c.expiration)
            && after.At(t).Idle? && after.now == s.now && after.lock == s.lock
  {
    hide Without, OfKey, Expired;
  }

  // ---------------------------------------------------------------------------------------------
  // A live value that is missed
  // ---------------------------------------------------------------------------------------------

  lemma RunGrows<K(!new), V(!new)>(c: Config, states: seq<State<K, V>>, steps: seq<Step<K, V>>, step: Step<K, V>)
    requires IsRun(c, states, steps) && Enabled(c, states[|steps|], step)
    ensures IsRun(c, states + [Next(c, states[|steps|], step)], steps + [step])
  {
  }

  /** A `put` that is not interrupted, by thread 0. */
  lemma PutInARow<K(!new), V(!new)>(c: Config, states: seq<State<K, V>>, steps: seq<Step<K, V>>, k: K, v: V)
    returns (states': seq<State<K, V>>)
    requires IsRun(c, states, steps) && states[|steps|].At(0).Idle? && states[|steps|].lock.None?
    ensures IsRun(c, states', steps + [StampPut(0, k, v), CommitPut(0)]) && |states'| == |steps| + 3
    ensures var s, t := states[|steps|], states'[|steps| + 2];
            && t.list == Put(c.capacity, s.list, Entry(k, CacheValue(Stamp(s.now), v)))
            && t.now == s.now && t.At(0).Idle? && t.lock.None?
  {
    var s := states[|steps|];
    RunGrows(c, states, steps, StampPut(0, k, v));
    var stamped := Next(c, s, StampPut(0, k, v));
    RunGrows(c, states + [stamped], steps + [StampPut(0, k, v)], CommitPut(0));
    states' := states + [stamped] + [Next(c, stamped, CommitPut(0))];
    assert steps + [StampPut(0, k, v)] + [CommitPut(0)] == steps + [StampPut(0, k, v), CommitPut(0)];
  }

  /** Likewise a `get` that finds an expired entry; it returns nothing. */
  lemma FailedGetInARow<K(!new), V(!new)>(c: Config, states: seq<State<K, V>>, steps: seq<Step<K, V>>, k: K)
    returns (states': seq<State<K, V>>)
    requires IsRun(c, states, steps) && states[|steps|].At(0).Idle? && states[|steps|].lock.None?
    requires var s := states[|steps|];
             LruOf(s.list, k).Some? && Expired(s.now, c.expiration, LruOf(s.list, k).value.value.timestamp)
    ensures IsRun(c, states', steps + [LookupGet(0, k), CheckGet(0), RemoveGet(0)]) && |states'| == |steps| + 4
    ensures Enabled(c, states'[|steps| + 1], CheckGet(0)) && Returns(c, states'[|steps| + 1], CheckGet(0)) == None
    ensures var s, t := states[|steps|], states'[|steps| + 3];
            t.list == Without(Get(s.list, k), LruOf(s.list, k).value) && t.now == s.now
  {
    var s := states[|steps|];
    var looked := Next(c, s, LookupGet(0, k));
    var checked := Next(c, looked, CheckGet(0));
    RunGrows(c, states, steps, LookupGet(0, k));
    RunGrows(c, states + [looked], steps + [LookupGet(0, k)], CheckGet(0));
    RunGrows(c, states + [looked] + [checked], steps + [LookupGet(0, k)] + [CheckGet(0)], RemoveGet(0));
    states' := states + [looked] + [checked] + [Next(c, checked, RemoveGet(0))];
    assert steps + [LookupGet(0, k)] + [CheckGet(0)] + [RemoveGet(0)]
        == steps + [LookupGet(0, k), CheckGet(0), RemoveGet(0)];
  }

  lemma TickInARow<K(!new), V(!new)>(c: Config, states: seq<State<K, V>>, steps: seq<Step<K, V>>, to: nat)
    returns (states': seq<State<K, V>>)
    requires IsRun(c, states, steps) && states[|steps|].now <= to
    ensures IsRun(c, states', steps + [Tick(to)]) && |states'| == |steps| + 2
    ensures states'[|steps| + 1] == states[|steps|].(now := to)
  {
    RunGrows(c, states, steps, Tick(to));
    states' := states + [Next(c, states[|steps|], Tick(to))];
  }

  lemma StampsOfSeconds()
    ensures Stamp(0) == 0 && Stamp(MICROS) == 1
  {
  }

  lemma FirstValueInARow<K(!new), V(!new)>(k: K, v: V) returns (states: seq<State<K, V>>)
    ensures IsRun(Config(0, 2), states, [StampPut(0, k, v), CommitPut(0)]) && |states| == 3
    ensures var x := Entry(k, CacheValue(Stamp(0), v));
            states[2].list == Put(0, [], x) && states[2].now == 0 && states[2].At(0).Idle? && states[2].lock.None?
  {
    var start: State<K, V> := State(0, [], None, map[]);
    assert IsRun(Config(0, 2), [start], []);
    states := PutInARow(Config(0, 2), [start], [], k, v);
    assert [] + [StampPut(0, k, v), CommitPut(0)] == [StampPut(0, k, v), CommitPut(0)];
  }

  lemma InOneRow<K, V>(k: K, v1: V, v2: V)
    ensures [StampPut(0, k, v1), CommitPut(0)] + [Tick(MICROS)]
          + [StampPut(0, k, v2), CommitPut(0)] + [Tick(2 * MICROS)]
         == [StampPut(0, k, v1), CommitPut(0), Tick(MICROS), StampPut(0, k, v2), CommitPut(0), Tick(2 * MICROS)]
  {
  }

  /** A value at time 0, another after one second, and a second later. */
  lemma TwoValuesInARow<K(!new), V(!new)>(k: K, v1: V, v2: V) returns (states: seq<State<K, V>>)
    requires v1 != v2
    ensures IsRun(Config(0, 2), states, [StampPut(0, k, v1), CommitPut(0), Tick(MICROS), StampPut(0, k, v2),
                                         CommitPut(0), Tick(2 * MICROS)])
    ensures |states| == 7 && states[6].now == 2 * MICROS && states[6].At(0).Idle? && states[6].lock.None?
    ensures states[6].list == [Entry(k, CacheValue(0, v1)), Entry(k, CacheValue(1, v2))]
  {
    hide IsRun, Next, Enabled, Put, Stamp;
    StampsOfSeconds();
    var c := Config(0, 2);
    var first, second := [StampPut(0, k, v1), CommitPut(0)], [StampPut(0, k, v2), CommitPut(0)];
    TwoValues(0, Entry(k, CacheValue(0, v1)), Entry(k, CacheValue(1, v2)));
    states := FirstValueInARow(k, v1);
    states := TickInARow(c, states, first, MICROS);
    states := PutInARow(c, states, first + [Tick(MICROS)], k, v2);
    states := TickInARow(c, states, first + [Tick(MICROS)] + second, 2 * MICROS);
    InOneRow(k, v1, v2);
  }

  /**
   With an expiration of two seconds, a key gets a value at time 0 and another after one second. A
   get after two seconds returns nothing and drops the first value, although the second is live.
   */
  lemma LiveValueIsMissed<K(!new), V(!new)>(k: K, v1: V, v2: V)
    returns (states: seq<State<K, V>>, steps: seq<Step<K, V>>)
    requires v1 != v2
    ensures steps == [StampPut(0, k, v1), CommitPut(0), Tick(MICROS), StampPut(0, k, v2), CommitPut(0),
                      Tick(2 * MICROS)] + [LookupGet(0, k), CheckGet(0), RemoveGet(0)]
    ensures IsRun(Config(0, 2), states, steps) && |states| == 10 && states[9].now == 2 * MICROS
    ensures Enabled(Config(0, 2), states[7], CheckGet(0)) && Returns(Config(0, 2), states[7], CheckGet(0)) == None
    ensures states[9].list == [Entry(k, CacheValue(1, v2))] && !Expired(2 * MICROS, 2, 1)
  {
    hide IsRun, Next, Enabled, Returns, Put, Get, LruOf, Without;
    TwoValues(0, Entry(k, CacheValue(0, v1)), Entry(k, CacheValue(1, v2)));
    steps := [StampPut(0, k, v1), CommitPut(0), Tick(MICROS), StampPut(0, k, v2), CommitPut(0), Tick(2 * MICROS)];
    states := TwoValuesInARow(k, v1, v2);
    states := FailedGetInARow(Config(0, 2), states, steps, k);
    steps := steps + [LookupGet(0, k), CheckGet(0), RemoveGet(0)];
  }
}
