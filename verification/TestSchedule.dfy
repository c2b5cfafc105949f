/**
 The order in which tests run: death tests first. A schedule is the list of registered test cases,
 how many of them are death tests, the order in which the cases' indices are visited, and for each
 case the order in which its tests' indices are visited.
 */
module TestSchedule {
  import opened Sequences
  import opened GlobFilter

  datatype Schedule = Schedule(names: seq<string>, deaths: nat, order: seq<nat>, inner: seq<seq<nat>>)

  const EMPTY: Schedule := Schedule([], 0, [], [])

  function Identity(n: nat): (s: seq<nat>)
    ensures |s| == n
  {
    seq(n, i => i)
  }

  /** A vector of all indices below its length. */
  ghost predicate IsPermutation(p: seq<nat>) {
    NoDuplicates(p) && forall i :: 0 <= i < |p| ==> p[i] < |p|
  }

  /** Distinct names, death tests in front. */
  ghost predicate NamesInOrder(names: seq<string>, deaths: nat) {
    && NoDuplicates(names)
    && deaths <= |names|
    && forall i :: 0 <= i < |names| ==> (IsDeathTest(names[i]) <==> i < deaths)
  }

  /** The registered cases, with one index slot for each case and for each of its tests. */
  ghost predicate Registered(s: Schedule) {
    && NamesInOrder(s.names, s.deaths)
    && |s.order| == |s.inner| == |s.names|
    && IsPermutation(s.order)
    && forall c :: 0 <= c < |s.inner| ==> IsPermutation(s.inner[c])
  }

  /** The first slots hold exactly the indices of the death tests. */
  ghost predicate DeathsFirst(order: seq<nat>, deaths: nat) {
    forall i :: 0 <= i < |order| ==> (order[i] < deaths <==> i < deaths)
  }

  ghost predicate Sound(s: Schedule) {
    Registered(s) && DeathsFirst(s.order, s.deaths)
  }

  // ---------------------------------------------------------------------------------------------
  // What a sound schedule means
  // ---------------------------------------------------------------------------------------------

  /** A test, by the index of its case and its own. */
  datatype Visit = Visit(testCase: nat, test: nat)

  /** The tests of one case in the order of their slots. */
  function CaseVisits(c: nat, inner: seq<nat>): seq<Visit> {
    seq(|inner|, j requires 0 <= j < |inner| => Visit(c, inner[j]))
  }

  /** The tests that the first `n` slots visit. */
  function VisitsUpTo(order: seq<nat>, inner: seq<seq<nat>>, n: nat): seq<Visit>
    requires n <= |order| && forall i :: 0 <= i < |order| ==> order[i] < |inner|
  {
    if n == 0 then [] else VisitsUpTo(order, inner, n - 1) + CaseVisits(order[n - 1], inner[order[n - 1]])
  }

  function Visits(s: Schedule): seq<Visit>
    requires forall i :: 0 <= i < |s.order| ==> s.order[i] < |s.inner|
  {
    VisitsUpTo(s.order, s.inner, |s.order|)
  }

  ghost predicate IsDeathCase(s: Schedule, c: nat) {
    c < |s.names| && IsDeathTest(s.names[c])
  }

  lemma CaseMembers(c: nat, inner: seq<nat>, c': nat, k: nat)
    ensures Visit(c', k) in CaseVisits(c, inner) <==> c' == c && k in inner
  {
    if c' == c && k in inner {
      assert CaseVisits(c, inner)[IndexOf(inner, k)] == Visit(c', k);
    }
  }

  lemma {:induction false} VisitMembers(order: seq<nat>, inner: seq<seq<nat>>, n: nat, c: nat, k: nat)
    requires n <= |order| && forall i :: 0 <= i < |order| ==> order[i] < |inner|
    ensures Visit(c, k) in VisitsUpTo(order, inner, n) <==> c < |inner| && c in order[..n] && k in inner[c]
  {
    if n > 0 {
      VisitMembers(order, inner, n - 1, c, k);
      CaseMembers(order[n - 1], inner[order[n - 1]], c, k);
      assert order[..n] == order[..n - 1] + [order[n - 1]];
    }
  }

  lemma DistinctAppend<T(!new)>(a: seq<T>, b: seq<T>)
    requires NoDuplicates(a) && NoDuplicates(b) && forall x :: x in a ==> x !in b
    ensures NoDuplicates(a + b)
  {
    forall i, j | 0 <= i < j < |a| + |b| ensures (a + b)[i] != (a + b)[j] {
      if i < |a| <= j {
        assert a[i] in a && b[j - |a|] in b;
      }
    }
  }

  lemma {:induction false} VisitsAreDistinct(order: seq<nat>, inner: seq<seq<nat>>, n: nat)
    requires n <= |order| && forall i :: 0 <= i < |order| ==> order[i] < |inner|
    requires NoDuplicates(order) && forall c :: 0 <= c < |inner| ==> NoDuplicates(inner[c])
    ensures NoDuplicates(VisitsUpTo(order, inner, n))
  {
    if n > 0 {
      var before, next := VisitsUpTo(order, inner, n - 1), CaseVisits(order[n - 1], inner[order[n - 1]]);
      VisitsAreDistinct(order, inner, n - 1);
      forall v | v in before ensures v !in next {
        VisitMembers(order, inner, n - 1, v.testCase, v.test);
        CaseMembers(order[n - 1], inner[order[n - 1]], v.testCase, v.test);
      }
      DistinctAppend(before, next);
    }
  }

  /** No visit of a case below `deaths` comes after another visit. */
  ghost predicate LowCasesFirst(visits: seq<Visit>, deaths: nat) {
    forall a, b :: 0 <= a < b < |visits| && visits[b].testCase < deaths ==> visits[a].testCase < deaths
  }

  lemma LowCasesAppend(visits: seq<Visit>, c: nat, inner: seq<nat>, deaths: nat)
    requires LowCasesFirst(visits, deaths)
    requires c < deaths ==> forall a :: 0 <= a < |visits| ==> visits[a].testCase < deaths
    ensures LowCasesFirst(visits + CaseVisits(c, inner), deaths)
  {
  }

  lemma {:induction false} DeathVisitsFirst(order: seq<nat>, inner: seq<seq<nat>>, deaths: nat, n: nat)
    requires n <= |order| && forall i :: 0 <= i < |order| ==> order[i] < |inner|
    requires DeathsFirst(order, deaths)
    ensures LowCasesFirst(VisitsUpTo(order, inner, n), deaths)
  {
    if n > 0 {
      var before, c := VisitsUpTo(order, inner, n - 1), order[n - 1];
      DeathVisitsFirst(order, inner, deaths, n - 1);
      forall a | 0 <= a < |before| && c < deaths ensures before[a].testCase < deaths {
        VisitMembers(order, inner, n - 1, before[a].testCase, before[a].test);
        assert before[a] in before;
      }
      LowCasesAppend(before, c, inner[c], deaths);
    }
  }

  ghost function Below(n: nat): (s: set<nat>)
    ensures |s| == n
    ensures forall c :: c in s <==> 0 <= c < n
  {
    if n == 0 then {} else Below(n - 1) + {n - 1}
  }

  lemma PermutationIsOnto(p: seq<nat>)
    requires IsPermutation(p)
    ensures forall c: nat :: c in p <==> c < |p|
  {
    NoDuplicatesCardinality(p);
    var missing := Below(|p|) - Elements(p);
    assert Elements(p) <= Below(|p|);
    assert Below(|p|) == Elements(p) + missing;
    assert |missing| == 0;
    forall c: nat ensures c in p <==> c < |p| {
      assert c in Below(|p|) <==> c in Elements(p);
    }
  }

  /**
   Main result: a sound schedule visits every test of every case exactly once, and no test of a
   death test case after a test of another case.
   */
  lemma SoundScheduleRunsAll(s: Schedule)
    requires Sound(s)
    ensures NoDuplicates(Visits(s))
    ensures forall c: nat, k: nat :: Visit(c, k) in Visits(s) <==> c < |s.inner| && k < |s.inner[c]|
    ensures forall a, b :: 0 <= a < b < |Visits(s)| && IsDeathCase(s, Visits(s)[b].testCase) ==>
              IsDeathCase(s, Visits(s)[a].testCase)
  {
    var n := |s.order|;
    VisitsAreDistinct(s.order, s.inner, n);
    DeathVisitsFirst(s.order, s.inner, s.deaths, n);
    PermutationIsOnto(s.order);
    assert s.order[..n] == s.order;
    forall c: nat, k: nat ensures Visit(c, k) in Visits(s) <==> c < |s.inner| && k < |s.inner[c]| {
      VisitMembers(s.order, s.inner, n, c, k);
      if c < |s.inner| {
        PermutationIsOnto(s.inner[c]);
      }
    }
  }

  lemma {:induction false} FilterKeepsLowFirst(p: Visit -> bool, visits: seq<Visit>, deaths: nat)
    requires LowCasesFirst(visits, deaths)
    ensures LowCasesFirst(Filter(p, visits), deaths)
  {
    if visits != [] {
      FilterKeepsLowFirst(p, visits[1..], deaths);
      FilterAt(p, visits[1..]);
    }
  }

  /**
   Main result: of a sound schedule's visits, those selected to run are each of the selected tests
   exactly once, and no test of a death test case comes after a test of another case.
   */
  lemma SelectedRunOnce(s: Schedule, selected: set<Visit>)
    requires Sound(s) && forall v :: v in selected ==> v.testCase < |s.inner| && v.test < |s.inner[v.testCase]|
    ensures var ran := Filter(Among(selected), Visits(s));
            && NoDuplicates(ran)
            && (forall v :: v in ran <==> v in selected)
            && forall a, b :: 0 <= a < b < |ran| && IsDeathCase(s, ran[b].testCase) ==> IsDeathCase(s, ran[a].testCase)
  {
    var visits := Visits(s);
    SoundScheduleRunsAll(s);
    FilterKeepsNoDuplicates(Among(selected), visits);
    FilterMembers(Among(selected), visits);
    forall v | v in selected ensures v in visits {
      assert Visit(v.testCase, v.test) in visits;
    }
    DeathVisitsFirst(s.order, s.inner, s.deaths, |s.order|);
    FilterKeepsLowFirst(Among(selected), visits, s.deaths);
    FilterAt(Among(selected), visits);
    forall a | 0 <= a < |Filter(Among(selected), visits)|
      ensures var v := Filter(Among(selected), visits)[a]; v.testCase < |s.names|
    {
    }
  }

  /**
   The read-only accessor returns the case registered at place `i`, the one used for running the
   case in slot `i`: they agree on every slot exactly while the cases are not shuffled.
   */
  lemma AccessorsAgreeExactly(s: Schedule)
    requires Registered(s)
    ensures (forall i :: 0 <= i < |s.order| ==> s.names[s.order[i]] == s.names[i]) <==> s.order == Identity(|s.order|)
  {
  }

  /** `b` is scheduled after `a`: in a later slot, or in the same case's later place. */
  ghost predicate ScheduledAfter(order: seq<nat>, inner: seq<seq<nat>>, a: Visit, b: Visit)
    requires a.testCase in order && b.testCase in order
    requires a.testCase < |inner| && a.test in inner[a.testCase]
    requires b.testCase < |inner| && b.test in inner[b.testCase]
  {
    || IndexOf(order, a.testCase) < IndexOf(order, b.testCase)
    || (a.testCase == b.testCase && IndexOf(inner[a.testCase], a.test) < IndexOf(inner[b.testCase], b.test))
  }

  ghost predicate IsScheduled(order: seq<nat>, inner: seq<seq<nat>>, n: nat, v: Visit)
    requires n <= |order|
  {
    && v.testCase in order && IndexOf(order, v.testCase) < n
    && v.testCase < |inner| && v.test in inner[v.testCase]
  }

  ghost predicate InSchedule(order: seq<nat>, inner: seq<seq<nat>>, n: nat, visits: seq<Visit>)
    requires n <= |order|
  {
    && (forall a :: 0 <= a < |visits| ==> IsScheduled(order, inner, n, visits[a]))
    && (forall a, b :: 0 <= a < b < |visits| ==> ScheduledAfter(order, inner, visits[a], visits[b]))
  }

  lemma PlaceOfFirst(p: seq<nat>, i: nat)
    requires NoDuplicates(p) && i < |p|
    ensures p[i] in p && IndexOf(p, p[i]) == i
  {
  }

  lemma CaseInSchedule(order: seq<nat>, inner: seq<seq<nat>>, n: nat, visits: seq<Visit>)
    requires n < |order| && NoDuplicates(order) && order[n] < |inner| && NoDuplicates(inner[order[n]])
    requires InSchedule(order, inner, n, visits)
    ensures InSchedule(order, inner, n + 1, visits + CaseVisits(order[n], inner[order[n]]))
  {
    hide IndexOf, NoDuplicates;
    var c := order[n];
    var next := CaseVisits(c, inner[c]);
    PlaceOfFirst(order, n);
    forall j | 0 <= j < |next|
      ensures next[j].testCase == c && next[j].test in inner[c] && IndexOf(inner[c], next[j].test) == j
    {
      PlaceOfFirst(inner[c], j);
    }
  }

  lemma NothingScheduled(order: seq<nat>, inner: seq<seq<nat>>)
    ensures InSchedule(order, inner, 0, [])
  {
  }

  /** Main result: the visits follow the order of the slots, and within a case that of its own slots. */
  lemma {:induction false} VisitsFollowSlots(order: seq<nat>, inner: seq<seq<nat>>, n: nat)
    requires n <= |order| && NoDuplicates(order) && forall i :: 0 <= i < |order| ==> order[i] < |inner|
    requires forall c :: 0 <= c < |inner| ==> NoDuplicates(inner[c])
    ensures InSchedule(order, inner, n, VisitsUpTo(order, inner, n))
  {
    hide InSchedule, NoDuplicates, CaseVisits;
    if n == 0 {
      NothingScheduled(order, inner);
    } else {
      VisitsFollowSlots(order, inner, n - 1);
      CaseInSchedule(order, inner, n - 1, VisitsUpTo(order, inner, n - 1));
    }
  }

  // ---------------------------------------------------------------------------------------------
  // Registering
  // ---------------------------------------------------------------------------------------------

  /** A new death test goes behind the death tests so far, any other new case to the end. */
  ghost function Place(s: Schedule, name: string): (at: nat)
    requires s.deaths <= |s.names|
    ensures at <= |s.names|
  {
    if IsDeathTest(name) then s.deaths else |s.names|
  }

  ghost function Register(s: Schedule, name: string): Schedule
    requires s.deaths <= |s.names| == |s.inner|
  {
    if name in s.names then s
    else
      var at := Place(s, name);
      Schedule(InsertedAt(s.names, at, name), if IsDeathTest(name) then s.deaths + 1 else s.deaths,
               s.order + [|s.order|], InsertedAt(s.inner, at, []))
  }

  /** A test is added to case `c`. */
  ghost function AddTest(s: Schedule, c: nat): Schedule
    requires c < |s.inner|
  {
    s.(inner := s.inner[c := s.inner[c] + [|s.inner[c]|]])
  }

  lemma IsNowKnown(s: Schedule, name: string)
    requires s.deaths <= |s.names| == |s.inner|
    ensures var t := Register(s, name);
            name in t.names && |t.names| == |t.inner|
  {
    if name !in s.names {
      InsertedAtIndex(s.names, Place(s, name), name);
    }
  }

  /** A test is added to the case of this name, which is registered first if it is new. */
  ghost function AddTestNamed(s: Schedule, name: string): Schedule
    requires s.deaths <= |s.names| == |s.inner|
  {
    var t := Register(s, name);
    IsNowKnown(s, name);
    AddTest(t, IndexOf(t.names, name))
  }

  lemma NameAt(names: seq<string>, i: nat)
    requires NoDuplicates(names) && i < |names|
    ensures IndexOf(names, names[i]) == i
  {
  }

  lemma InsertedName(names: seq<string>, deaths: nat, name: string, at: nat)
    requires NamesInOrder(names, deaths) && name !in names
    requires at == if IsDeathTest(name) then deaths else |names|
    ensures NamesInOrder(InsertedAt(names, at, name), if IsDeathTest(name) then deaths + 1 else deaths)
  {
    InsertedAtIndex(names, at, name);
  }

  lemma RegisterKeepsRegistered(s: Schedule, name: string)
    requires Registered(s)
    ensures Registered(Register(s, name))
  {
    if name !in s.names {
      var at := Place(s, name);
      InsertedName(s.names, s.deaths, name, at);
      InsertedAtIndex(s.inner, at, []);
    }
  }

  lemma AppendIndex(p: seq<nat>)
    requires IsPermutation(p)
    ensures IsPermutation(p + [|p|])
  {
  }

  lemma AddTestKeepsSound(s: Schedule, c: nat)
    requires Registered(s) && c < |s.inner|
    ensures Registered(AddTest(s, c))
    ensures Sound(s) ==> Sound(AddTest(s, c))
  {
  }

  /** Registering keeps the order of the cases at the identity, and with it the schedule sound. */
  lemma RegisterUnshuffled(s: Schedule, name: string)
    requires Registered(s) && s.order == Identity(|s.order|)
    ensures Sound(s) && Sound(Register(s, name)) && Register(s, name).order == Identity(|Register(s, name).order|)
  {
    RegisterKeepsRegistered(s, name);
  }

  /**
   The case is known or no death test, or there are only death tests so far, or the first slot of
   the other block happens to hold its own index.
   */
  ghost predicate CanRegister(s: Schedule, name: string)
    requires s.deaths <= |s.order|
  {
    || name in s.names || !IsDeathTest(name)
    || s.deaths == |s.order| || s.order[s.deaths] == s.deaths
  }

  lemma OneMoreDeath(order: seq<nat>, deaths: nat)
    requires IsPermutation(order) && DeathsFirst(order, deaths) && deaths <= |order|
    ensures DeathsFirst(order + [|order|], deaths + 1) <==> deaths == |order| || order[deaths] == deaths
  {
    var grown := order + [|order|];
    assert forall i :: 0 <= i < |order| ==> grown[i] == order[i];
    if deaths < |order| && order[deaths] == deaths {
      assert forall i :: 0 <= i < |order| && i != deaths ==> order[i] != deaths;
    }
  }

  /** After a shuffle a registration can put a death test behind another test: exactly when it cannot register. */
  lemma RegisterShuffledExactly(s: Schedule, name: string)
    requires Sound(s)
    ensures Sound(Register(s, name)) <==> CanRegister(s, name)
  {
    RegisterKeepsRegistered(s, name);
    if name !in s.names && IsDeathTest(name) {
      OneMoreDeath(s.order, s.deaths);
    }
  }

  // ---------------------------------------------------------------------------------------------
  // Shuffling and unshuffling
  // ---------------------------------------------------------------------------------------------

  ghost predicate BlocksPermuted(s: seq<nat>, t: seq<nat>, split: nat)
    requires split <= |s|
  {
    |t| == |s| && multiset(t[..split]) == multiset(s[..split]) && multiset(t[split..]) == multiset(s[split..])
  }

  ghost predicate InnerPermuted(s: seq<seq<nat>>, t: seq<seq<nat>>) {
    |t| == |s| && forall c :: 0 <= c < |s| ==> |t[c]| == |s[c]| && multiset(t[c]) == multiset(s[c])
  }

  /** The two blocks of cases are each permuted within themselves, and so are the tests of each case. */
  ghost predicate IsShuffleOf(s: Schedule, t: Schedule)
    requires s.deaths <= |s.order|
  {
    && t.names == s.names && t.deaths == s.deaths
    && BlocksPermuted(s.order, t.order, s.deaths)
    && InnerPermuted(s.inner, t.inner)
  }

  function Unshuffled(s: Schedule): Schedule {
    s.(order := Identity(|s.order|),
       inner := seq(|s.inner|, c requires 0 <= c < |s.inner| => Identity(|s.inner[c]|)))
  }

  lemma JoinBlocks(s: seq<nat>, t: seq<nat>, split: nat)
    requires split <= |s| && BlocksPermuted(s, t, split)
    ensures multiset(t) == multiset(s)
  {
    assert t == t[..split] + t[split..] && s == s[..split] + s[split..];
  }

  lemma BlockMembers(a: seq<nat>, b: seq<nat>)
    requires multiset(a) == multiset(b) && NoDuplicates(a)
    ensures NoDuplicates(b) && forall x :: x in b ==> x in a
  {
    forall x | x in b ensures x in a {
      assert x in multiset(b);
    }
    forall i, j | 0 <= i < j < |b| ensures b[i] != b[j] {
      OnceInMultiset(a, b[i]);
      if b[i] == b[j] {
        TwiceInMultiset(b, i, j);
      }
    }
  }

  lemma PermutedIsPermutation(p: seq<nat>, q: seq<nat>)
    requires IsPermutation(p) && |q| == |p| && multiset(q) == multiset(p)
    ensures IsPermutation(q)
  {
    BlockMembers(p, q);
    forall i | 0 <= i < |q| ensures q[i] < |q| {
      assert q[i] in p;
    }
  }

  lemma ShuffleKeepsRegistered(s: Schedule, t: Schedule)
    requires Registered(s) && IsShuffleOf(s, t)
    ensures Registered(t)
  {
    JoinBlocks(s.order, t.order, s.deaths);
    PermutedIsPermutation(s.order, t.order);
    forall c | 0 <= c < |t.inner| ensures IsPermutation(t.inner[c]) {
      PermutedIsPermutation(s.inner[c], t.inner[c]);
    }
  }

  lemma BlocksKeepDeathsFirst(s: seq<nat>, t: seq<nat>, deaths: nat)
    requires deaths <= |s| && NoDuplicates(s) && DeathsFirst(s, deaths) && BlocksPermuted(s, t, deaths)
    ensures DeathsFirst(t, deaths)
  {
    BlockMembers(s[..deaths], t[..deaths]);
    BlockMembers(s[deaths..], t[deaths..]);
    forall i | 0 <= i < |t| ensures t[i] < deaths <==> i < deaths {
      if i < deaths {
        assert t[..deaths][i] in s[..deaths];
      } else {
        assert t[deaths..][i - deaths] in s[deaths..];
      }
    }
  }

  lemma ShuffleKeepsSound(s: Schedule, t: Schedule)
    requires Sound(s) && IsShuffleOf(s, t)
    ensures Sound(t)
  {
    ShuffleKeepsRegistered(s, t);
    BlocksKeepDeathsFirst(s.order, t.order, s.deaths);
  }

  lemma EmptyIsSound()
    ensures Sound(EMPTY) && Registered(EMPTY)
  {
  }

  lemma UnshuffledIsSound(s: Schedule)
    requires Registered(s)
    ensures Sound(Unshuffled(s))
  {
  }

  /** By case, then by test. */
  ghost predicate Earlier(a: Visit, b: Visit) {
    a.testCase < b.testCase || (a.testCase == b.testCase && a.test < b.test)
  }

  ghost predicate InOrder(visits: seq<Visit>) {
    forall a, b :: 0 <= a < b < |visits| ==> Earlier(visits[a], visits[b])
  }

  lemma InOrderAppend(visits: seq<Visit>, c: nat, inner: seq<nat>)
    requires InOrder(visits) && forall a :: 0 <= a < |visits| ==> visits[a].testCase < c
    requires forall j :: 0 <= j < |inner| ==> inner[j] == j
    ensures InOrder(visits + CaseVisits(c, inner))
    ensures forall a :: 0 <= a < |visits + CaseVisits(c, inner)| ==> (visits + CaseVisits(c, inner))[a].testCase <= c
  {
  }

  lemma {:induction false} IdentityVisits(order: seq<nat>, inner: seq<seq<nat>>, n: nat)
    requires n <= |order| && |order| == |inner| && forall i :: 0 <= i < |order| ==> order[i] == i
    requires forall c, j :: 0 <= c < |inner| && 0 <= j < |inner[c]| ==> inner[c][j] == j
    ensures InOrder(VisitsUpTo(order, inner, n))
    ensures forall a :: 0 <= a < |VisitsUpTo(order, inner, n)| ==> VisitsUpTo(order, inner, n)[a].testCase < n
  {
    if n > 0 {
      IdentityVisits(order, inner, n - 1);
      InOrderAppend(VisitsUpTo(order, inner, n - 1), n - 1, inner[n - 1]);
    }
  }

  /** Unshuffling puts every index into its own slot, so the visits are in registration order. */
  lemma UnshuffledInOrder(s: Schedule)
    requires Registered(s)
    ensures var t := Unshuffled(s);
            && t.names == s.names && t.deaths == s.deaths && |t.order| == |s.order| && |t.inner| == |s.inner|
            && (forall i :: 0 <= i < |t.order| ==> t.order[i] == i)
            && (forall c :: 0 <= c < |t.inner| ==> |t.inner[c]| == |s.inner[c]|)
            && (forall c, j :: 0 <= c < |t.inner| && 0 <= j < |t.inner[c]| ==> t.inner[c][j] == j)
            && forall a, b :: 0 <= a < b < |Visits(t)| ==> Earlier(Visits(t)[a], Visits(t)[b])
  {
    var t := Unshuffled(s);
    IdentityVisits(t.order, t.inner, |t.order|);
  }

  // ---------------------------------------------------------------------------------------------
  // Whole histories
  // ---------------------------------------------------------------------------------------------

  datatype Event = Registering(name: string) | Adding(c: nat) | Shuffling | Unshuffling

  ghost predicate WellSized(s: Schedule) {
    s.deaths <= |s.names| == |s.order| == |s.inner|
  }

  ghost predicate Happens(s: Schedule, event: Event, t: Schedule) {
    && WellSized(s)
    && match event
       case Registering(name) => t == Register(s, name)
       case Adding(c) => c < |s.inner| && t == AddTest(s, c)
       case Shuffling => IsShuffleOf(s, t)
       case Unshuffling => t == Unshuffled(s)
  }

  ghost predicate IsHistory(states: seq<Schedule>, events: seq<Event>) {
    && |states| == |events| + 1
    && states[0] == EMPTY
    && forall i :: 0 <= i < |events| ==> Happens(states[i], events[i], states[i + 1])
  }

  /** The registration in step `i`, if it is one, does not put a death test behind another test. */
  ghost predicate Careful(states: seq<Schedule>, events: seq<Event>, i: nat)
    requires i < |events| < |states|
  {
    events[i].Registering? ==> WellSized(states[i]) && CanRegister(states[i], events[i].name)
  }

  /** Whatever happens, every case and every test keeps exactly one slot. */
  lemma {:induction false} HistoriesAreRegistered(states: seq<Schedule>, events: seq<Event>, n: nat)
    requires IsHistory(states, events) && n <= |events|
    ensures Registered(states[n])
  {
    hide NamesInOrder, IsPermutation, IsShuffleOf, Unshuffled, Register, AddTest;
    if n == 0 {
      EmptyIsSound();
    } else {
      HistoriesAreRegistered(states, events, n - 1);
      var s := states[n - 1];
      assert Happens(s, events[n - 1], states[n]);
      match events[n - 1]
      case Registering(name) => RegisterKeepsRegistered(s, name);
      case Adding(c) => AddTestKeepsSound(s, c);
      case Shuffling => ShuffleKeepsRegistered(s, states[n]);
      case Unshuffling => UnshuffledIsSound(s);
    }
  }

  lemma StepIsSoundExactly(states: seq<Schedule>, events: seq<Event>, i: nat)
    requires IsHistory(states, events) && i < |events| && Sound(states[i])
    ensures Sound(states[i + 1]) <==> Careful(states, events, i)
  {
    var s := states[i];
    assert Happens(s, events[i], states[i + 1]);
    match events[i]
    case Registering(name) => RegisterShuffledExactly(s, name);
    case Adding(c) => AddTestKeepsSound(s, c);
    case Shuffling => ShuffleKeepsSound(s, states[i + 1]);
    case Unshuffling => UnshuffledIsSound(s);
  }

  /**
   Main result: in any history of registrations, shuffles and unshuffles, all schedules up to the
   n-th are sound if and only if every registration up to there was careful.
   */
  lemma {:induction false} HistoriesAreSoundExactly(states: seq<Schedule>, events: seq<Event>, n: nat)
    requires IsHistory(states, events) && n <= |events|
    ensures (forall i :: 0 <= i <= n ==> Sound(states[i])) <==>
            (forall i :: 0 <= i < n ==> Careful(states, events, i))
  {
    hide Sound, Happens, CanRegister;
    if n == 0 {
      EmptyIsSound();
    } else {
      HistoriesAreSoundExactly(states, events, n - 1);
      if forall i :: 0 <= i <= n - 1 ==> Sound(states[i]) {
        StepIsSoundExactly(states, events, n - 1);
      }
    }
  }

  /** Registering only while the cases are in their registration order, as the source asks for, is careful. */
  lemma HistoriesAreSound(states: seq<Schedule>, events: seq<Event>, n: nat)
    requires IsHistory(states, events) && n <= |events|
    requires forall i :: 0 <= i < |events| && events[i].Registering? ==> states[i].order == Identity(|states[i].order|)
    ensures Sound(states[n])
    ensures n > 0 && events[n - 1].Unshuffling? ==> states[n] == Unshuffled(states[n - 1])
  {
    forall i | 0 <= i < n ensures Careful(states, events, i) {
      assert Happens(states[i], events[i], states[i + 1]);
    }
    HistoriesAreSoundExactly(states, events, n);
  }

  // ---------------------------------------------------------------------------------------------
  // Registration order
  // ---------------------------------------------------------------------------------------------

  /** `u` is registered and stands before `v`. */
  ghost predicate Before(names: seq<string>, u: string, v: string) {
    exists i, j :: 0 <= i < j < |names| && names[i] == u && names[j] == v
  }

  lemma InsertedKeepsBefore(names: seq<string>, at: nat, name: string, u: string, v: string)
    requires at <= |names| && Before(names, u, v)
    ensures Before(InsertedAt(names, at, name), u, v)
  {
    var i, j :| 0 <= i < j < |names| && names[i] == u && names[j] == v;
    InsertedAtIndex(names, at, name);
    var grown := InsertedAt(names, at, name);
    var i', j' := if i < at then i else i + 1, if j < at then j else j + 1;
    assert grown[i'] == u && grown[j'] == v;
  }

  /** A new case stands behind all known cases of its kind, and the known cases keep their order. */
  lemma RegisterInOrder(s: Schedule, name: string)
    requires Registered(s) && name !in s.names
    ensures name in Register(s, name).names
    ensures forall u :: u in s.names && IsDeathTest(u) == IsDeathTest(name) ==> Before(Register(s, name).names, u, name)
    ensures forall u, v :: Before(s.names, u, v) ==> Before(Register(s, name).names, u, v)
  {
    hide IsDeathTest;
    var at := Place(s, name);
    var grown := InsertedAt(s.names, at, name);
    InsertedAtIndex(s.names, at, name);
    assert grown[at] == name;
    forall u | u in s.names && IsDeathTest(u) == IsDeathTest(name) ensures Before(grown, u, name) {
      var i := IndexOf(s.names, u);
      assert i < at && grown[i] == u;
    }
    forall u, v | Before(s.names, u, v) ensures Before(grown, u, v) {
      InsertedKeepsBefore(s.names, at, name, u, v);
    }
  }

  /** Step `i` registers `name` for the first time. */
  ghost predicate FirstRegisters(states: seq<Schedule>, events: seq<Event>, i: nat, name: string)
    requires i < |events| < |states|
  {
    events[i] == Registering(name) && name !in states[i].names
  }

  lemma StepKeepsOrder(states: seq<Schedule>, events: seq<Event>, i: nat, u: string, v: string)
    requires IsHistory(states, events) && i < |events| && Registered(states[i])
    ensures u in states[i].names ==> u in states[i + 1].names
    ensures Before(states[i].names, u, v) ==> Before(states[i + 1].names, u, v)
  {
    hide IsDeathTest, Registered, Before, Place;
    assert Happens(states[i], events[i], states[i + 1]);
    if events[i].Registering? && events[i].name !in states[i].names {
      var names, at, name := states[i].names, Place(states[i], events[i].name), events[i].name;
      if Before(names, u, v) {
        InsertedKeepsBefore(names, at, name, u, v);
      }
    }
  }

  lemma {:induction false} StaysKnown(states: seq<Schedule>, events: seq<Event>, n: nat, m: nat, u: string, v: string)
    requires IsHistory(states, events) && n <= m <= |events|
    ensures u in states[n].names ==> u in states[m].names
    ensures Before(states[n].names, u, v) ==> Before(states[m].names, u, v)
  {
    hide Before, Happens, Registered;
    if n < m {
      StaysKnown(states, events, n, m - 1, u, v);
      HistoriesAreRegistered(states, events, m - 1);
      StepKeepsOrder(states, events, m - 1, u, v);
    }
  }

  /** Main result: in every history, two cases of the same kind stand in the order of their registration. */
  lemma RegistrationOrderIsKept(states: seq<Schedule>, events: seq<Event>, n: nat, i: nat, j: nat, u: string, v: string)
    requires IsHistory(states, events) && i < j < n <= |events|
    requires FirstRegisters(states, events, i, u) && FirstRegisters(states, events, j, v)
    requires IsDeathTest(u) == IsDeathTest(v)
    ensures Before(states[n].names, u, v)
  {
    hide IsDeathTest, Before, Registered;
    HistoriesAreRegistered(states, events, i);
    HistoriesAreRegistered(states, events, j);
    assert Happens(states[i], events[i], states[i + 1]);
    assert Happens(states[j], events[j], states[j + 1]);
    RegisterInOrder(states[i], u);
    StaysKnown(states, events, i + 1, j, u, v);
    RegisterInOrder(states[j], v);
    StaysKnown(states, events, j + 1, n, u, v);
  }

  // ---------------------------------------------------------------------------------------------
  // A history that is not careful
  // ---------------------------------------------------------------------------------------------

  lemma RegisterFirst(a: string)
    requires !IsDeathTest(a)
    ensures Register(EMPTY, a) == Schedule([a], 0, [0], [[]])
  {
  }

  lemma RegisterSecond(a: string, b: string)
    requires a != b && !IsDeathTest(b)
    ensures Register(Schedule([a], 0, [0], [[]]), b) == Schedule([a, b], 0, [0, 1], [[], []])
  {
    assert InsertedAt([a], 1, b) == [a, b];
  }

  lemma ShuffleTwo(a: string, b: string)
    requires a != b && !IsDeathTest(a) && !IsDeathTest(b)
    ensures var s, t := Schedule([a, b], 0, [0, 1], [[], []]), Schedule([a, b], 0, [1, 0], [[], []]);
            IsShuffleOf(s, t) && Sound(t)
  {
  }

  lemma RegisterThird(a: string, b: string, death: string)
    requires !IsDeathTest(a) && IsDeathTest(death) && !IsDeathTest(b)
    ensures var t := Schedule([death, a, b], 1, [1, 0, 2], [[], [], []]);
            Register(Schedule([a, b], 0, [1, 0], [[], []]), death) == t && !Sound(t)
  {
    assert InsertedAt([a, b], 0, death) == [death, a, b];
    assert InsertedAt<seq<nat>>([[], []], 0, []) == [[], [], []];
    assert [1, 0, 2][0] == 1;
  }

  lemma CarelessHistory(a: string, b: string, death: string)
    requires a != b && !IsDeathTest(a) && !IsDeathTest(b) && IsDeathTest(death)
    ensures var states := [EMPTY, Schedule([a], 0, [0], [[]]), Schedule([a, b], 0, [0, 1], [[], []]),
                           Schedule([a, b], 0, [1, 0], [[], []]),
                           Schedule([death, a, b], 1, [1, 0, 2], [[], [], []])];
            && IsHistory(states, [Registering(a), Registering(b), Shuffling, Registering(death)])
            && Sound(states[3]) && !Sound(states[4])
  {
    RegisterFirst(a);
    RegisterSecond(a, b);
    ShuffleTwo(a, b);
    RegisterThird(a, b, death);
  }

  /**
   Two cases that are no death tests are shuffled so that the second comes first; the death test
   that is registered then is visited between them.
   */
  lemma RegisteringAfterShuffleBreaks()
    ensures var states := [EMPTY, Schedule(["A"], 0, [0], [[]]), Schedule(["A", "B"], 0, [0, 1], [[], []]),
                           Schedule(["A", "B"], 0, [1, 0], [[], []]),
                           Schedule(["DeathTest", "A", "B"], 1, [1, 0, 2], [[], [], []])];
            && IsHistory(states, [Registering("A"), Registering("B"), Shuffling, Registering("DeathTest")])
            && Sound(states[3]) && !Sound(states[4])
  {
    DeathTestNames("A");
    DeathTestNames("B");
    DeathTestNames("DeathTest");
    assert "DeathTest"[0..] == "DeathTest";
    CarelessHistory("A", "B", "DeathTest");
  }
}
