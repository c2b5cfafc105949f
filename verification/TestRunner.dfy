/** The test runner's registry: it holds the test cases, shuffles their order and selects what runs. */
module TestRunner {
  import opened Wrappers
  import opened CStrings
  import opened Sequences
  import opened GlobFilter
  import opened TestSchedule
  import opened Sharding

  /** How a generator's state advances, and the number below `range` that a state yields. */
  datatype Generator = Generator(next: nat -> nat, draw: (nat, nat) -> nat)

  ghost predicate DrawsBelow(g: Generator) {
    forall state, range :: range > 0 ==> g.draw(state, range) < range
  }

  class Random {
    static const MAX_RANGE: nat := 0x8000_0000
    var state: nat

    constructor (seed: nat)
      ensures state == seed
    {
      state := seed;
    }

    method Generate(range: nat) returns (r: nat)
      requires 0 < range <= MAX_RANGE
      modifies this
      ensures state == Congruential().next(old(state)) && r == Congruential().draw(state, range) < range
    {
      state := (1103515245 * state + 12345) % 0x1_0000_0000 % MAX_RANGE;
      r := state % range;
    }
  }

  /** The linear congruential generator, on 32-bit unsigned numbers. */
  function Congruential(): (g: Generator)
    ensures DrawsBelow(g)
  {
    Generator((state: nat) => (1103515245 * state + 12345) % 0x1_0000_0000 % Random.MAX_RANGE,
              (state: nat, range: nat) => if range == 0 then 0 else state % range)
  }

  /** A vector of indices. */
  class Vector {
    var items: seq<nat>

    constructor ()
      ensures items == []
    {
      items := [];
    }
  }

  function Swap(s: seq<nat>, i: nat, j: nat): seq<nat>
    requires i < |s| && j < |s|
  {
    s[i := s[j]][j := s[i]]
  }

  lemma SwapPermutes(s: seq<nat>, i: nat, j: nat)
    requires i < |s| && j < |s|
    ensures multiset(Swap(s, i, j)) == multiset(s)
  {
  }

  /** `t` is `s` with the items from `begin` to `end` permuted. */
  ghost predicate PermutedWithin(s: seq<nat>, t: seq<nat>, begin: nat, end: nat) {
    && begin <= end <= |s| == |t|
    && t[..begin] == s[..begin] && t[end..] == s[end..]
    && multiset(t[begin..end]) == multiset(s[begin..end])
  }

  lemma SwapWithin(s: seq<nat>, i: nat, j: nat, begin: nat, end: nat)
    requires begin <= i < end <= |s| && begin <= j < end
    ensures PermutedWithin(s, Swap(s, i, j), begin, end)
  {
    SwapPermutes(s[begin..end], i - begin, j - begin);
    assert Swap(s, i, j)[begin..end] == Swap(s[begin..end], i - begin, j - begin);
  }

  lemma NothingPermuted(s: seq<nat>, begin: nat, end: nat)
    requires begin <= end <= |s|
    ensures PermutedWithin(s, s, begin, end)
  {
  }

  lemma SplitLast(s: seq<nat>, begin: nat, end: nat)
    requires begin < end <= |s|
    ensures s[end - 1..] == [s[end - 1]] + s[end..]
    ensures s[begin..end] == s[begin..end - 1] + [s[end - 1]]
  {
  }

  /** A permutation, followed by one of a range that is shorter by its last place. */
  lemma PermuteMore(s: seq<nat>, u: seq<nat>, t: seq<nat>, begin: nat, end: nat)
    requires begin < end && PermutedWithin(s, u, begin, end) && PermutedWithin(u, t, begin, end - 1)
    ensures PermutedWithin(s, t, begin, end)
  {
    SplitLast(t, begin, end);
    SplitLast(u, begin, end);
  }

  /** A vector's items and the generator's state. */
  datatype ShuffleState = ShuffleState(items: seq<nat>, state: nat)

  /** The last place of the range gets one of its items. */
  function ShuffleStep(g: Generator, s: ShuffleState, begin: nat, end: nat): (t: ShuffleState)
    requires DrawsBelow(g) && begin < end <= |s.items|
    ensures |t.items| == |s.items|
  {
    var next := g.next(s.state);
    ShuffleState(Swap(s.items, begin + g.draw(next, end - begin), end - 1), next)
  }

  /** Fisher and Yates: one step for the last place of the range, then the rest is shuffled. */
  function Shuffled(g: Generator, s: ShuffleState, begin: nat, end: nat): (t: ShuffleState)
    requires DrawsBelow(g) && begin <= end <= |s.items|
    ensures |t.items| == |s.items|
    decreases end
  {
    if end - begin < 2 then s else Shuffled(g, ShuffleStep(g, s, begin, end), begin, end - 1)
  }

  lemma StepPermutes(g: Generator, s: ShuffleState, begin: nat, end: nat)
    requires DrawsBelow(g) && begin < end <= |s.items|
    ensures PermutedWithin(s.items, ShuffleStep(g, s, begin, end).items, begin, end)
  {
    hide PermutedWithin;
    SwapWithin(s.items, begin + g.draw(g.next(s.state), end - begin), end - 1, begin, end);
  }

  /** A shuffle permutes its range and leaves the rest alone. */
  lemma {:induction false} ShuffledPermutes(g: Generator, s: ShuffleState, begin: nat, end: nat)
    requires DrawsBelow(g) && begin <= end <= |s.items|
    ensures PermutedWithin(s.items, Shuffled(g, s, begin, end).items, begin, end)
    decreases end
  {
    hide PermutedWithin, ShuffleStep;
    if end - begin < 2 {
      NothingPermuted(s.items, begin, end);
    } else {
      var next := ShuffleStep(g, s, begin, end);
      StepPermutes(g, s, begin, end);
      ShuffledPermutes(g, next, begin, end - 1);
      PermuteMore(s.items, next.items, Shuffled(g, next, begin, end - 1).items, begin, end);
    }
  }

  /** The generator's state after `n` draws. */
  function Advanced(g: Generator, state: nat, n: nat): nat
    decreases n
  {
    if n == 0 then state else Advanced(g, g.next(state), n - 1)
  }

  /** How many draws a shuffle of `width` items takes. */
  function Draws(width: nat): nat {
    if width < 2 then 0 else width - 1
  }

  lemma {:induction false} ShuffledDraws(g: Generator, s: ShuffleState, begin: nat, end: nat)
    requires DrawsBelow(g) && begin <= end <= |s.items|
    ensures Shuffled(g, s, begin, end).state == Advanced(g, s.state, Draws(end - begin))
    decreases end
  {
    if end - begin >= 2 {
      ShuffledDraws(g, ShuffleStep(g, s, begin, end), begin, end - 1);
    }
  }

  /** The first number drawn says which item goes to the end of the range. */
  lemma ShuffledLast(g: Generator, s: ShuffleState, begin: nat, end: nat)
    requires DrawsBelow(g) && begin <= end <= |s.items| && end - begin >= 2
    ensures Shuffled(g, s, begin, end).items[end - 1] == s.items[begin + g.draw(g.next(s.state), end - begin)]
  {
    var next := ShuffleStep(g, s, begin, end);
    var t := Shuffled(g, next, begin, end - 1).items;
    ShuffledPermutes(g, next, begin, end - 1);
    assert t[end - 1] == t[end - 1..][0] == next.items[end - 1..][0];
  }

  /** The generator that draws, from a range of `r` numbers, the number `choice(r)`. */
  function Choosing(choice: nat -> nat): Generator {
    Generator((state: nat) => state, (state: nat, range: nat) => choice(range))
  }

  ghost predicate ChoosesBelow(choice: nat -> nat) {
    forall r :: r > 0 ==> choice(r) < r
  }

  lemma ChoicesAreDraws(choice: nat -> nat)
    requires ChoosesBelow(choice)
    ensures DrawsBelow(Choosing(choice))
  {
  }

  lemma SameStep(f: nat -> nat, g: nat -> nat, s: ShuffleState, begin: nat, end: nat)
    requires ChoosesBelow(f) && ChoosesBelow(g) && begin < end <= |s.items| && f(end - begin) == g(end - begin)
    ensures ShuffleStep(Choosing(f), s, begin, end) == ShuffleStep(Choosing(g), s, begin, end)
  {
  }

  /** Only the choices for ranges up to the width matter. */
  lemma {:induction false} ChoicesThatMatter(f: nat -> nat, g: nat -> nat, s: ShuffleState, begin: nat, end: nat)
    requires ChoosesBelow(f) && ChoosesBelow(g) && begin <= end <= |s.items|
    requires forall r: nat :: r <= end - begin ==> f(r) == g(r)
    ensures Shuffled(Choosing(f), s, begin, end) == Shuffled(Choosing(g), s, begin, end)
    decreases end
  {
    hide ShuffleStep, ChoosesBelow, Choosing;
    ChoicesAreDraws(f);
    ChoicesAreDraws(g);
    if end - begin >= 2 {
      SameStep(f, g, s, begin, end);
      ChoicesThatMatter(f, g, ShuffleStep(Choosing(f), s, begin, end), begin, end - 1);
    }
  }

  /** Choosing `k` first, and then as `rest` says. */
  lemma ChooseFirst(rest: nat -> nat, s: ShuffleState, begin: nat, end: nat, k: nat) returns (choice: nat -> nat)
    requires ChoosesBelow(rest) && begin + 2 <= end <= |s.items| && k < end - begin
    ensures ChoosesBelow(choice)
    ensures var next := ShuffleState(Swap(s.items, begin + k, end - 1), s.state);
            Shuffled(Choosing(choice), s, begin, end) == Shuffled(Choosing(rest), next, begin, end - 1)
  {
    choice := (r: nat) => if r == end - begin then k else rest(r);
    var next := ShuffleState(Swap(s.items, begin + k, end - 1), s.state);
    assert ShuffleStep(Choosing(choice), s, begin, end) == next;
    ChoicesThatMatter(choice, rest, next, begin, end - 1);
  }

  lemma RangeOfPermutation(s: seq<nat>, t: seq<nat>, begin: nat, end: nat)
    requires PermutedWithin(s, t, begin, end)
    ensures begin <= end <= |s| == |t|
  {
  }

  lemma OnlyOneOrder(s: seq<nat>, t: seq<nat>, begin: nat, end: nat)
    requires PermutedWithin(s, t, begin, end) && end - begin < 2
    ensures s == t
  {
    assert s == s[..begin] + s[begin..end] + s[end..] && t == t[..begin] + t[begin..end] + t[end..];
    if end - begin == 1 {
      assert s[begin..end] == [s[begin]] && t[begin..end] == [t[begin]];
      assert s[begin] in multiset(t[begin..end]);
    }
  }

  /** Where the item that ends up last was. */
  lemma PlaceOf(s: seq<nat>, t: seq<nat>, begin: nat, end: nat) returns (k: nat)
    requires PermutedWithin(s, t, begin, end) && begin < end
    ensures k < end - begin && s[begin + k] == t[end - 1]
  {
    assert t[begin..end][end - 1 - begin] == t[end - 1];
    assert t[end - 1] in multiset(t[begin..end]);
    assert t[end - 1] in s[begin..end];
    k := IndexOf(s[begin..end], t[end - 1]);
  }

  lemma DropLast(a: seq<nat>, b: seq<nat>, x: nat)
    requires multiset(a + [x]) == multiset(b + [x])
    ensures multiset(a) == multiset(b)
  {
    assert multiset(a) == multiset(a + [x]) - multiset{x};
    assert multiset(b) == multiset(b + [x]) - multiset{x};
  }

  /** Two permutations of one range that agree on its last place permute the rest of each other. */
  lemma SameLast(s: seq<nat>, u: seq<nat>, t: seq<nat>, begin: nat, end: nat)
    requires begin < end && PermutedWithin(s, u, begin, end) && PermutedWithin(s, t, begin, end)
    requires u[end - 1] == t[end - 1]
    ensures PermutedWithin(u, t, begin, end - 1)
  {
    SplitLast(u, begin, end);
    SplitLast(t, begin, end);
    DropLast(u[begin..end - 1], t[begin..end - 1], t[end - 1]);
  }

  lemma SwapLast(s: seq<nat>, i: nat, j: nat)
    requires i < |s| && j < |s|
    ensures |Swap(s, i, j)| == |s| && Swap(s, i, j)[j] == s[i]
  {
  }

  lemma RestIsPermuted(s: seq<nat>, t: seq<nat>, begin: nat, end: nat, k: nat)
    requires PermutedWithin(s, t, begin, end) && k < end - begin && s[begin + k] == t[end - 1]
    ensures PermutedWithin(Swap(s, begin + k, end - 1), t, begin, end - 1)
  {
    hide PermutedWithin, Swap;
    RangeOfPermutation(s, t, begin, end);
    SwapLast(s, begin + k, end - 1);
    SwapWithin(s, begin + k, end - 1, begin, end);
    SameLast(s, Swap(s, begin + k, end - 1), t, begin, end);
  }

  /** Every permutation of the range is the result of some draws. */
  lemma {:induction false} EveryOrderIsReached(s: ShuffleState, t: seq<nat>, begin: nat, end: nat)
    returns (choice: nat -> nat)
    requires PermutedWithin(s.items, t, begin, end)
    ensures ChoosesBelow(choice) && begin <= end <= |s.items|
    ensures Shuffled(Choosing(choice), s, begin, end).items == t
    decreases end
  {
    hide PermutedWithin, ShuffleStep;
    RangeOfPermutation(s.items, t, begin, end);
    if end - begin < 2 {
      choice := (r: nat) => 0;
      OnlyOneOrder(s.items, t, begin, end);
    } else {
      var k := PlaceOf(s.items, t, begin, end);
      RestIsPermuted(s.items, t, begin, end, k);
      var rest := EveryOrderIsReached(ShuffleState(Swap(s.items, begin + k, end - 1), s.state), t, begin, end - 1);
      choice := ChooseFirst(rest, s, begin, end, k);
    }
  }

  method ShuffleRange(random: Random, begin: nat, end: nat, v: Vector)
    requires begin <= end <= |v.items| <= Random.MAX_RANGE
    modifies random, v
    ensures ShuffleState(v.items, random.state) ==
            Shuffled(Congruential(), old(ShuffleState(v.items, random.state)), begin, end)
  {
    ghost var g := Congruential();
    var width: nat := end - begin;
    while width >= 2
      invariant width <= end - begin && |v.items| == old(|v.items|)
      invariant Shuffled(g, ShuffleState(v.items, random.state), begin, begin + width) ==
                Shuffled(g, old(ShuffleState(v.items, random.state)), begin, end)
    {
      var last := begin + width - 1;
      var selected := random.Generate(width);
      selected := begin + selected;
      v.items := Swap(v.items, selected, last);
      width := width - 1;
    }
  }

  // ---------------------------------------------------------------------------------------------
  // Shuffling a whole schedule
  // ---------------------------------------------------------------------------------------------

  /** First the items before `split`, then the others. */
  function ShuffledBlocks(s: ShuffleState, split: nat): (t: ShuffleState)
    requires split <= |s.items|
    ensures |t.items| == |s.items|
  {
    Shuffled(Congruential(), Shuffled(Congruential(), s, 0, split), split, |s.items|)
  }

  lemma TwoBlocks(s: seq<nat>, between: seq<nat>, t: seq<nat>, split: nat)
    requires PermutedWithin(s, between, 0, split) && PermutedWithin(between, t, split, |s|)
    ensures BlocksPermuted(s, t, split)
  {
    assert between[0..split] == between[..split] && s[0..split] == s[..split];
    assert between[split..|t|] == between[split..] && t[split..|t|] == t[split..];
  }

  lemma BlocksPermute(s: ShuffleState, split: nat)
    requires split <= |s.items|
    ensures BlocksPermuted(s.items, ShuffledBlocks(s, split).items, split)
  {
    var g := Congruential();
    var between := Shuffled(g, s, 0, split);
    ShuffledPermutes(g, s, 0, split);
    ShuffledPermutes(g, between, split, |s.items|);
    TwoBlocks(s.items, between.items, ShuffledBlocks(s, split).items, split);
  }

  lemma BlocksKeepPermutation(s: ShuffleState, split: nat)
    requires split <= |s.items| && IsPermutation(s.items)
    ensures IsPermutation(ShuffledBlocks(s, split).items)
  {
    var t := ShuffledBlocks(s, split);
    BlocksPermute(s, split);
    JoinBlocks(s.items, t.items, split);
    PermutedIsPermutation(s.items, t.items);
  }

  /** The first `n` vectors, shuffled one after the other. */
  function ShuffledEach(inner: seq<seq<nat>>, state: nat, n: nat): (t: (seq<seq<nat>>, nat))
    requires n <= |inner|
    ensures |t.0| == |inner| && forall c :: n <= c < |inner| ==> t.0[c] == inner[c]
  {
    if n == 0 then (inner, state)
    else
      var (before, s) := ShuffledEach(inner, state, n - 1);
      var t := Shuffled(Congruential(), ShuffleState(before[n - 1], s), 0, |before[n - 1]|);
      (before[n - 1 := t.items], t.state)
  }

  lemma NoneShuffled(inner: seq<seq<nat>>, state: nat)
    ensures ShuffledEach(inner, state, 0) == (inner, state)
  {
  }

  lemma EachNext(inner: seq<seq<nat>>, state: nat, n: nat)
    requires n < |inner|
    ensures var (before, s) := ShuffledEach(inner, state, n);
            var t := Shuffled(Congruential(), ShuffleState(inner[n], s), 0, |inner[n]|);
            ShuffledEach(inner, state, n + 1) == (before[n := t.items], t.state)
  {
  }

  lemma WholePermutes(s: ShuffleState)
    ensures multiset(Shuffled(Congruential(), s, 0, |s.items|).items) == multiset(s.items)
  {
    ShuffledPermutes(Congruential(), s, 0, |s.items|);
    var t := Shuffled(Congruential(), s, 0, |s.items|).items;
    assert t[0..|t|] == t && s.items[0..|s.items|] == s.items;
  }

  lemma {:induction false} EachPermutes(inner: seq<seq<nat>>, state: nat, n: nat)
    requires n <= |inner|
    ensures InnerPermuted(inner, ShuffledEach(inner, state, n).0)
  {
    if n > 0 {
      EachPermutes(inner, state, n - 1);
      var (before, s) := ShuffledEach(inner, state, n - 1);
      WholePermutes(ShuffleState(before[n - 1], s));
    }
  }

  /** The death tests, then the other cases, then the tests of each case; and the generator's new state. */
  function ShuffledSchedule(s: Schedule, state: nat): (Schedule, nat)
    requires s.deaths <= |s.order|
  {
    var cases := ShuffledBlocks(ShuffleState(s.order, state), s.deaths);
    var (inner, state') := ShuffledEach(s.inner, cases.state, |s.inner|);
    (s.(order := cases.items, inner := inner), state')
  }

  lemma ShuffledScheduleIsShuffle(s: Schedule, state: nat)
    requires Registered(s)
    ensures IsShuffleOf(s, ShuffledSchedule(s, state).0)
    ensures Registered(ShuffledSchedule(s, state).0)
    ensures Sound(s) ==> Sound(ShuffledSchedule(s, state).0)
  {
    BlocksPermute(ShuffleState(s.order, state), s.deaths);
    EachPermutes(s.inner, ShuffledBlocks(ShuffleState(s.order, state), s.deaths).state, |s.inner|);
    ShuffleKeepsRegistered(s, ShuffledSchedule(s, state).0);
    if Sound(s) {
      ShuffleKeepsSound(s, ShuffledSchedule(s, state).0);
    }
  }

  /** How many draws it takes to shuffle the first `n` vectors one after the other. */
  function DrawsOfEach(inner: seq<seq<nat>>, n: nat): nat
    requires n <= |inner|
  {
    if n == 0 then 0 else DrawsOfEach(inner, n - 1) + Draws(|inner[n - 1]|)
  }

  lemma {:induction false} AdvancedTwice(g: Generator, state: nat, m: nat, n: nat)
    ensures Advanced(g, Advanced(g, state, m), n) == Advanced(g, state, m + n)
    decreases m
  {
    if m > 0 {
      AdvancedTwice(g, g.next(state), m - 1, n);
    }
  }

  lemma NoDraw(g: Generator, state: nat)
    ensures Advanced(g, state, 0) == state
  {
  }

  lemma {:induction false} EachDraws(inner: seq<seq<nat>>, state: nat, n: nat)
    requires n <= |inner|
    ensures ShuffledEach(inner, state, n).1 == Advanced(Congruential(), state, DrawsOfEach(inner, n))
  {
    hide Shuffled, Congruential, Advanced;
    if n == 0 {
      NoDraw(Congruential(), state);
    } else {
      EachDraws(inner, state, n - 1);
      EachNext(inner, state, n - 1);
      var before := ShuffledEach(inner, state, n - 1);
      ShuffledDraws(Congruential(), ShuffleState(inner[n - 1], before.1), 0, |inner[n - 1]|);
      AdvancedTwice(Congruential(), state, DrawsOfEach(inner, n - 1), Draws(|inner[n - 1]|));
    }
  }

  /** Every block and every case with at least two places takes part: this is how far the generator moves. */
  lemma ShuffledScheduleDraws(s: Schedule, state: nat)
    requires s.deaths <= |s.order|
    ensures ShuffledSchedule(s, state).1 ==
            Advanced(Congruential(), state,
                     Draws(s.deaths) + Draws(|s.order| - s.deaths) + DrawsOfEach(s.inner, |s.inner|))
  {
    hide Shuffled, Congruential, Advanced, ShuffledEach;
    var g, n, items := Congruential(), |s.order|, ShuffleState(s.order, state);
    var deaths := Shuffled(g, items, 0, s.deaths);
    ShuffledDraws(g, items, 0, s.deaths);
    ShuffledDraws(g, deaths, s.deaths, n);
    AdvancedTwice(g, state, Draws(s.deaths), Draws(n - s.deaths));
    EachDraws(s.inner, ShuffledBlocks(items, s.deaths).state, |s.inner|);
    AdvancedTwice(g, state, Draws(s.deaths) + Draws(n - s.deaths), DrawsOfEach(s.inner, |s.inner|));
  }

  /** The generator's first numbers for the seed 1. */
  lemma SeedOneNumbers()
    ensures Congruential().next(1) == 1103527590 && Congruential().next(1103527590) == 377401575
    ensures Congruential().draw(1103527590, 2) == 0 && Congruential().draw(1103527590, 7) == 4
    ensures Congruential().draw(377401575, 10) == 5
  {
    hide DrawsBelow;
  }

  lemma OneSwap(g: Generator, items: seq<nat>, state: nat)
    requires DrawsBelow(g) && |items| == 2 && g.draw(g.next(state), 2) == 0
    ensures Shuffled(g, ShuffleState(items, state), 0, 2) == ShuffleState([items[1], items[0]], g.next(state))
  {
    assert Swap(items, 0, 1) == [items[1], items[0]];
  }

  /** With the seed 1 a shuffle of two items swaps them. */
  lemma SeedOneSwapsTwo()
    ensures Shuffled(Congruential(), ShuffleState([0, 1], 1), 0, 2) == ShuffleState([1, 0], 1103527590)
  {
    hide Shuffled;
    SeedOneNumbers();
    OneSwap(Congruential(), [0, 1], 1);
  }

  // ---------------------------------------------------------------------------------------------
  // Tests and test cases
  // ---------------------------------------------------------------------------------------------

  method ResetIndices(v: Vector)
    modifies v
    ensures v.items == Identity(old(|v.items|))
  {
    for i := 0 to |v.items|
      invariant |v.items| == old(|v.items|)
      invariant forall j :: 0 <= j < i ==> v.items[j] == j
    {
      v.items := v.items[i := i];
    }
  }

  class TestInfo {
    const name: CString
    var isDisabled: bool
    var matchesFilter: bool
    var shouldRun: bool

    constructor (name: CString)
      ensures this.name == name
    {
      this.name := name;
      isDisabled, matchesFilter, shouldRun := false, false, false;
    }
  }

  class TestCase {
    const name: CString
    const order: Vector
    var tests: seq<TestInfo>
    var shouldRun: bool

    /** One index slot for each test, holding each index once. */
    ghost predicate Valid()
      reads this, order
    {
      |order.items| == |tests| && IsPermutation(order.items)
    }

    constructor (name: CString)
      ensures Valid() && this.name == name && tests == [] && fresh(order)
    {
      this.name, tests, shouldRun := name, [], false;
      order := new Vector();
    }

    method AddTestInfo(test: TestInfo)
      requires Valid()
      modifies this`tests, order
      ensures Valid() && tests == old(tests) + [test]
      ensures order.items == old(order.items) + [|old(order.items)|]
    {
      tests := tests + [test];
      order.items := order.items + [|order.items|];
    }

    method ShuffleTests(random: Random)
      requires Valid() && |tests| <= Random.MAX_RANGE
      modifies order, random
      ensures Valid()
      ensures ShuffleState(order.items, random.state) ==
              Shuffled(Congruential(), old(ShuffleState(order.items, random.state)), 0, old(|order.items|))
    {
      ghost var before := ShuffleState(order.items, random.state);
      ShuffleRange(random, 0, |order.items|, order);
      WholePermutes(before);
      PermutedIsPermutation(before.items, order.items);
    }

    method UnshuffleTests()
      requires Valid()
      modifies order
      ensures Valid() && order.items == Identity(old(|order.items|))
    {
      ResetIndices(order);
    }

    /** The indices of the tests that run: those marked, in a case that is marked. */
    ghost function ToRun(): set<nat>
      reads this, tests
    {
      set j: nat | j < |tests| && shouldRun && tests[j].shouldRun
    }

    /** Runs the marked tests in the order of their slots, and lists their indices. */
    method Run() returns (ran: seq<nat>)
      requires Valid()
      ensures ran == Filter(Among(ToRun()), order.items)
      ensures forall k: nat :: k in ran <==> shouldRun && k < |tests| && tests[k].shouldRun
    {
      PermutationIsOnto(order.items);
      FilterMembers(Among(ToRun()), order.items);
      ran := [];
      if !shouldRun {
        FilterNone(Among(ToRun()), order.items);
        return;
      }
      for i := 0 to |order.items|
        invariant ran == Filter(Among(ToRun()), order.items[..i])
      {
        FilterOneMore(Among(ToRun()), order.items, i);
        var j := order.items[i];
        if tests[j].shouldRun {
          ran := ran + [j];
        }
      }
      assert order.items[..|order.items|] == order.items;
    }
  }

  function CaseNameList(cases: seq<TestCase>): seq<string> {
    seq(|cases|, i requires 0 <= i < |cases| => cases[i].name)
  }

  ghost function Orders(cases: seq<TestCase>): set<Vector> {
    set c | c in cases :: c.order
  }

  /** For each case the order of its tests. */
  ghost function OrderList(cases: seq<TestCase>): (orders: seq<seq<nat>>)
    reads Orders(cases)
  {
    seq(|cases|, i requires 0 <= i < |cases| reads Orders(cases) => cases[i].order.items)
  }

  lemma InsertedNames(cases: seq<TestCase>, r: TestCase, at: nat)
    requires at <= |cases|
    ensures CaseNameList(InsertedAt(cases, at, r)) == InsertedAt(CaseNameList(cases), at, r.name)
  {
  }

  lemma InsertedOrders(cases: seq<TestCase>, r: TestCase, at: nat)
    requires at <= |cases| && r.order.items == []
    ensures OrderList(InsertedAt(cases, at, r)) == InsertedAt(OrderList(cases), at, [])
  {
    InsertedAtIndex(cases, at, r);
    InsertedAtIndex(OrderList(cases), at, []);
  }

  lemma InsertedMembers(cases: seq<TestCase>, r: TestCase, at: nat)
    requires at <= |cases|
    ensures forall c :: c in InsertedAt(cases, at, r) <==> c in cases || c == r
    ensures NoDuplicates(cases) && r !in cases ==> NoDuplicates(InsertedAt(cases, at, r))
  {
    InsertedAtIndex(cases, at, r);
    forall c | c in cases ensures c in InsertedAt(cases, at, r) {
      var i := IndexOf(cases, c);
      assert InsertedAt(cases, at, r)[if i < at then i else i + 1] == c;
    }
  }

  /** The tests of each case, one case after the other. */
  method ShuffleInner(random: Random, cases: seq<TestCase>, order: Vector)
    requires NoDuplicates(cases) && forall c, d :: c in cases && d in cases && c != d ==> c.order != d.order
    requires forall c :: c in cases ==> c.Valid() && c.order != order && |c.tests| <= Random.MAX_RANGE
    modifies random, Orders(cases)
    ensures (OrderList(cases), random.state) == ShuffledEach(old(OrderList(cases)), old(random.state), |cases|)
    ensures order.items == old(order.items) && forall c :: c in cases ==> c.Valid()
  {
    hide IsPermutation, Shuffled, ShuffledEach, Congruential;
    NoneShuffled(OrderList(cases), random.state);
    ghost var inner, state := OrderList(cases), random.state;
    for i := 0 to |cases|
      invariant (OrderList(cases), random.state) == ShuffledEach(inner, state, i)
      invariant order.items == old(order.items) && forall c :: c in cases ==> c.Valid()
    {
      ghost var orders := OrderList(cases);
      EachNext(inner, state, i);
      assert cases[i] in cases;
      cases[i].ShuffleTests(random);
      assert OrderList(cases) == orders[i := cases[i].order.items];
    }
  }

  // ---------------------------------------------------------------------------------------------
  // Filtering
  // ---------------------------------------------------------------------------------------------

  /** The tests of each case. */
  ghost function TestLists(cases: seq<TestCase>): (lists: seq<seq<TestInfo>>)
    reads cases`tests
    ensures |lists| == |cases| && forall i :: 0 <= i < |cases| ==> lists[i] == cases[i].tests
  {
    if cases == [] then []
    else
      var n := |cases| - 1;
      TestLists(cases[..n]) + [cases[n].tests]
  }

  ghost function AllTests(lists: seq<seq<TestInfo>>): set<TestInfo> {
    set i, j | 0 <= i < |lists| && 0 <= j < |lists[i]| :: lists[i][j]
  }

  ghost predicate Disjoint(a: seq<TestInfo>, b: seq<TestInfo>) {
    forall j, k :: 0 <= j < |a| && 0 <= k < |b| ==> a[j] != b[k]
  }

  /** No test belongs to two cases, or twice to one. */
  ghost predicate TestsApart(cases: seq<TestCase>, lists: seq<seq<TestInfo>>) {
    && |cases| == |lists|
    && (forall i, j :: 0 <= i < j < |cases| ==> cases[i] != cases[j])
    && (forall i, j :: 0 <= i < j < |lists| ==> Disjoint(lists[i], lists[j]))
    && (forall i :: 0 <= i < |lists| ==> NoDuplicates(lists[i]))
  }

  /** `row` says which of the first tests of a case are runnable. */
  ghost predicate IsRow(o: Options, name: CString, tests: seq<TestInfo>, row: seq<bool>) {
    && |row| <= |tests|
    && forall j {:trigger tests[j]} :: 0 <= j < |row| ==> row[j] == Runnable(o, MarkOf(o, name, tests[j].name))
  }

  lemma RowAt(o: Options, name: CString, tests: seq<TestInfo>, row: seq<bool>, j: nat)
    requires IsRow(o, name, tests, row) && j < |row|
    ensures j < |tests| && row[j] == Runnable(o, MarkOf(o, name, tests[j].name))
  {
    var _ := tests[j];
  }

  ghost function RowUpTo(o: Options, name: CString, tests: seq<TestInfo>, n: nat): (row: seq<bool>)
    requires n <= |tests|
    ensures |row| == n && IsRow(o, name, tests, row)
  {
    if n == 0 then []
    else RowUpTo(o, name, tests, n - 1) + [Runnable(o, MarkOf(o, name, tests[n - 1].name))]
  }

  /** Which tests of the first `n` cases are runnable. Only the names matter. */
  ghost function RowsUpTo(o: Options, cases: seq<TestCase>, lists: seq<seq<TestInfo>>, n: nat)
    : (rows: seq<seq<bool>>)
    requires n <= |cases| == |lists|
    ensures |rows| == n
    ensures forall i {:trigger rows[i]} {:trigger lists[i]} :: 0 <= i < n ==>
              |rows[i]| == |lists[i]| && IsRow(o, cases[i].name, lists[i], rows[i])
  {
    if n == 0 then []
    else RowsUpTo(o, cases, lists, n - 1) + [RowUpTo(o, cases[n - 1].name, lists[n - 1], |lists[n - 1]|)]
  }

  ghost function Rows(o: Options, cases: seq<TestCase>, lists: seq<seq<TestInfo>>): seq<seq<bool>>
    requires |cases| == |lists|
  {
    RowsUpTo(o, cases, lists, |cases|)
  }

  ghost predicate TestMarked(test: TestInfo, m: Mark, chosen: bool)
    reads test
  {
    test.shouldRun == chosen && m == Mark(test.isDisabled, test.matchesFilter)
  }

  /** The tests are marked as the filter says and as chosen, and the case if one of its tests is chosen. */
  ghost predicate CaseMarked(o: Options, c: TestCase, tests: seq<TestInfo>, chosen: seq<bool>)
    reads c`shouldRun, tests
  {
    && |chosen| == |tests|
    && (forall j :: 0 <= j < |tests| ==> TestMarked(tests[j], MarkOf(o, c.name, tests[j].name), chosen[j]))
    && (c.shouldRun <==> exists j :: 0 <= j < |tests| && chosen[j])
  }

  /** Marks one test, whose number among the runnable tests is `number`. */
  method FilterTest(o: Options, picks: nat -> bool, caseName: CString, test: TestInfo, number: nat)
    returns (isRunnable: bool, isSelected: bool)
        modifies test
    ensures isRunnable == Runnable(o, MarkOf(o, caseName, test.name)) && isSelected == (isRunnable && picks(number))
    ensures TestMarked(test, MarkOf(o, caseName, test.name), isSelected)
  {
    var caseDisabled := MatchesFilter(caseName, DISABLE_TEST_FILTER);
    var testDisabled := MatchesFilter(test.name, DISABLE_TEST_FILTER);
    test.isDisabled := caseDisabled || testDisabled;
    var matchesFilter := FilterMatchesTest(o.filter, caseName, test.name);
    test.matchesFilter := matchesFilter;
    assert Mark(test.isDisabled, test.matchesFilter) == MarkOf(o, caseName, test.name);
    isRunnable := (o.alsoRunDisabled || !test.isDisabled) && test.matchesFilter;
    isSelected := isRunnable && picks(number);
    test.shouldRun := isSelected;
  }

  /** The inner loop: one test case, given how many tests were runnable and selected before it. */
  method FilterCase(o: Options, picks: nat -> bool, c: TestCase, ghost row: seq<bool>,
                    runnable: nat, selected: nat)
    returns (runnable': nat, selected': nat)
    requires NoDuplicates(c.tests)
    requires |row| == |c.tests| && IsRow(o, c.name, c.tests, row)
    modifies c`shouldRun, c.tests
    ensures var chosen := ChosenRow(row, picks, runnable);
            && runnable' == runnable + CountIn(row, |row|)
            && selected' == selected + CountIn(chosen, |chosen|)
            && CaseMarked(o, c, c.tests, chosen)
  {
    hide MarkOf, TestMarked, IsRow, ChosenRow;
    ghost var chosen := ChosenRow(row, picks, runnable);
    runnable', selected' := runnable, selected;
    var tests := c.tests;
    c.shouldRun := false;
    for j := 0 to |tests|
      invariant runnable' == runnable + CountIn(row, j) && selected' == selected + CountIn(chosen, j)
      invariant forall k :: 0 <= k < j ==> TestMarked(tests[k], MarkOf(o, c.name, tests[k].name), chosen[k])
      invariant c.shouldRun <==> exists k :: 0 <= k < j && chosen[k]
    {
      RowAt(o, c.name, tests, row, j);
      ChosenAt(row, picks, runnable, j);
      var isRunnable, isSelected := FilterTest(o, picks, c.name, tests[j], runnable');
      runnable' := runnable' + One(isRunnable);
      selected' := selected' + One(isSelected);
      c.shouldRun := c.shouldRun || isSelected;
    }
  }

  /** One round of the outer loop: marks case `i` and leaves the cases before it as they are. */
  method FilterNext(o: Options, picks: nat -> bool, cases: seq<TestCase>, i: nat, c: TestCase,
                    ghost lists: seq<seq<TestInfo>>, ghost rows: seq<seq<bool>>, ghost chosen: seq<seq<bool>>,
                    runnable: nat, selected: nat)
    returns (runnable': nat, selected': nat)
    requires TestsApart(cases, lists) && i < |cases| == |rows| == |chosen| && c == cases[i] && c.tests == lists[i]
    requires |rows[i]| == |c.tests| && IsRow(o, c.name, c.tests, rows[i])
    requires chosen[i] == Chosen(rows, picks, i) && Counted(rows, picks, i, runnable, selected)
    requires forall j :: 0 <= j < i ==> CaseMarked(o, cases[j], lists[j], chosen[j])
    modifies c`shouldRun, c.tests
    ensures Counted(rows, picks, i + 1, runnable', selected')
    ensures forall j :: 0 <= j < i + 1 ==> CaseMarked(o, cases[j], lists[j], chosen[j])
  {
    assert forall j :: 0 <= j < i ==> cases[j] != c && Disjoint(lists[j], lists[i]);
    CountedNext(rows, picks, i, runnable, selected);
    runnable', selected' := FilterCase(o, picks, c, rows[i], runnable, selected);
  }

  /** The outer loop. */
  method FilterCases(o: Options, picks: nat -> bool, cases: seq<TestCase>,
                     ghost lists: seq<seq<TestInfo>>, ghost rows: seq<seq<bool>>, ghost chosen: seq<seq<bool>>)
    returns (selected: nat)
    requires TestsApart(cases, lists) && |rows| == |chosen| == |cases|
    requires forall i :: 0 <= i < |cases| ==> cases[i].tests == lists[i]
    requires forall i {:trigger rows[i]} {:trigger lists[i]} :: 0 <= i < |cases| ==>
               |rows[i]| == |lists[i]| && IsRow(o, cases[i].name, lists[i], rows[i])
    requires forall i {:trigger chosen[i]} :: 0 <= i < |cases| ==> chosen[i] == Chosen(rows, picks, i)
    modifies cases`shouldRun, AllTests(lists)
    ensures selected == Selected(rows, picks)
    ensures forall i :: 0 <= i < |cases| ==> CaseMarked(o, cases[i], lists[i], chosen[i])
  {
    hide MarkOf, IsRow, CaseMarked, Chosen, Disjoint;
    var runnable := 0;
    selected := 0;
    for i := 0 to |cases|
      invariant Counted(rows, picks, i, runnable, selected)
      invariant forall j :: 0 <= j < i ==> CaseMarked(o, cases[j], lists[j], chosen[j])
    {
      assert forall t :: t in cases[i].tests ==> t in AllTests(lists);
      runnable, selected := FilterNext(o, picks, cases, i, cases[i], lists, rows, chosen, runnable, selected);
    }
  }

  /** Marks what the filter and `picks` select, and returns how many tests that are. */
  method FilterWith(o: Options, picks: nat -> bool, cases: seq<TestCase>) returns (selected: nat)
    requires TestsApart(cases, TestLists(cases))
    modifies cases`shouldRun, AllTests(TestLists(cases))
    ensures var rows := Rows(o, cases, TestLists(cases));
            && selected == Selected(rows, picks)
            && forall i :: 0 <= i < |cases| ==> CaseMarked(o, cases[i], cases[i].tests, Chosen(rows, picks, i))
  {
    ghost var lists := TestLists(cases);
    ghost var rows := Rows(o, cases, lists);
    ghost var chosen := ChosenRows(rows, picks);
    selected := FilterCases(o, picks, cases, lists, rows, chosen);
  }

  // ---------------------------------------------------------------------------------------------
  // What the marks mean
  // ---------------------------------------------------------------------------------------------

  ghost predicate NamedDisabled(caseName: CString, testName: CString) {
    StartsOrHasDisabled(caseName) || StartsOrHasDisabled(testName)
  }

  /** The filter admits the test, and it is not disabled or disabled tests run as well. */
  ghost predicate MayRun(o: Options, caseName: CString, testName: CString) {
    Selects(o.filter, caseName + "." + testName) && (o.alsoRunDisabled || !NamedDisabled(caseName, testName))
  }

  lemma MarkSays(o: Options, caseName: CString, testName: CString)
    ensures MarkOf(o, caseName, testName) ==
            Mark(NamedDisabled(caseName, testName), Selects(o.filter, caseName + "." + testName))
  {
    hide IsDisabledName, StartsOrHasDisabled, Selects;
    DisabledNames(caseName);
    DisabledNames(testName);
  }

  /** A test is runnable exactly when it may run by the names of its case and its own. */
  lemma RowsSay(o: Options, cases: seq<TestCase>, lists: seq<seq<TestInfo>>, i: nat, j: nat)
    requires i < |cases| == |lists| && j < |lists[i]|
    ensures var rows := Rows(o, cases, lists);
            && |rows| == |cases| && |rows[i]| == |lists[i]|
            && (rows[i][j] <==> MayRun(o, cases[i].name, lists[i][j].name))
  {
    hide MarkOf, Selects, NamedDisabled, IsRow;
    MarkSays(o, cases[i].name, lists[i][j].name);
    RowAt(o, cases[i].name, lists[i], Rows(o, cases, lists)[i], j);
  }

  /** What the marks of a test say after filtering, by the names of its case and its own. */
  ghost predicate MarksSay(o: Options, caseName: CString, test: TestInfo)
    reads test
  {
    && (test.isDisabled <==> NamedDisabled(caseName, test.name))
    && (test.matchesFilter <==> Selects(o.filter, caseName + "." + test.name))
  }

  /** The names decide what is disabled and admitted and, when nothing is left to other shards, what runs. */
  ghost predicate NamesDecide(o: Options, c: TestCase, everything: bool)
    reads c, c.tests
  {
    forall test :: test in c.tests ==>
      && MarksSay(o, c.name, test)
      && (everything ==> (test.shouldRun <==> MayRun(o, c.name, test.name)))
  }

  lemma CaseMarksSay(o: Options, c: TestCase, chosen: seq<bool>)
    requires CaseMarked(o, c, c.tests, chosen)
    ensures forall j :: 0 <= j < |c.tests| ==> MarksSay(o, c.name, c.tests[j]) && c.tests[j].shouldRun == chosen[j]
  {
    hide MarkOf, NamedDisabled, Selects;
    forall j | 0 <= j < |c.tests| ensures MarksSay(o, c.name, c.tests[j]) && c.tests[j].shouldRun == chosen[j] {
      assert TestMarked(c.tests[j], MarkOf(o, c.name, c.tests[j].name), chosen[j]);
      MarkSays(o, c.name, c.tests[j].name);
    }
  }

  lemma EverythingIsChosen(row: seq<bool>, start: nat)
    ensures ChosenRow(row, Picks(Everything), start) == row
  {
  }

  ghost predicate RowSays(o: Options, name: CString, tests: seq<TestInfo>, row: seq<bool>) {
    |row| == |tests| && forall j :: 0 <= j < |row| ==> (row[j] <==> MayRun(o, name, tests[j].name))
  }

  lemma AllRowsSay(o: Options, cases: seq<TestCase>, lists: seq<seq<TestInfo>>, i: nat)
    requires i < |cases| == |lists|
    ensures |Rows(o, cases, lists)| == |cases| && RowSays(o, cases[i].name, lists[i], Rows(o, cases, lists)[i])
  {
    hide MarkOf, MayRun, IsRow;
    forall j | 0 <= j < |lists[i]| ensures Rows(o, cases, lists)[i][j] <==> MayRun(o, cases[i].name, lists[i][j].name) {
      RowsSay(o, cases, lists, i, j);
    }
  }

  lemma CaseIsDecided(o: Options, c: TestCase, row: seq<bool>, start: nat, shard: Shard)
    requires IsShard(shard) && RowSays(o, c.name, c.tests, row)
    requires CaseMarked(o, c, c.tests, ChosenRow(row, Picks(shard), start))
    ensures NamesDecide(o, c, shard.Everything?)
  {
    hide CaseMarked, MarksSay, MayRun, ChosenRow;
    CaseMarksSay(o, c, ChosenRow(row, Picks(shard), start));
    EverythingIsChosen(row, start);
    forall test | test in c.tests
      ensures MarksSay(o, c.name, test)
      ensures shard.Everything? ==> (test.shouldRun <==> MayRun(o, c.name, test.name))
    {
      assert c.tests[IndexOf(c.tests, test)] == test;
    }
  }

  lemma CasesAreDecided(o: Options, cases: seq<TestCase>, lists: seq<seq<TestInfo>>, shard: Shard)
    requires IsShard(shard) && |lists| == |cases| && forall i :: 0 <= i < |cases| ==> lists[i] == cases[i].tests
    requires forall i :: 0 <= i < |cases| ==>
               CaseMarked(o, cases[i], cases[i].tests, Chosen(Rows(o, cases, lists), Picks(shard), i))
    ensures forall c :: c in cases ==> NamesDecide(o, c, shard.Everything?)
  {
    hide CaseMarked, NamesDecide, RowSays, ChosenRow, RowsUpTo, CountBefore;
    var rows := Rows(o, cases, lists);
    forall c | c in cases ensures NamesDecide(o, c, shard.Everything?) {
      var i := IndexOf(cases, c);
      AllRowsSay(o, cases, lists, i);
      CaseIsDecided(o, c, rows[i], CountBefore(rows, i), shard);
    }
  }

  /** The chosen tests of the first `n` tests of case `c`. */
  ghost function ChosenOf(c: nat, chosen: seq<bool>, n: nat): set<Visit>
    requires n <= |chosen|
  {
    set j: nat | j < n && chosen[j] :: Visit(c, j)
  }

  lemma {:induction false} ChosenOfCounts(c: nat, chosen: seq<bool>, n: nat)
    requires n <= |chosen|
    ensures |ChosenOf(c, chosen, n)| == CountIn(chosen, n)
  {
    if n > 0 {
      ChosenOfCounts(c, chosen, n - 1);
      if chosen[n - 1] {
        assert ChosenOf(c, chosen, n) == ChosenOf(c, chosen, n - 1) + {Visit(c, n - 1)};
      } else {
        assert ChosenOf(c, chosen, n) == ChosenOf(c, chosen, n - 1);
      }
    }
  }

  /** The chosen tests of the first `n` cases. */
  ghost function ChosenVisits(chosen: seq<seq<bool>>, n: nat): set<Visit>
    requires n <= |chosen|
  {
    if n == 0 then {} else ChosenVisits(chosen, n - 1) + ChosenOf(n - 1, chosen[n - 1], |chosen[n - 1]|)
  }

  lemma {:induction false} ChosenVisitsMembers(chosen: seq<seq<bool>>, n: nat)
    requires n <= |chosen|
    ensures forall v :: v in ChosenVisits(chosen, n) <==>
              v.testCase < n && v.test < |chosen[v.testCase]| && chosen[v.testCase][v.test]
  {
    if n > 0 {
      ChosenVisitsMembers(chosen, n - 1);
    }
  }

  lemma ApartFromNext(chosen: seq<seq<bool>>, n: nat, next: seq<bool>)
    requires n <= |chosen|
    ensures ChosenVisits(chosen, n) !! ChosenOf(n, next, |next|)
  {
    ChosenVisitsMembers(chosen, n);
  }

  lemma UnionCount<T>(a: set<T>, b: set<T>)
    requires a !! b
    ensures |a + b| == |a| + |b|
  {
  }

  lemma {:induction false} ChosenVisitsCount(chosen: seq<seq<bool>>, n: nat)
    requires n <= |chosen|
    ensures |ChosenVisits(chosen, n)| == CountBefore(chosen, n)
  {
    hide CountIn, ChosenOf;
    if n > 0 {
      ChosenVisitsCount(chosen, n - 1);
      ChosenOfCounts(n - 1, chosen[n - 1], |chosen[n - 1]|);
      ApartFromNext(chosen, n - 1, chosen[n - 1]);
      UnionCount(ChosenVisits(chosen, n - 1), ChosenOf(n - 1, chosen[n - 1], |chosen[n - 1]|));
    }
  }

  lemma {:induction false} SelectedIsCount(rows: seq<seq<bool>>, picks: nat -> bool, chosen: seq<seq<bool>>, n: nat)
    requires n <= |rows| == |chosen| && forall i :: 0 <= i < n ==> chosen[i] == Chosen(rows, picks, i)
    ensures SelectedBefore(rows, picks, n) == CountBefore(chosen, n)
  {
    hide CountIn, ChosenRow;
    if n > 0 {
      SelectedIsCount(rows, picks, chosen, n - 1);
    }
  }

  /** The number that filtering returns is the number of the chosen tests. */
  lemma SelectedIsCardinality(rows: seq<seq<bool>>, picks: nat -> bool, chosen: seq<seq<bool>>)
    requires |rows| == |chosen| && forall i :: 0 <= i < |rows| ==> chosen[i] == Chosen(rows, picks, i)
    ensures |ChosenVisits(chosen, |chosen|)| == Selected(rows, picks)
  {
    hide CountIn, Chosen, ChosenVisits, CountBefore;
    SelectedIsCount(rows, picks, chosen, |rows|);
    ChosenVisitsCount(chosen, |chosen|);
  }

  // ---------------------------------------------------------------------------------------------
  // Running
  // ---------------------------------------------------------------------------------------------

  lemma {:induction false} RunsOfCase(all: set<Visit>, mine: set<nat>, c: nat, inner: seq<nat>)
    requires forall k :: k in inner ==> (Visit(c, k) in all <==> k in mine)
    ensures Filter(Among(all), CaseVisits(c, inner)) == CaseVisits(c, Filter(Among(mine), inner))
  {
    if inner != [] {
      RunsOfCase(all, mine, c, inner[1..]);
      assert CaseVisits(c, inner)[1..] == CaseVisits(c, inner[1..]);
    }
  }

  /** `mine` are the tests of case `c` among `all`. */
  ghost predicate IsPart(all: set<Visit>, c: nat, mine: set<nat>) {
    forall k: nat :: Visit(c, k) in all <==> k in mine
  }

  lemma SlotsInRange(s: Schedule)
    requires Registered(s)
    ensures forall j :: 0 <= j < |s.order| ==> s.order[j] < |s.inner|
  {
  }

  lemma NoSlots(all: set<Visit>, order: seq<nat>, inner: seq<seq<nat>>)
    requires forall j :: 0 <= j < |order| ==> order[j] < |inner|
    ensures Filter(Among(all), VisitsUpTo(order, inner, 0)) == []
  {
  }

  lemma RunsOfSlot(all: set<Visit>, mine: set<nat>, order: seq<nat>, inner: seq<seq<nat>>, i: nat)
    requires i < |order| && forall j :: 0 <= j < |order| ==> order[j] < |inner|
    requires IsPart(all, order[i], mine)
    ensures Filter(Among(all), VisitsUpTo(order, inner, i + 1)) ==
            Filter(Among(all), VisitsUpTo(order, inner, i)) + CaseVisits(order[i], Filter(Among(mine), inner[order[i]]))
  {
    RunsOfCase(all, mine, order[i], inner[order[i]]);
    FilterConcat(Among(all), VisitsUpTo(order, inner, i), CaseVisits(order[i], inner[order[i]]));
  }

  // ---------------------------------------------------------------------------------------------
  // The registry
  // ---------------------------------------------------------------------------------------------

  class UnitTest {
    var cases: seq<TestCase>
    const order: Vector
    var lastDeathTestCase: int
    const random: Random

    /** The vectors are apart, so that shuffling one leaves the others alone. */
    ghost predicate Apart()
      reads this
    {
      && NoDuplicates(cases)
      && (forall c :: c in cases ==> c.order != order)
      && (forall c, d :: c in cases && d in cases && c != d ==> c.order != d.order)
    }

    ghost predicate Valid()
      reads this, order, cases, Orders(cases)
    {
      && -1 <= lastDeathTestCase < |cases| == |order.items|
      && Apart()
      && NamesInOrder(CaseNameList(cases), lastDeathTestCase + 1)
      && IsPermutation(order.items)
      && forall c :: c in cases ==> c.Valid()
    }

    ghost function View(): Schedule
      requires -1 <= lastDeathTestCase
      reads this, order, Orders(cases)
    {
      Schedule(CaseNameList(cases), lastDeathTestCase + 1, order.items, OrderList(cases))
    }

    constructor (seed: nat)
      ensures Valid() && fresh(order) && fresh(random) && View() == EMPTY
    {
      cases, lastDeathTestCase := [], -1;
      order := new Vector();
      random := new Random(seed);
    }

    method FindCase(name: CString) returns (r: Option<TestCase>)
      requires Valid()
      ensures r.Some? <==> name in View().names
      ensures r.Some? ==> r.value in cases && r.value.name == name
    {
      for i := 0 to |cases|
        invariant forall j :: 0 <= j < i ==> cases[j].name != name
      {
        if cases[i].name == name {
          assert View().names[i] == name;
          return Some(cases[i]);
        }
      }
      return None;
    }

    /** A death test goes behind the last one so far; the new index is always appended. */
    method AddCase(r: TestCase, isDeathTest: bool)
      requires Valid() && r.Valid() && r.tests == [] && r.name !in View().names
      requires isDeathTest <==> IsDeathTest(r.name)
      requires r.order != order && forall c :: c in cases ==> c != r && c.order != r.order
      modifies this`cases, this`lastDeathTestCase, order
      ensures Valid() && View() == Register(old(View()), r.name)
      ensures forall c :: c in cases <==> c in old(cases) || c == r
    {
      hide IsDeathTest, IsPermutation, NamesInOrder;
      ghost var at := Place(View(), r.name);
      InsertedName(View().names, View().deaths, r.name, at);
      AppendIndex(order.items);
      InsertedNames(cases, r, at);
      InsertedMembers(cases, r, at);
      if isDeathTest {
        lastDeathTestCase := lastDeathTestCase + 1;
        cases := cases[..lastDeathTestCase] + [r] + cases[lastDeathTestCase..];
      } else {
        cases := cases + [r];
      }
      assert cases == InsertedAt(old(cases), at, r);
      order.items := order.items + [|order.items|];
      InsertedOrders(old(cases), r, at);
      assert OrderList(old(cases)) == old(OrderList(cases));
    }

    /** Finds the case of this name or registers a new one. */
    method GetTestCase(name: CString) returns (r: TestCase)
      requires Valid()
      modifies this`cases, this`lastDeathTestCase, order
      ensures Valid() && r.name == name && r in cases
      ensures View() == Register(old(View()), name)
      ensures name in old(View()).names ==> cases == old(cases)
      ensures forall c :: c in old(cases) ==> c in cases
      ensures name !in old(View()).names ==>
        fresh(r) && fresh(r.order) && r.tests == []
    {
      hide IsPermutation, NamesInOrder, SomePatternMatches;
      var found := FindCase(name);
      assert OrderList(cases) == old(OrderList(cases));
      if found.Some? {
        return found.value;
      }
      r := new TestCase(name);
      var isDeathTest := MatchesFilter(name, DEATH_TEST_FILTER);
      assert OrderList(cases) == old(OrderList(cases));
      AddCase(r, isDeathTest);
    }

    /** Every registered test case and test has one slot. */
    lemma ViewIsRegistered()
      requires Valid()
      ensures Registered(View())
    {
      forall i | 0 <= i < |cases| ensures IsPermutation(View().inner[i]) {
        assert cases[i] in cases;
      }
    }

    lemma CaseOfName(i: nat)
      requires Valid() && i < |cases|
      ensures |View().names| == |cases| && View().names[i] == cases[i].name
      ensures cases[i].name in View().names && IndexOf(View().names, cases[i].name) == i
      ensures forall c :: c in cases && c.name == cases[i].name ==> c == cases[i]
    {
      NameAt(View().names, i);
      forall c | c in cases && c.name == cases[i].name ensures c == cases[i] {
        NameAt(View().names, IndexOf(cases, c));
      }
    }

    /** Adds a test to case `i`. */
    method AddToCase(c: TestCase, test: TestInfo, ghost i: nat)
      requires Valid() && i < |cases| && c == cases[i]
      modifies c`tests, c.order
      ensures Valid() && View() == AddTest(old(View()), i) && c.tests == old(c.tests) + [test]
    {
      hide NamesInOrder, IsPermutation;
      ghost var orders := OrderList(cases);
      assert c in cases;
      c.AddTestInfo(test);
      assert OrderList(cases) == orders[i := orders[i] + [|orders[i]|]];
    }

    /** Adds a test to the case of this name, which is registered first if it is new. */
    method AddTestInfo(caseName: CString, test: TestInfo)
      requires Valid()
      modifies this`cases, this`lastDeathTestCase, order, cases`tests, Orders(cases)
      ensures Valid() && View() == AddTestNamed(old(View()), caseName)
      ensures exists c :: c in cases && c.name == caseName
                && c.tests == (if c in old(cases) then old(c.tests) else []) + [test]
      ensures forall c :: c in old(cases) && c.name != caseName ==> c in cases && c.tests == old(c.tests)
    {
      hide NamesInOrder, IsPermutation, Register, AddTest, Apart, TestCase.Valid, OrderList;
      var c := GetTestCase(caseName);
      ghost var i := IndexOf(cases, c);
      CaseOfName(i);
      AddToCase(c, test, i);
      assert c in cases;
    }

    /** What runs in slot `i`: this accessor follows the shuffled order. */
    method GetMutableTestCase(i: int) returns (r: Option<TestCase>)
      requires Valid()
      ensures r.None? <==> !(0 <= i < |cases|)
      ensures r.Some? ==> r.value == cases[order.items[i]] && r.value.name == View().names[View().order[i]]
    {
      if i < 0 || i >= |order.items| {
        return None;
      }
      return Some(cases[order.items[i]]);
    }

    /** The read-only accessor checks the slot but does not follow the shuffled order. */
    method GetConstTestCase(i: int) returns (r: Option<TestCase>)
      requires Valid()
      ensures r.None? <==> !(0 <= i < |cases|)
      ensures r.Some? ==> r.value == cases[i] && r.value.name == View().names[i]
    {
      if i < 0 || i >= |order.items| {
        return None;
      }
      return Some(cases[i]);
    }

    /** Shuffles the death tests, then the other cases. */
    method ShuffleOrder()
      requires Valid() && |cases| <= Random.MAX_RANGE
      modifies order, random
      ensures Valid()
      ensures var t := ShuffledBlocks(old(ShuffleState(order.items, random.state)), lastDeathTestCase + 1);
              View() == old(View()).(order := t.items) && random.state == t.state
    {
      hide NamesInOrder, TestCase.Valid;
      BlocksKeepPermutation(ShuffleState(order.items, random.state), lastDeathTestCase + 1);
      ShuffleRange(random, 0, lastDeathTestCase + 1, order);
      ShuffleRange(random, lastDeathTestCase + 1, |cases|, order);
      assert OrderList(cases) == old(OrderList(cases));
    }

    /** Shuffles the tests of each case. */
    method ShuffleCases()
      requires Valid() && forall c :: c in cases ==> |c.tests| <= Random.MAX_RANGE
      modifies random, Orders(cases)
      ensures Valid()
      ensures var (inner, state) := ShuffledEach(old(OrderList(cases)), old(random.state), |cases|);
              View() == old(View()).(inner := inner) && random.state == state
    {
      hide NamesInOrder, IsPermutation, ShuffledEach;
      ShuffleInner(random, cases, order);
    }

    /** Shuffles the death tests, then the other cases, then the tests of each case. */
    method ShuffleTests()
      requires Valid() && |cases| <= Random.MAX_RANGE && forall c :: c in cases ==> |c.tests| <= Random.MAX_RANGE
      modifies order, random, Orders(cases)
      ensures Valid() && (View(), random.state) == ShuffledSchedule(old(View()), old(random.state))
    {
      hide NamesInOrder, IsPermutation, ShuffledBlocks, ShuffledEach, TestCase.Valid;
      ShuffleOrder();
      ShuffleCases();
    }

    method UnshuffleTests()
      requires Valid()
      modifies order, Orders(cases)
      ensures Valid() && View() == Unshuffled(old(View()))
    {
      for i := 0 to |cases|
        invariant |order.items| == |cases| && forall j :: 0 <= j < i ==> order.items[j] == j
        invariant forall c :: c in cases ==> c.Valid() && |c.order.items| == old(|c.order.items|)
        invariant forall j :: 0 <= j < i ==> cases[j].order.items == Identity(old(|cases[j].order.items|))
      {
        assert cases[i] in cases;
        cases[i].UnshuffleTests();
        order.items := order.items[i := i];
      }
      assert order.items == Identity(|cases|);
    }

    /** The tests that run. */
    ghost function ToRun(): set<Visit>
      reads this, cases, AllTests(TestLists(cases))
    {
      set i: nat, j: nat | i < |cases| && j < |cases[i].tests| && j in cases[i].ToRun() :: Visit(i, j)
    }

    /** After filtering, the tests that run are the chosen ones. */
    lemma ChosenAreRun(o: Options, chosen: seq<seq<bool>>)
      requires |chosen| == |cases|
      requires forall c :: 0 <= c < |cases| ==> CaseMarked(o, cases[c], cases[c].tests, chosen[c])
      ensures forall c: nat, j: nat :: Visit(c, j) in ToRun() <==> c < |chosen| && j < |chosen[c]| && chosen[c][j]
    {
      forall c: nat, j: nat ensures Visit(c, j) in ToRun() <==> c < |chosen| && j < |chosen[c]| && chosen[c][j] {
        if c < |chosen| {
          assert CaseMarked(o, cases[c], cases[c].tests, chosen[c]);
        }
      }
    }

    /** The number of selected tests is the number of those that run. */
    lemma SelectedAreRun(o: Options, picks: nat -> bool, rows: seq<seq<bool>>)
      requires |rows| == |cases|
      requires forall i :: 0 <= i < |cases| ==> CaseMarked(o, cases[i], cases[i].tests, Chosen(rows, picks, i))
      ensures Selected(rows, picks) == |ToRun()|
    {
      hide CaseMarked, Selected, Chosen, ToRun, TestCase.ToRun;
      var chosen := ChosenRows(rows, picks);
      SelectedIsCardinality(rows, picks, chosen);
      ChosenAreRun(o, chosen);
      ChosenVisitsMembers(chosen, |chosen|);
      forall v ensures v in ToRun() <==> v in ChosenVisits(chosen, |chosen|) {
        assert v == Visit(v.testCase, v.test);
      }
      assert ToRun() == ChosenVisits(chosen, |chosen|);
    }

    /**
     Marks what runs on this shard and returns how many tests that are. Which tests are runnable
     does not depend on the shard.
     */
    method FilterTests(o: Options, shard: Shard) returns (selected: nat)
      requires IsShard(shard) && TestsApart(cases, TestLists(cases))
      modifies cases`shouldRun, AllTests(TestLists(cases))
      ensures var rows := Rows(o, cases, TestLists(cases));
              && selected == Selected(rows, Picks(shard))
              && forall i :: 0 <= i < |cases| ==>
                   CaseMarked(o, cases[i], cases[i].tests, Chosen(rows, Picks(shard), i))
      ensures selected == |ToRun()|
      ensures forall c :: c in cases ==> NamesDecide(o, c, shard.Everything?)
    {
      selected := FilterWith(o, Picks(shard), cases);
      CasesAreDecided(o, cases, TestLists(cases), shard);
      SelectedAreRun(o, Picks(shard), Rows(o, cases, TestLists(cases)));
    }

    /** Runs the case in slot `i`. */
    method RunSlot(i: nat) returns (tests: seq<nat>)
      requires Valid() && i < |order.items|
      ensures var c := old(order.items[i]);
              c < |cases| && tests == Filter(Among(old(cases[c].ToRun())), old(cases[c].order.items))
    {
      assert cases[order.items[i]] in cases;
      var testCase := GetMutableTestCase(i);
      tests := testCase.value.Run();
    }

    /** Runs the cases slot by slot. */
    method RunSlots(ghost selected: set<Visit>) returns (ran: seq<Visit>)
      requires Valid() && Registered(View())
      requires forall c :: 0 <= c < |cases| ==> IsPart(selected, c, cases[c].ToRun())
      ensures ran == Filter(Among(selected), Visits(old(View())))
    {
      hide NamesInOrder, Registered, IsPermutation, TestCase.ToRun, TestCase.Valid, IsPart;
      hide Filter, VisitsUpTo, CaseVisits, Apart;
      ghost var s := View();
      SlotsInRange(s);
      NoSlots(selected, s.order, s.inner);
      ran := [];
      for i := 0 to |order.items|
        invariant Valid()
        invariant ran == Filter(Among(selected), VisitsUpTo(s.order, s.inner, i))
      {
        var c := order.items[i];
        var tests := RunSlot(i);
        RunsOfSlot(selected, old(cases[c].ToRun()), s.order, s.inner, i);
        ran := ran + CaseVisits(c, tests);
      }
    }

    /** Runs the marked tests in the scheduled order, and lists them. */
    method RunAllTests() returns (ran: seq<Visit>)
      requires Valid()
      ensures Registered(old(View())) && ran == Filter(Among(old(ToRun())), Visits(old(View())))
    {
      ViewIsRegistered();
      ran := RunSlots(ToRun());
    }
  }
}
