/**
 Which tests run, and on which shard. Tests are numbered in registration order, counting only those
 that the filter admits; the number modulo the number of shards picks the shard.
 */
module Sharding {
  import opened CStrings
  import opened GlobFilter

  datatype Options = Options(filter: CString, alsoRunDisabled: bool)

  datatype Shard = Everything | Shard(total: nat, index: nat)

  /** What the filter says about one test. */
  datatype Mark = Mark(isDisabled: bool, matchesFilter: bool)

  ghost function MarkOf(o: Options, caseName: CString, testName: CString): Mark {
    Mark(IsDisabledName(caseName) || IsDisabledName(testName), Selects(o.filter, caseName + "." + testName))
  }

  predicate Runnable(o: Options, m: Mark) {
    (o.alsoRunDisabled || !m.isDisabled) && m.matchesFilter
  }

  function One(b: bool): nat {
    if b then 1 else 0
  }

  /** How many of the first `n` tests of a case are marked. */
  function CountIn(row: seq<bool>, n: nat): nat
    requires n <= |row|
  {
    if n == 0 then 0 else CountIn(row, n - 1) + One(row[n - 1])
  }

  /** How many tests of the first `i` cases are marked. */
  function CountBefore(rows: seq<seq<bool>>, i: nat): nat
    requires i <= |rows|
  {
    if i == 0 then 0 else CountBefore(rows, i - 1) + CountIn(rows[i - 1], |rows[i - 1]|)
  }

  /** The number of a test: how many runnable tests come before it. */
  function Number(rows: seq<seq<bool>>, i: nat, j: nat): nat
    requires i < |rows| && j <= |rows[i]|
  {
    CountBefore(rows, i) + CountIn(rows[i], j)
  }

  predicate ShouldRunTestOnShard(total: nat, index: nat, number: nat)
    requires total > 0
  {
    number % total == index
  }

  ghost predicate IsShard(s: Shard) {
    s.Shard? ==> s.index < s.total
  }

  /** The numbers that a shard picks. */
  function Picks(s: Shard): nat -> bool
    requires IsShard(s)
  {
    (number: nat) => s.Everything? || ShouldRunTestOnShard(s.total, s.index, number)
  }

  /** Of the runnable tests of a case, numbered from `start`, those whose number is picked. */
  function ChosenRow(row: seq<bool>, picks: nat -> bool, start: nat): (chosen: seq<bool>)
    ensures |chosen| == |row|
  {
    seq(|row|, j requires 0 <= j < |row| => row[j] && picks(start + CountIn(row, j)))
  }

  lemma ChosenAt(row: seq<bool>, picks: nat -> bool, start: nat, j: nat)
    requires j < |row|
    ensures ChosenRow(row, picks, start)[j] == (row[j] && picks(start + CountIn(row, j)))
  {
  }

  /** The tests of case `i` whose number is picked. */
  function Chosen(rows: seq<seq<bool>>, picks: nat -> bool, i: nat): seq<bool>
    requires i < |rows|
  {
    ChosenRow(rows[i], picks, CountBefore(rows, i))
  }

  /** How many tests of the first `i` cases are selected. */
  function SelectedBefore(rows: seq<seq<bool>>, picks: nat -> bool, i: nat): nat
    requires i <= |rows|
  {
    if i == 0 then 0
    else SelectedBefore(rows, picks, i - 1) + CountIn(Chosen(rows, picks, i - 1), |rows[i - 1]|)
  }

  /** The counters after the first `i` cases. */
  ghost predicate Counted(rows: seq<seq<bool>>, picks: nat -> bool, i: nat, runnable: nat, selected: nat)
    requires i <= |rows|
  {
    runnable == CountBefore(rows, i) && selected == SelectedBefore(rows, picks, i)
  }

  lemma CountedNext(rows: seq<seq<bool>>, picks: nat -> bool, i: nat, runnable: nat, selected: nat)
    requires i < |rows| && Counted(rows, picks, i, runnable, selected)
    ensures Counted(rows, picks, i + 1, runnable + CountIn(rows[i], |rows[i]|),
                    selected + CountIn(Chosen(rows, picks, i), |rows[i]|))
  {
  }

  lemma ChosenRows(rows: seq<seq<bool>>, picks: nat -> bool) returns (chosen: seq<seq<bool>>)
    ensures |chosen| == |rows|
    ensures forall i {:trigger chosen[i]} {:trigger Chosen(rows, picks, i)} :: 0 <= i < |rows| ==>
              chosen[i] == Chosen(rows, picks, i)
  {
    chosen := seq(|rows|, i requires 0 <= i < |rows| => Chosen(rows, picks, i));
  }

  function Count(rows: seq<seq<bool>>): nat {
    CountBefore(rows, |rows|)
  }

  function Selected(rows: seq<seq<bool>>, picks: nat -> bool): nat {
    SelectedBefore(rows, picks, |rows|)
  }

  // ---------------------------------------------------------------------------------------------
  // The shards partition the runnable tests
  // ---------------------------------------------------------------------------------------------

  /** Every runnable test runs on exactly one of the shards, and no other test on any. */
  lemma ExactlyOneShard(rows: seq<seq<bool>>, total: nat, i: nat, j: nat)
    requires total > 0 && i < |rows| && j < |rows[i]|
    ensures var home := Number(rows, i, j) % total;
            forall k :: 0 <= k < total ==>
              (Chosen(rows, Picks(Shard(total, k)), i)[j] <==> rows[i][j] && k == home)
  {
  }

  lemma {:induction false} CountInGrows(row: seq<bool>, m: nat, n: nat)
    requires m <= n <= |row|
    ensures CountIn(row, m) <= CountIn(row, n)
  {
    if m < n {
      CountInGrows(row, m, n - 1);
    }
  }

  lemma {:induction false} CountBeforeGrows(rows: seq<seq<bool>>, m: nat, n: nat)
    requires m <= n <= |rows|
    ensures CountBefore(rows, m) <= CountBefore(rows, n)
  {
    if m < n {
      CountBeforeGrows(rows, m, n - 1);
    }
  }

  /** The runnable tests are numbered without gaps: a test's number is less than any later one's by at least one. */
  lemma NumbersIncrease(rows: seq<seq<bool>>, i: nat, j: nat, i': nat, j': nat)
    requires i <= i' < |rows| && j < |rows[i]| && j' < |rows[i']| && (i == i' ==> j < j')
    requires rows[i][j]
    ensures Number(rows, i, j) < Number(rows, i', j') <= Count(rows)
  {
    assert CountIn(rows[i], j + 1) == CountIn(rows[i], j) + 1;
    CountInGrows(rows[i'], j', |rows[i']|);
    CountBeforeGrows(rows, i' + 1, |rows|);
    if i == i' {
      CountInGrows(rows[i], j + 1, j');
    } else {
      CountInGrows(rows[i], j + 1, |rows[i]|);
      CountBeforeGrows(rows, i + 1, i');
    }
  }

  /** How many numbers below `n` are picked. */
  ghost function Share(n: nat, picks: nat -> bool): nat {
    if n == 0 then 0 else Share(n - 1, picks) + One(picks(n - 1))
  }

  lemma {:induction false} RowShare(row: seq<bool>, picks: nat -> bool, start: nat, n: nat)
    requires n <= |row|
    ensures Share(start + CountIn(row, n), picks) == Share(start, picks) + CountIn(ChosenRow(row, picks, start), n)
  {
    if n > 0 {
      RowShare(row, picks, start, n - 1);
    }
  }

  /** However the tests are spread over the cases, only their numbers decide how many are selected. */
  lemma {:induction false} SelectedCount(rows: seq<seq<bool>>, picks: nat -> bool, i: nat)
    requires i <= |rows|
    ensures SelectedBefore(rows, picks, i) == Share(CountBefore(rows, i), picks)
  {
    if i > 0 {
      SelectedCount(rows, picks, i - 1);
      RowShare(rows[i - 1], picks, CountBefore(rows, i - 1), |rows[i - 1]|);
    }
  }

  /** Counting to `n` around a circle of `total`: the completed laps and the position. */
  ghost function Walk(n: nat, total: nat): (w: (nat, nat))
    requires total > 0
    ensures w.1 < total
  {
    if n == 0 then (0, 0)
    else
      var (laps, position) := Walk(n - 1, total);
      if position + 1 == total then (laps + 1, 0) else (laps, position + 1)
  }

  lemma {:induction false} WalkCovers(n: nat, total: nat)
    requires total > 0
    ensures Walk(n, total).0 * total + Walk(n, total).1 == n
  {
    if n > 0 {
      WalkCovers(n - 1, total);
    }
  }

  lemma Quotient(n: nat, total: nat)
    requires total > 0
    ensures (n / total) * total + n % total == n && n % total < total
  {
  }

  lemma Gap(q: nat, q': nat, total: nat)
    requires q < q'
    ensures q' * total >= q * total + total
  {
    assert q' * total == q * total + total + (q' - q - 1) * total;
  }

  lemma UniqueDivision(q: nat, r: nat, q': nat, r': nat, total: nat)
    requires r < total && r' < total && q * total + r == q' * total + r'
    ensures q == q' && r == r'
  {
    if q < q' {
      Gap(q, q', total);
    } else if q' < q {
      Gap(q', q, total);
    }
  }

  lemma WalkIsDivision(n: nat, total: nat)
    requires total > 0
    ensures Walk(n, total) == (n / total, n % total)
  {
    WalkCovers(n, total);
    var (laps, position) := Walk(n, total);
    Quotient(n, total);
    UniqueDivision(n / total, n % total, laps, position, total);
  }

  lemma {:induction false} ShareOfShard(n: nat, total: nat, k: nat)
    requires k < total
    ensures Share(n, Picks(Shard(total, k))) == Walk(n, total).0 + One(k < Walk(n, total).1)
  {
    if n > 0 {
      ShareOfShard(n - 1, total, k);
      WalkIsDivision(n - 1, total);
      assert Picks(Shard(total, k))(n - 1) <==> k == Walk(n - 1, total).1;
    }
  }

  /** The shards' counts, added up over the first `m` shards. */
  ghost function ShareSum(n: nat, total: nat, m: nat): nat
    requires m <= total
  {
    if m == 0 then 0 else ShareSum(n, total, m - 1) + Share(n, Picks(Shard(total, m - 1)))
  }

  lemma {:induction false} NoShares(total: nat, m: nat)
    requires m <= total
    ensures ShareSum(0, total, m) == 0
  {
    if m > 0 {
      NoShares(total, m - 1);
    }
  }

  lemma {:induction false} OneMore(n: nat, total: nat, m: nat)
    requires n > 0 && m <= total && total > 0
    ensures ShareSum(n, total, m) == ShareSum(n - 1, total, m) + One((n - 1) % total < m)
  {
    if m > 0 {
      OneMore(n, total, m - 1);
      assert Picks(Shard(total, m - 1))(n - 1) <==> (n - 1) % total == m - 1;
    } else {
      Quotient(n - 1, total);
    }
  }

  lemma {:induction false} SharesAddUp(n: nat, total: nat)
    requires total > 0
    ensures ShareSum(n, total, total) == n
  {
    if n == 0 {
      NoShares(total, total);
    } else {
      SharesAddUp(n - 1, total);
      OneMore(n, total, total);
    }
  }

  function Sum(counts: nat -> nat, m: nat): nat {
    if m == 0 then 0 else Sum(counts, m - 1) + counts(m - 1)
  }

  lemma {:induction false} SumsAgree(selected: nat -> nat, n: nat, total: nat, m: nat)
    requires m <= total
    requires forall k :: 0 <= k < m ==> selected(k) == Share(n, Picks(Shard(total, k)))
    ensures Sum(selected, m) == ShareSum(n, total, m)
  {
    if m > 0 {
      SumsAgree(selected, n, total, m - 1);
    }
  }

  /**
   Main result: if each shard selects from the same runnable tests, the shards' counts add up to the
   number of runnable tests, and two shards' counts differ by at most one, the lower-numbered shards
   having the larger count.
   */
  lemma ShardsAreBalanced(rows: seq<seq<bool>>, total: nat, selected: nat -> nat)
    requires total > 0
    requires forall k :: 0 <= k < total ==> selected(k) == Selected(rows, Picks(Shard(total, k)))
    ensures Sum(selected, total) == Count(rows)
    ensures forall k :: 0 <= k < total ==> selected(k) == Count(rows) / total + One(k < Count(rows) % total)
  {
    var runnable := Count(rows);
    WalkIsDivision(runnable, total);
    forall k | 0 <= k < total
      ensures selected(k) == Share(runnable, Picks(Shard(total, k)))
      ensures selected(k) == runnable / total + One(k < runnable % total)
    {
      SelectedCount(rows, Picks(Shard(total, k)), |rows|);
      ShareOfShard(runnable, total, k);
    }
    SumsAgree(selected, runnable, total, total);
    SharesAddUp(runnable, total);
  }
}
