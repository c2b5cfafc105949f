/** Merging property files, with or without overriding what is already set. */
module PropertyMerge {
  import opened Sequences

  type Table = map<string, string>

  /** A set of properties: its own entries, and the names that only its defaults define. */
  datatype Properties = Properties(own: Table, defaultNames: set<string>)

  function Names(p: Properties): set<string> {
    p.own.Keys + p.defaultNames
  }

  /** With overriding, later files win. */
  function Overridden(own: Table, files: seq<Table>): Table {
    if files == [] then own else Overridden(own, files[..|files| - 1]) + files[|files| - 1]
  }

  datatype Outcome = Outcome(own: Table, duplicates: set<string>)

  function Merge(own: Table, defaultNames: set<string>, files: seq<Table>): Outcome
    decreases |files|
  {
    if files == [] then Outcome(own, {})
    else
      var duplicates := (own.Keys + defaultNames) * files[0].Keys;
      if duplicates != {} then Outcome(own, duplicates)
      else Merge(own + files[0], defaultNames, files[1..])
  }

  class EzProperties {
    var own: Table
    const defaultNames: set<string>

    constructor (own: Table, defaultNames: set<string>)
      ensures this.own == own && this.defaultNames == defaultNames
    {
      this.own, this.defaultNames := own, defaultNames;
    }

    /** Defaults count on both sides. */
    function GetCollisions(toCheck: Properties): (names: set<string>)
      reads this
      ensures forall n :: n in names <==>
                && (n in own || n in defaultNames)
                && (n in toCheck.own || n in toCheck.defaultNames)
    {
      Names(Properties(own, defaultNames)) * Names(toCheck)
    }

    /** Returns the colliding names when the merge is refused; only own entries are copied. */
    method MergeProperties(toMerge: Properties, shouldOverride: bool) returns (duplicates: set<string>)
      modifies this
      ensures duplicates == if shouldOverride then {} else old(GetCollisions(toMerge))
      ensures own == if duplicates == {} then old(own) + toMerge.own else old(own)
    {
      duplicates := {};
      if !shouldOverride {
        duplicates := GetCollisions(toMerge);
        if duplicates != {} {
          return;
        }
      }
      own := own + toMerge.own;
    }

    /** Merges the files of a directory in the order they are listed, up to the first collision. */
    method LoadAll(files: seq<Table>, shouldOverride: bool) returns (duplicates: set<string>)
      modifies this
      ensures shouldOverride ==> duplicates == {} && own == Overridden(old(own), files)
      ensures !shouldOverride ==> Outcome(own, duplicates) == Merge(old(own), defaultNames, files)
    {
      assert files[0..] == files;
      for i := 0 to |files|
        invariant shouldOverride ==> own == Overridden(old(own), files[..i])
        invariant !shouldOverride ==> Merge(own, defaultNames, files[i..]) == Merge(old(own), defaultNames, files)
      {
        assert files[..i + 1][..i] == files[..i];
        duplicates := MergeProperties(Properties(files[i], {}), shouldOverride);
        if duplicates != {} {
          return;
        }
        assert files[i..][1..] == files[i + 1..];
      }
      assert files[..|files|] == files;
      duplicates := {};
    }
  }

  /**
   With overriding, a name has the value that the last file with the name gives it, and keeps its own
   value only when no file has it; other names are not defined.
   */
  lemma {:induction false} LastFileWins(own: Table, files: seq<Table>, n: string)
    ensures var result := Overridden(own, files);
            && (n in result <==> n in own || exists i :: 0 <= i < |files| && n in files[i])
            && ((forall i :: 0 <= i < |files| ==> n !in files[i]) && n in own ==> result[n] == own[n])
            && (forall i :: 0 <= i < |files| && n in files[i] && (forall j :: i < j < |files| ==> n !in files[j]) ==>
                  result[n] == files[i][n])
  {
    if files != [] {
      var before, last := files[..|files| - 1], files[|files| - 1];
      LastFileWins(own, before, n);
      assert files == before + [last];
    }
  }

  // ---------------------------------------------------------------------------------------------
  // When merging succeeds, and with what result
  // ---------------------------------------------------------------------------------------------

  ghost predicate Disjoint(names: set<string>, m: Table) {
    forall k :: k in m ==> k !in names
  }

  ghost predicate PairwiseDisjoint(files: seq<Table>) {
    forall i, j :: 0 <= i < j < |files| ==> Disjoint(files[i].Keys, files[j])
  }

  ghost predicate ApartFrom(names: set<string>, files: seq<Table>) {
    forall i :: 0 <= i < |files| ==> Disjoint(names, files[i])
  }

  /** `result` holds exactly the entries of `own` and of the files. */
  ghost predicate IsUnion(own: Table, files: seq<Table>, result: Table) {
    && (forall k :: k in own ==> k in result && result[k] == own[k])
    && (forall m, k :: m in files && k in m ==> k in result && result[k] == m[k])
    && (forall k :: k in result ==> k in own || exists m :: m in files && k in m)
  }

  lemma NoCollision(names: set<string>, m: Table)
    ensures names * m.Keys == {} <==> Disjoint(names, m)
  {
    assert forall k :: k in m ==> (k in names <==> k in names * m.Keys);
  }

  lemma UnionStep(own: Table, first: Table, rest: seq<Table>, result: Table)
    requires IsUnion(own + first, rest, result) && Disjoint(own.Keys, first)
    ensures IsUnion(own, [first] + rest, result)
  {
  }

  lemma SplitFirst(own: Table, defaultNames: set<string>, files: seq<Table>)
    requires files != [] && Disjoint(own.Keys + defaultNames, files[0])
    ensures PairwiseDisjoint(files) && ApartFrom(own.Keys + defaultNames, files) <==>
            PairwiseDisjoint(files[1..]) && ApartFrom((own + files[0]).Keys + defaultNames, files[1..])
  {
  }

  lemma {:induction false} MergeSucceedsExactly(own: Table, defaultNames: set<string>, files: seq<Table>)
    ensures Merge(own, defaultNames, files).duplicates == {} <==>
            PairwiseDisjoint(files) && ApartFrom(own.Keys + defaultNames, files)
    ensures Merge(own, defaultNames, files).duplicates == {} ==>
            IsUnion(own, files, Merge(own, defaultNames, files).own)
    decreases |files|
  {
    if files != [] {
      var first, rest := files[0], files[1..];
      assert files == [first] + rest;
      NoCollision(own.Keys + defaultNames, first);
      if Disjoint(own.Keys + defaultNames, first) {
        MergeSucceedsExactly(own + first, defaultNames, rest);
        SplitFirst(own, defaultNames, files);
        if Merge(own, defaultNames, files).duplicates == {} {
          UnionStep(own, first, rest, Merge(own, defaultNames, files).own);
        }
      }
    }
  }

  ghost predicate StopsAt(own: Table, defaultNames: set<string>, files: seq<Table>, n: nat)
    requires n < |files|
  {
    var before := Merge(own, defaultNames, files[..n]);
    var all := Merge(own, defaultNames, files);
    && before.duplicates == {}
    && all.own == before.own
    && all.duplicates == (before.own.Keys + defaultNames) * files[n].Keys != {}
  }

  /** On failure exactly the files before the first colliding one have been merged. */
  lemma {:induction false} MergeStopsAtCollision(own: Table, defaultNames: set<string>, files: seq<Table>)
    requires Merge(own, defaultNames, files).duplicates != {}
    ensures exists n: nat :: n < |files| && StopsAt(own, defaultNames, files, n)
    decreases |files|
  {
    var first := files[0];
    if (own.Keys + defaultNames) * first.Keys == {} {
      MergeStopsAtCollision(own + first, defaultNames, files[1..]);
      var n: nat :| n < |files[1..]| && StopsAt(own + first, defaultNames, files[1..], n);
      assert files[..n + 1][0] == first && files[..n + 1][1..] == files[1..][..n];
      assert StopsAt(own, defaultNames, files, n + 1);
    } else {
      assert StopsAt(own, defaultNames, files, 0);
    }
  }

  // ---------------------------------------------------------------------------------------------
  // The order of the files does not matter
  // ---------------------------------------------------------------------------------------------

  lemma UnionContains(own: Table, files: seq<Table>, others: seq<Table>, a: Table, b: Table)
    requires forall m :: m in files ==> m in others
    requires IsUnion(own, files, a) && IsUnion(own, others, b)
    ensures forall k :: k in a ==> k in b && b[k] == a[k]
  {
  }

  lemma UnionIsUnique(own: Table, files: seq<Table>, others: seq<Table>, a: Table, b: Table)
    requires (forall m :: m in files ==> m in others) && forall m :: m in others ==> m in files
    requires IsUnion(own, files, a) && IsUnion(own, others, b)
    ensures a == b
  {
    UnionContains(own, files, others, a, b);
    UnionContains(own, others, files, b, a);
  }

  /** Disjointness in terms of how often each file occurs. */
  ghost predicate DisjointByCount(files: multiset<Table>) {
    && (forall m :: m in files && m != map[] ==> files[m] == 1)
    && (forall m, m' :: m in files && m' in files && m != m' ==> Disjoint(m.Keys, m'))
  }

  lemma {:induction false} CountsOnce(files: seq<Table>, m: Table)
    requires PairwiseDisjoint(files) && m != map[]
    ensures multiset(files)[m] <= 1
  {
    if files != [] {
      var first, rest := files[0], files[1..];
      assert files == [first] + rest;
      assert forall i :: 0 <= i < |rest| ==> rest[i] == files[i + 1];
      CountsOnce(rest, m);
      if first == m {
        var k :| k in m;
        forall i | 0 <= i < |rest| ensures rest[i] != m {
          assert Disjoint(files[0].Keys, files[i + 1]);
        }
        assert m !in rest;
      }
    }
  }

  lemma DisjointFilesCount(files: seq<Table>)
    requires PairwiseDisjoint(files)
    ensures DisjointByCount(multiset(files))
  {
    forall m | m in files && m != map[] ensures multiset(files)[m] == 1 {
      CountsOnce(files, m);
    }
    forall m, m' | m in files && m' in files && m != m' ensures Disjoint(m.Keys, m') {
      var i :| 0 <= i < |files| && files[i] == m;
      var j :| 0 <= j < |files| && files[j] == m';
    }
  }

  lemma CountedFilesDisjoint(files: seq<Table>)
    requires DisjointByCount(multiset(files))
    ensures PairwiseDisjoint(files)
  {
    forall i, j | 0 <= i < j < |files| ensures Disjoint(files[i].Keys, files[j]) {
      assert files[i] in multiset(files) && files[j] in multiset(files);
      if files[i] == files[j] {
        TwiceInMultiset(files, i, j);
      }
    }
  }

  lemma DisjointCounts(files: seq<Table>)
    ensures PairwiseDisjoint(files) <==> DisjointByCount(multiset(files))
  {
    hide PairwiseDisjoint, DisjointByCount;
    if PairwiseDisjoint(files) {
      DisjointFilesCount(files);
    }
    if DisjointByCount(multiset(files)) {
      CountedFilesDisjoint(files);
    }
  }

  lemma SameApart(names: set<string>, files: seq<Table>, others: seq<Table>)
    requires forall m :: m in files ==> m in others
    ensures ApartFrom(names, others) ==> ApartFrom(names, files)
  {
    if ApartFrom(names, others) {
      forall i | 0 <= i < |files| ensures Disjoint(names, files[i]) {
        var m := files[i];
        assert m in others;
      }
    }
  }

  /** Main result: listing the same files in another order changes neither success nor the result. */
  lemma MergeOrderIndependent(own: Table, defaultNames: set<string>, files: seq<Table>, others: seq<Table>)
    requires multiset(files) == multiset(others)
    ensures var a, b := Merge(own, defaultNames, files), Merge(own, defaultNames, others);
            (a.duplicates == {} <==> b.duplicates == {}) && (a.duplicates == {} ==> a == b)
  {
    MergeSucceedsExactly(own, defaultNames, files);
    MergeSucceedsExactly(own, defaultNames, others);
    DisjointCounts(files);
    DisjointCounts(others);
    forall m ensures m in files <==> m in others {
      assert m in files <==> m in multiset(files);
      assert m in others <==> m in multiset(others);
    }
    SameApart(own.Keys + defaultNames, files, others);
    SameApart(own.Keys + defaultNames, others, files);
    var a, b := Merge(own, defaultNames, files), Merge(own, defaultNames, others);
    if a.duplicates == {} {
      UnionIsUnique(own, files, others, a.own, b.own);
    }
  }
}
