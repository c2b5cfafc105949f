/** The test filter language: `:`-separated wildcard patterns, and a negative part after `-`. */
module GlobFilter {
  import opened Wrappers
  import opened CStrings
  import opened Pieces

  // ---------------------------------------------------------------------------------------------
  // What a pattern means
  // ---------------------------------------------------------------------------------------------

  /** `?` stands for one character, `*` for any text, every other character for itself. */
  predicate GlobPiece(c: char, piece: string) {
    if c == '?' then |piece| == 1 else if c == '*' then true else piece == [c]
  }

  ghost predicate GlobMatches(pattern: string, s: string) {
    Describes(pattern, GlobPiece, s)
  }

  /** The pattern that starts a filter: the text up to the first `:`. */
  function FirstPattern(filter: string): string {
    if filter == "" || filter[0] == ':' then "" else [filter[0]] + FirstPattern(filter[1..])
  }

  /** `filter[a..b]` is one of the `:`-separated patterns. */
  ghost predicate IsPattern(filter: string, a: nat, b: nat) {
    && a <= b <= |filter|
    && ':' !in filter[a..b]
    && (a == 0 || filter[a - 1] == ':')
    && (b == |filter| || filter[b] == ':')
  }

  ghost predicate SomePatternMatches(filter: string, name: string) {
    exists a: nat, b: nat :: IsPattern(filter, a, b) && GlobMatches(filter[a..b], name)
  }

  // ---------------------------------------------------------------------------------------------
  // Laws of patterns and filters
  // ---------------------------------------------------------------------------------------------

  lemma CharacterTakes(c: char, rest: string, s: string)
    ensures GlobMatches([c] + rest, s) <==>
            exists n :: 0 <= n <= |s| && GlobPiece(c, s[..n]) && GlobMatches(rest, s[n..])
  {
    FirstPart([c] + rest, GlobPiece, s);
    assert ([c] + rest)[1..] == rest;
  }

  /** The empty pattern matches the empty name, and each character of a pattern takes its part of the name. */
  lemma PatternLaws(c: char, rest: string, s: string)
    ensures GlobMatches("", s) <==> s == ""
    ensures GlobMatches(['?'] + rest, s) <==> s != "" && GlobMatches(rest, s[1..])
    ensures GlobMatches(['*'] + rest, s) <==> exists n :: 0 <= n <= |s| && GlobMatches(rest, s[n..])
    ensures c != '?' && c != '*' ==>
              (GlobMatches([c] + rest, s) <==> s != "" && s[0] == c && GlobMatches(rest, s[1..]))
  {
    NoParts(GlobPiece, s);
    CharacterTakes('?', rest, s);
    CharacterTakes('*', rest, s);
    CharacterTakes(c, rest, s);
    assert s != "" ==> s[..1] == [s[0]];
  }

  /** A text without a colon is one pattern. */
  lemma SinglePattern(pattern: string, name: string)
    requires ':' !in pattern
    ensures SomePatternMatches(pattern, name) <==> GlobMatches(pattern, name)
  {
    assert pattern[0..|pattern|] == pattern;
    assert IsPattern(pattern, 0, |pattern|);
  }

  lemma PatternOfLeft(a: string, b: string, i: nat, j: nat)
    requires IsPattern(a, i, j)
    ensures IsPattern(a + ":" + b, i, j) && (a + ":" + b)[i..j] == a[i..j]
  {
  }

  lemma SliceOfRight(a: string, b: string, i: nat, j: nat)
    requires i <= j <= |b|
    ensures (a + b)[|a| + i..|a| + j] == b[i..j]
  {
  }

  lemma PatternOfRight(a: string, b: string, i: nat, j: nat)
    requires IsPattern(b, i, j)
    ensures var k := |a| + 1;
            IsPattern(a + ":" + b, k + i, k + j) && (a + ":" + b)[k + i..k + j] == b[i..j]
  {
    SliceOfRight(a + ":", b, i, j);
    assert (a + ":" + b)[|a|] == ':';
  }

  lemma InSlice(s: string, i: nat, j: nat, k: nat)
    requires i <= k < j <= |s|
    ensures s[k] in s[i..j]
  {
  }

  lemma SliceOfLeft(a: string, b: string, i: nat, j: nat)
    requires i <= j <= |a|
    ensures (a + b)[i..j] == a[i..j]
  {
  }

  lemma LeftOfColon(a: string, b: string, i: nat, j: nat)
    requires IsPattern(a + ":" + b, i, j) && j <= |a|
    ensures IsPattern(a, i, j) && (a + ":" + b)[i..j] == a[i..j]
  {
    assert a + ":" + b == a + (":" + b);
    SliceOfLeft(a, ":" + b, i, j);
  }

  /** A pattern behind a text that ends in a colon. */
  lemma RightOf(front: string, b: string, i: nat, j: nat)
    requires front != "" && front[|front| - 1] == ':' && |front| <= i <= j <= |front| + |b|
    requires IsPattern(front + b, i, j)
    ensures IsPattern(b, i - |front|, j - |front|) && (front + b)[i..j] == b[i - |front|..j - |front|]
  {
    var m, n := i - |front|, j - |front|;
    SliceOfRight(front, b, m, n);
    assert (front + b)[i..j] == b[m..n];
    if m > 0 {
      assert (front + b)[i - 1] == b[m - 1];
    }
    if n < |b| {
      assert (front + b)[j] == b[n];
    }
  }

  lemma RightOfColon(a: string, b: string, i: nat, j: nat)
    requires IsPattern(a + ":" + b, i, j) && i > |a|
    ensures IsPattern(b, i - |a| - 1, j - |a| - 1) && (a + ":" + b)[i..j] == b[i - |a| - 1..j - |a| - 1]
  {
    RightOf(a + ":", b, i, j);
  }

  lemma PatternOfEither(a: string, b: string, i: nat, j: nat)
    requires IsPattern(a + ":" + b, i, j)
    ensures var filter, k := a + ":" + b, |a| + 1;
            || (IsPattern(a, i, j) && filter[i..j] == a[i..j])
            || (i >= k && IsPattern(b, i - k, j - k) && filter[i..j] == b[i - k..j - k])
  {
    var filter := a + ":" + b;
    assert filter[|a|] == ':';
    if i <= |a| && |a| < j {
      InSlice(filter, i, j, |a|);
      assert false;
    } else if j <= |a| {
      LeftOfColon(a, b, i, j);
    } else {
      RightOfColon(a, b, i, j);
    }
  }

  /** A colon separates alternatives. */
  lemma Alternatives(a: string, b: string, name: string)
    ensures SomePatternMatches(a + ":" + b, name) <==> SomePatternMatches(a, name) || SomePatternMatches(b, name)
  {
    if SomePatternMatches(a, name) {
      var i: nat, j: nat :| IsPattern(a, i, j) && GlobMatches(a[i..j], name);
      PatternOfLeft(a, b, i, j);
    }
    if SomePatternMatches(b, name) {
      var i: nat, j: nat :| IsPattern(b, i, j) && GlobMatches(b[i..j], name);
      PatternOfRight(a, b, i, j);
    }
    if SomePatternMatches(a + ":" + b, name) {
      var i: nat, j: nat :| IsPattern(a + ":" + b, i, j) && GlobMatches((a + ":" + b)[i..j], name);
      PatternOfEither(a, b, i, j);
    }
  }

  // ---------------------------------------------------------------------------------------------
  // The matcher
  // ---------------------------------------------------------------------------------------------

  /** The source's recursion; `pattern` may run on past the `:` that ends it. */
  predicate PatternMatchesString(pattern: CString, s: CString)
    decreases |pattern| + |s|
  {
    if pattern == "" || pattern[0] == ':' then s == ""
    else if pattern[0] == '?' then s != "" && PatternMatchesString(pattern[1..], s[1..])
    else if pattern[0] == '*' then
      (s != "" && PatternMatchesString(pattern, s[1..])) || PatternMatchesString(pattern[1..], s)
    else s != "" && pattern[0] == s[0] && PatternMatchesString(pattern[1..], s[1..])
  }

  lemma StarTakesOneMore(pattern: string, s: string)
    requires pattern != "" && pattern[0] == '*'
    ensures GlobMatches(pattern, s) <==>
            GlobMatches(pattern[1..], s) || (s != "" && GlobMatches(pattern, s[1..]))
  {
    FirstPart(pattern, GlobPiece, s);
    assert s[0..] == s;
    if n :| 0 < n <= |s| && GlobMatches(pattern[1..], s[n..]) {
      FirstPart(pattern, GlobPiece, s[1..]);
      assert s[1..][n - 1..] == s[n..];
    }
    if s != "" && GlobMatches(pattern, s[1..]) {
      FirstPart(pattern, GlobPiece, s[1..]);
      var n :| 0 <= n <= |s[1..]| && GlobMatches(pattern[1..], s[1..][n..]);
      assert s[1..][n..] == s[n + 1..];
    }
  }

  lemma OneCharacter(pattern: string, s: string)
    requires pattern != "" && pattern[0] != '*' && s != ""
    ensures GlobMatches(pattern, s) <==> GlobPiece(pattern[0], [s[0]]) && GlobMatches(pattern[1..], s[1..])
  {
    FirstPart(pattern, GlobPiece, s);
    assert s[..1] == [s[0]];
  }

  /** The recursion decides exactly the declared meaning. */
  lemma {:induction false} MatcherIsGlob(pattern: CString, s: CString)
    ensures PatternMatchesString(pattern, s) <==> GlobMatches(FirstPattern(pattern), s)
    decreases |pattern| + |s|
  {
    var first := FirstPattern(pattern);
    if first == "" {
      NoParts(GlobPiece, s);
    } else {
      FirstPart(first, GlobPiece, s);
      assert first[1..] == FirstPattern(pattern[1..]);
      if pattern[0] == '*' {
        MatcherIsGlob(pattern[1..], s);
        StarTakesOneMore(first, s);
        if s != "" {
          MatcherIsGlob(pattern, s[1..]);
        }
      } else if s != "" {
        MatcherIsGlob(pattern[1..], s[1..]);
        OneCharacter(first, s);
      }
    }
  }

  lemma {:induction false} FirstPatternEnds(filter: string)
    ensures var b := |FirstPattern(filter)|;
            IsPattern(filter, 0, b) && FirstPattern(filter) == filter[..b]
  {
    if filter != "" && filter[0] != ':' {
      FirstPatternEnds(filter[1..]);
    }
  }

  /** Walks from one pattern to the next. */
  method MatchesFilter(name: CString, filter: CString) returns (r: bool)
    ensures r <==> SomePatternMatches(filter, name)
  {
    var start := 0;
    while true
      invariant start <= |filter| && (start == 0 || filter[start - 1] == ':')
      invariant forall a: nat, b: nat :: IsPattern(filter, a, b) && a < start ==> !GlobMatches(filter[a..b], name)
      decreases |filter| - start
    {
      var pattern := filter[start..];
      FirstPatternEnds(pattern);
      ghost var end := start + |FirstPattern(pattern)|;
      assert IsPattern(filter, start, end) && FirstPattern(pattern) == filter[start..end];
      MatcherIsGlob(pattern, name);
      if PatternMatchesString(pattern, name) {
        return true;
      }
      forall a: nat, b: nat | IsPattern(filter, a, b) && start <= a <= end ensures !GlobMatches(filter[a..b], name) {
        assert a == start && b == end;
      }
      var colon := FindChar(pattern, ':');
      if colon.None? {
        return false;
      }
      start := start + colon.value + 1;
    }
  }

  // ---------------------------------------------------------------------------------------------
  // Positive and negative part
  // ---------------------------------------------------------------------------------------------

  /**
   The meaning of a whole filter: some pattern before the first `-` matches (any name, when nothing
   stands before it) and no pattern after it does.
   */
  ghost predicate Selects(filter: string, name: string) {
    match FindChar(filter, '-')
    case None => SomePatternMatches(filter, name)
    case Some(d) =>
      && (d == 0 || SomePatternMatches(filter[..d], name))
      && !SomePatternMatches(filter[d + 1..], name)
  }

  /** The first dash splits a filter; without one there is only the positive part. */
  lemma PositiveAndNegative(positive: string, negative: string, name: string)
    requires '-' !in positive
    ensures Selects(positive, name) <==> SomePatternMatches(positive, name)
    ensures Selects(positive + "-" + negative, name) <==>
            (positive == "" || SomePatternMatches(positive, name)) && !SomePatternMatches(negative, name)
  {
    hide SomePatternMatches;
    var filter, d := positive + "-" + negative, |positive|;
    assert filter[d] == '-' && filter[..d] == positive && filter[d + 1..] == negative;
  }

  lemma StarMatches(name: string)
    ensures SomePatternMatches("*", name)
  {
    assert IsCut("*", GlobPiece, name, [name]) by {
      assert Joined([name]) == name + Joined([]);
    }
    assert IsPattern("*", 0, 1) && "*"[0..1] == "*";
  }

  /** The empty filter has one pattern, the empty one. */
  lemma EmptyPatternMatches(name: string)
    ensures SomePatternMatches("", name) <==> name == ""
  {
    NoParts(GlobPiece, name);
    assert IsPattern("", 0, 0) && ""[0..0] == "";
  }

  method FilterMatchesTest(filter: CString, caseName: CString, testName: CString) returns (r: bool)
    ensures r <==> Selects(filter, caseName + "." + testName)
  {
    var fullName: CString := caseName + "." + testName;
    var positive: CString, negative: CString;
    var dash := FindChar(filter, '-');
    if dash.None? {
      positive, negative := filter, "";
      EmptyPatternMatches(fullName);
    } else {
      positive, negative := filter[..dash.value], filter[dash.value + 1..];
      if positive == "" {
        positive := "*";
        StarMatches(fullName);
      }
    }
    var included := MatchesFilter(fullName, positive);
    var excluded := MatchesFilter(fullName, negative);
    return included && !excluded;
  }

  // ---------------------------------------------------------------------------------------------
  // The fixed filters of the test runner
  // ---------------------------------------------------------------------------------------------

  const DEATH_TEST_FILTER: CString := "*DeathTest:*DeathTest/*"

  const DISABLE_TEST_FILTER: CString := "DISABLED_*:*/DISABLED_*"

  ghost predicate IsDeathTest(name: string) {
    SomePatternMatches(DEATH_TEST_FILTER, name)
  }

  ghost predicate IsDisabledName(name: string) {
    SomePatternMatches(DISABLE_TEST_FILTER, name)
  }

  /** `lit` occurs in `s` at position `n`. */
  predicate OccursAt(lit: string, s: string, n: nat) {
    n <= |s| && lit <= s[n..]
  }

  ghost predicate IsLiteral(lit: string) {
    '*' !in lit && '?' !in lit
  }

  lemma {:induction false} Literal(lit: string, s: string)
    requires IsLiteral(lit)
    ensures GlobMatches(lit, s) <==> s == lit
  {
    if lit == "" {
      NoParts(GlobPiece, s);
    } else if s == "" {
      FirstPart(lit, GlobPiece, s);
    } else {
      OneCharacter(lit, s);
      Literal(lit[1..], s[1..]);
      assert s == [s[0]] + s[1..] && lit == [lit[0]] + lit[1..];
    }
  }

  lemma EndsWith(lit: string, name: string)
    requires IsLiteral(lit)
    ensures GlobMatches("*" + lit, name) <==> exists n: nat :: n <= |name| && name[n..] == lit
  {
    var pattern := "*" + lit;
    assert pattern[1..] == lit;
    FirstPart(pattern, GlobPiece, name);
    forall n | 0 <= n <= |name| ensures GlobMatches(lit, name[n..]) <==> name[n..] == lit {
      Literal(lit, name[n..]);
    }
  }

  lemma {:induction false} LiteralThenStar(lit: string, s: string)
    requires IsLiteral(lit)
    ensures GlobMatches(lit + "*", s) <==> lit <= s
  {
    var pattern := lit + "*";
    if lit == "" {
      FirstPart(pattern, GlobPiece, s);
      NoParts(GlobPiece, s[|s|..]);
      assert pattern[1..] == "" && s[..|s|] == s;
    } else {
      assert pattern[1..] == lit[1..] + "*";
      if s == "" {
        FirstPart(pattern, GlobPiece, s);
      } else {
        OneCharacter(pattern, s);
        LiteralThenStar(lit[1..], s[1..]);
        assert s == [s[0]] + s[1..] && lit == [lit[0]] + lit[1..];
      }
    }
  }

  lemma Contains(lit: string, name: string)
    requires IsLiteral(lit)
    ensures GlobMatches("*" + lit + "*", name) <==> exists n: nat :: OccursAt(lit, name, n)
  {
    var pattern := "*" + lit + "*";
    assert pattern[1..] == lit + "*";
    FirstPart(pattern, GlobPiece, name);
    forall n | 0 <= n <= |name| ensures GlobMatches(lit + "*", name[n..]) <==> OccursAt(lit, name, n) {
      LiteralThenStar(lit, name[n..]);
    }
  }

  lemma TwoPatterns(a: string, b: string, name: string)
    requires ':' !in a && ':' !in b
    ensures SomePatternMatches(a + ":" + b, name) <==> GlobMatches(a, name) || GlobMatches(b, name)
  {
    var filter := a + ":" + b;
    assert filter[|a|] == ':' && filter[..|a|] == a && filter[0..|a|] == a;
    assert filter[|a| + 1..|filter|] == b;
    assert IsPattern(filter, 0, |a|) && IsPattern(filter, |a| + 1, |filter|);
    forall i: nat, j: nat | IsPattern(filter, i, j) ensures filter[i..j] == a || filter[i..j] == b {
      if i <= |a| < j {
        InSlice(filter, i, j, |a|);
      }
    }
  }

  lemma EndsOrContains(end: string, part: string, name: string)
    requires IsLiteral(end) && IsLiteral(part) && ':' !in end && ':' !in part
    ensures SomePatternMatches(("*" + end) + ":" + ("*" + part + "*"), name) <==>
            (exists n: nat :: n <= |name| && name[n..] == end) || exists n: nat :: OccursAt(part, name, n)
  {
    TwoPatterns("*" + end, "*" + part + "*", name);
    EndsWith(end, name);
    Contains(part, name);
  }

  /** Death tests are the names that end in `DeathTest` or contain `DeathTest/`. */
  lemma DeathTestNames(name: string)
    ensures IsDeathTest(name) <==>
            || (exists n: nat :: n <= |name| && name[n..] == "DeathTest")
            || exists n: nat :: OccursAt("DeathTest/", name, n)
  {
    assert DEATH_TEST_FILTER == ("*" + "DeathTest") + ":" + ("*" + "DeathTest/" + "*");
    EndsOrContains("DeathTest", "DeathTest/", name);
  }

  lemma StartsOrContains(start: string, part: string, name: string)
    requires IsLiteral(start) && IsLiteral(part) && ':' !in start && ':' !in part
    ensures SomePatternMatches((start + "*") + ":" + ("*" + part + "*"), name) <==>
            start <= name || exists n: nat :: OccursAt(part, name, n)
  {
    TwoPatterns(start + "*", "*" + part + "*", name);
    LiteralThenStar(start, name);
    Contains(part, name);
  }

  ghost predicate StartsOrHasDisabled(name: string) {
    "DISABLED_" <= name || exists n: nat :: OccursAt("/DISABLED_", name, n)
  }

  /** Disabled names start with `DISABLED_` or contain `/DISABLED_`. */
  lemma DisabledNames(name: string)
    ensures IsDisabledName(name) <==> StartsOrHasDisabled(name)
  {
    assert DISABLE_TEST_FILTER == ("DISABLED_" + "*") + ":" + ("*" + "/DISABLED_" + "*");
    StartsOrContains("DISABLED_", "/DISABLED_", name);
  }
}
