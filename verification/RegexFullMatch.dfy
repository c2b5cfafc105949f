/**
 The regular-expression object of the test runner. For a full match it builds a second text, meant
 to be anchored at both ends; whether it adds the end anchor depends on the last character alone.
 */
module RegexFullMatch {
  import opened Wrappers
  import opened CStrings
  import opened Pieces
  import opened SimpleRegex

  /** The text that `Init` builds for full matches. */
  function FullText(regex: string): string {
    (if regex == "" || regex[0] != '^' then "^" else "")
    + regex
    + (if regex == "" || regex[|regex| - 1] != '$' then "$" else "")
  }

  /** `memcpy` into the buffer. */
  method CopyTo(buffer: array<char>, at: nat, text: string)
    requires at + |text| <= buffer.Length
    modifies buffer
    ensures buffer[..at] == old(buffer[..at])
    ensures buffer[..at + |text|] == old(buffer[..at]) + text
  {
    forall i | 0 <= i < |text| {
      buffer[at + i] := text[i];
    }
  }

  lemma NoTerminatorInside(regex: CString)
    ensures forall i :: 0 <= i < |FullText(regex)| ==> FullText(regex)[i] != '\0'
  {
  }

  /** Two anchors and the terminator fit into the buffer. */
  method BuildFullPattern(regex: CString) returns (buffer: array<char>, end: nat)
    ensures fresh(buffer) && end < buffer.Length == |regex| + 3
    ensures buffer[..end] == FullText(regex) && buffer[end] == '\0'
    ensures forall i :: 0 <= i < end ==> buffer[i] != '\0'
  {
    buffer := new char[|regex| + 3];
    end := 0;
    if At(regex, 0) != '^' {
      buffer[end] := '^';
      end := end + 1;
    }
    ghost var front := buffer[..end];
    CopyTo(buffer, end, regex);
    end := end + |regex|;
    ghost var text := front + regex;
    assert buffer[..end] == text;
    if |regex| == 0 || regex[|regex| - 1] != '$' {
      buffer[end] := '$';
      end := end + 1;
    }
    buffer[end] := '\0';
    assert buffer[..end] == FullText(regex);
    assert forall i :: 0 <= i < end ==> buffer[i] == FullText(regex)[i];
    NoTerminatorInside(regex);
  }

  // ---------------------------------------------------------------------------------------------
  // What a full match decides
  // ---------------------------------------------------------------------------------------------

  /** The last thing in the expression is an escaped dollar sign. */
  predicate EndsInEscapedDollar(re: Regex) {
    && !re.tail.toEnd
    && re.tail.items != []
    && re.tail.items[|re.tail.items| - 1] == Item(true, '$', Once)
  }

  /** The expression that a full match searches for. */
  function Anchored(re: Regex): Regex {
    Regex(true, Tail(re.tail.items, !EndsInEscapedDollar(re)))
  }

  ghost predicate FullyMatches(re: Regex, s: string) {
    Finds(Anchored(re), s)
  }

  lemma FullTextOf(fromStart: bool, text: string)
    requires text == "" || text[0] != '^'
    ensures FullText((if fromStart then "^" else "") + text) ==
            "^" + text + (if text != "" && text[|text| - 1] == '$' then "" else "$")
  {
  }

  lemma Joins(a: string, b: string, c: string)
    ensures a + b + c == a + (b + c) && a + b + "" == a + b
  {
  }

  lemma {:induction false} EndAnchor(items: seq<Item>)
    ensures PrintTail(Tail(items, true)) == PrintTail(Tail(items, false)) + "$"
  {
    if items != [] {
      EndAnchor(items[1..]);
    }
  }

  lemma LastOfItem(item: Item)
    requires WellFormedItem(item)
    ensures var text := PrintItem(item);
            text != "" && (text[|text| - 1] == '$' <==> item == Item(true, '$', Once))
  {
  }

  lemma {:induction false} LastCharacter(items: seq<Item>)
    requires WellFormed(Tail(items, false)) && items != []
    ensures var text := PrintTail(Tail(items, false));
            text != "" && (text[|text| - 1] == '$' <==> items[|items| - 1] == Item(true, '$', Once))
  {
    hide PrintItem, WellFormedItem;
    var first, rest := PrintItem(items[0]), PrintTail(Tail(items[1..], false));
    assert PrintTail(Tail(items, false)) == first + rest;
    if |items| == 1 {
      assert WellFormedItem(items[0]);
      LastOfItem(items[0]);
      assert rest == "" && first + rest == first;
    } else {
      LastCharacter(items[1..]);
      assert (first + rest)[|first + rest| - 1] == rest[|rest| - 1];
    }
  }

  lemma NothingPrinted()
    ensures PrintTail(Tail([], false)) == ""
  {
  }

  lemma EndsInDollarSign(text: string)
    ensures (text + "$")[|text + "$"| - 1] == '$'
  {
  }

  lemma AnchoredText(items: seq<Item>, toEnd: bool)
    requires WellFormed(Tail(items, toEnd))
    ensures var text := PrintTail(Tail(items, toEnd));
            var bare := EndsInEscapedDollar(Regex(false, Tail(items, toEnd)));
            "^" + text + (if text != "" && text[|text| - 1] == '$' then "" else "$")
              == "^" + PrintTail(Tail(items, !bare))
  {
    hide PrintTail, PrintItem, WellFormedItem;
    var text := PrintTail(Tail(items, false));
    EndAnchor(items);
    if items == [] {
      NothingPrinted();
    } else {
      LastCharacter(items);
    }
    EndsInDollarSign(text);
    Joins("^", text, "$");
  }

  lemma FullTextIsAnchored(re: Regex)
    requires WellFormed(re.tail)
    ensures Read(FullText(Print(re))) == Some(Anchored(re))
  {
    var text, anchored := PrintTail(re.tail), Anchored(re);
    ReadPrinted(re.tail);
    FullTextOf(re.fromStart, text);
    AnchoredText(re.tail.items, re.tail.toEnd);
    ReadInvertsPrint("^" + PrintTail(anchored.tail), anchored);
  }

  /** A caret in front and a dollar sign behind anchor an expression. */
  lemma Anchors(items: seq<Item>)
    requires WellFormed(Tail(items, false))
    ensures var text := PrintTail(Tail(items, false));
            && Read(text) == Some(Regex(false, Tail(items, false)))
            && Read("^" + text) == Some(Regex(true, Tail(items, false)))
            && Read(text + "$") == Some(Regex(false, Tail(items, true)))
            && Read("^" + text + "$") == Some(Regex(true, Tail(items, true)))
  {
    hide Read, PrintTail;
    var text := PrintTail(Tail(items, false));
    EndAnchor(items);
    ReadInvertsPrint(text, Regex(false, Tail(items, false)));
    ReadInvertsPrint("^" + text, Regex(true, Tail(items, false)));
    ReadInvertsPrint(text + "$", Regex(false, Tail(items, true)));
    ReadInvertsPrint("^" + text + "$", Regex(true, Tail(items, true)));
    Joins("^", text, "$");
    assert "" + text == text && "" + (text + "$") == text + "$";
  }

  /** What the source promises of a full match: it decides whether the entire string is in the language. */
  ghost predicate IsExact(re: Regex) {
    forall s: CString :: FullyMatches(re, s) <==> InLanguage(re.tail.items, s)
  }

  lemma FullyMatchesAtHead(re: Regex, s: string)
    ensures FullyMatches(re, s) <==>
            exists n :: 0 <= n <= |s| && InLanguage(re.tail.items, s[..n]) && (!EndsInEscapedDollar(re) ==> n == |s|)
    ensures s[..|s|] == s
  {
    FindsAtSomeHead(Anchored(re), s);
    assert s[0..] == s;
  }

  /** A character that the item's atom matches. */
  function SampleChar(item: Item): char {
    if item.escaped then
      match item.c
      case 'd' => '0'
      case 'D' => 'a'
      case 'f' => '\U{000C}'
      case 'n' => '\n'
      case 'r' => '\r'
      case 's' => ' '
      case 'S' => 'a'
      case 't' => '\t'
      case 'v' => '\U{000B}'
      case 'w' => 'a'
      case 'W' => '-'
      case c => c
    else item.c
  }

  function Sample(items: seq<Item>): string {
    if items == [] then "" else [SampleChar(items[0])] + Sample(items[1..])
  }

  lemma SampleCharMatches(item: Item)
    requires WellFormedItem(item)
    ensures AtomMatchesChar(item.escaped, item.c, SampleChar(item)) && SampleChar(item) != '\0'
  {
  }

  lemma {:induction false} SampleInLanguage(items: seq<Item>)
    requires WellFormed(Tail(items, false))
    ensures InLanguage(items, Sample(items))
    ensures forall i :: 0 <= i < |Sample(items)| ==> Sample(items)[i] != '\0'
  {
    if items == [] {
      NoParts(ItemAccepts, "");
    } else {
      assert WellFormedItem(items[0]);
      SampleCharMatches(items[0]);
      SampleInLanguage(items[1..]);
      FirstPart(items, ItemAccepts, Sample(items));
      assert Sample(items)[..1] == [SampleChar(items[0])];
      assert Sample(items)[1..] == Sample(items[1..]);
    }
  }

  /** A string of a language whose last item is an escaped dollar sign ends in one. */
  lemma {:induction false} EndsInDollar(items: seq<Item>, s: string)
    requires items != [] && items[|items| - 1] == Item(true, '$', Once)
    ensures InLanguage(items, s) ==> s != "" && s[|s| - 1] == '$'
  {
    if InLanguage(items, s) {
      FirstPart(items, ItemAccepts, s);
      var n :| 0 <= n <= |s| && ItemAccepts(items[0], s[..n]) && InLanguage(items[1..], s[n..]);
      if |items| == 1 {
        NoParts(ItemAccepts, s[n..]);
        assert s[..n][0] == s[0];
      } else {
        EndsInDollar(items[1..], s[n..]);
      }
    }
  }

  lemma AcceptsTrailingText(re: Regex)
    requires WellFormed(re.tail) && EndsInEscapedDollar(re)
    ensures exists s: CString :: FullyMatches(re, s) && !InLanguage(re.tail.items, s)
  {
    var items := re.tail.items;
    SampleInLanguage(items);
    var s: CString := Sample(items) + "x";
    assert s[..|Sample(items)|] == Sample(items);
    FullyMatchesAtHead(re, s);
    EndsInDollar(items, s);
  }

  /**
   Main result: a full match decides the language, on all strings, if and only if the expression
   does not end in an escaped dollar sign. If it does, the end anchor is missing and every string
   with a prefix in the language is accepted (`FullyMatchesAtHead`).
   */
  lemma FullMatchIsExact(re: Regex)
    requires WellFormed(re.tail)
    ensures IsExact(re) <==> !EndsInEscapedDollar(re)
  {
    if EndsInEscapedDollar(re) {
      AcceptsTrailingText(re);
    } else {
      forall s: CString ensures FullyMatches(re, s) <==> InLanguage(re.tail.items, s) {
        FullyMatchesAtHead(re, s);
      }
    }
  }

  // ---------------------------------------------------------------------------------------------
  // An expression that accepts more than its language
  // ---------------------------------------------------------------------------------------------

  const A: Item := Item(false, 'a', Once)

  const DOLLAR: Item := Item(true, '$', Once)

  lemma EscapedDollarIsRead()
    ensures WellFormed(Tail([A, DOLLAR], false))
    ensures Read("a\\$") == Some(Regex(false, Tail([A, DOLLAR], false)))
  {
    assert PrintItem(A) == "a" && PrintItem(DOLLAR) == "\\$";
    assert [A, DOLLAR][1..] == [DOLLAR] && [DOLLAR][1..] == [];
    assert PrintTail(Tail([DOLLAR], false)) == "\\$";
    assert PrintTail(Tail([A, DOLLAR], false)) == "a\\$";
    assert WellFormedItem(A) && WellFormedItem(DOLLAR);
    ReadInvertsPrint("a\\$", Regex(false, Tail([A, DOLLAR], false)));
  }

  /** The expression `a\$` is anchored at the front only, and so fully matches the string `a$x`. */
  lemma EscapedDollarAcceptsMore()
    ensures var re := Regex(false, Tail([A, DOLLAR], false));
            && Read("a\\$") == Some(re) && FullText("a\\$") == "^a\\$"
            && FullyMatches(re, "a$x") && !InLanguage(re.tail.items, "a$x")
  {
    EscapedDollarIsRead();
    SampleInLanguage([A, DOLLAR]);
    assert [A, DOLLAR][1..] == [DOLLAR] && [DOLLAR][1..] == [];
    assert Sample([DOLLAR]) == "$";
    assert Sample([A, DOLLAR]) == "a$" && "a$x"[..2] == "a$";
    FullyMatchesAtHead(Regex(false, Tail([A, DOLLAR], false)), "a$x");
    EndsInDollar([A, DOLLAR], "a$x");
  }

  // ---------------------------------------------------------------------------------------------
  // The regular-expression object
  // ---------------------------------------------------------------------------------------------

  class RE {
    var pattern: Option<CString>
    var fullPattern: Option<CString>
    var isValid: bool

    ghost predicate Valid()
      reads this
    {
      && (pattern.Some? ==> |pattern.value| < MAX_COUNT)
      && (isValid <==> pattern.Some? && Read(pattern.value).Some?)
      && (isValid ==> fullPattern == Some(FullText(pattern.value)))
    }

    constructor (regex: Option<CString>)
      requires regex.Some? ==> |regex.value| < MAX_COUNT
      ensures Valid() && pattern == regex
    {
      pattern, fullPattern := regex, None;
      isValid := false;
      new;
      isValid := ValidateRegex(regex);
      if isValid {
        var buffer, end := BuildFullPattern(regex.value);
        fullPattern := Some(buffer[..end]);
      }
    }

    method FullMatch(str: CString) returns (r: bool)
      requires Valid() && |str| <= MAX_COUNT
      ensures r <==> isValid && FullyMatches(Read(pattern.value).value, str)
    {
      if !isValid {
        return false;
      }
      ghost var re := Read(pattern.value).value;
      ReadInvertsPrint(pattern.value, re);
      FullTextIsAnchored(re);
      r := MatchRegexAnywhere(fullPattern, Some(str));
    }

    method PartialMatch(str: CString) returns (r: bool)
      requires Valid() && |str| <= MAX_COUNT
      ensures r <==> isValid && Finds(Read(pattern.value).value, str)
    {
      if !isValid {
        return false;
      }
      r := MatchRegexAnywhere(pattern, Some(str));
    }
  }
}
