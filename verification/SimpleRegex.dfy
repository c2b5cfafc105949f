/**
 The small regular-expression matcher. A regular expression is given its meaning through its syntax
 tree; the validator and the matcher work on the text, and are proved against the tree.
 */
module SimpleRegex {
  import opened Wrappers
  import opened CStrings
  import opened Pieces

  // ---------------------------------------------------------------------------------------------
  // Syntax
  // ---------------------------------------------------------------------------------------------

  datatype Repeat = Once | Optional | Star | Plus

  datatype Item = Item(escaped: bool, c: char, repeat: Repeat)

  datatype Tail = Tail(items: seq<Item>, toEnd: bool)

  datatype Regex = Regex(fromStart: bool, tail: Tail)

  const PUNCTUATION := "^-!\"#$%&'()*+,./:;<=>?@[\\]_`{|}~"

  predicate IsAsciiDigit(c: char) {
    '0' <= c <= '9'
  }

  predicate IsAsciiPunct(c: char) {
    c in PUNCTUATION
  }

  predicate IsRepeat(c: char) {
    c in "?*+"
  }

  /** Space, form feed, newline, carriage return, tab, vertical tab. */
  predicate IsAsciiWhiteSpace(c: char) {
    c in " \U{000C}\n\r\t\U{000B}"
  }

  predicate IsAsciiWordChar(c: char) {
    'a' <= c <= 'z' || 'A' <= c <= 'Z' || '0' <= c <= '9' || c == '_'
  }

  predicate IsValidEscape(c: char) {
    IsAsciiPunct(c) || c in "dDfnrsStvwW"
  }

  /** Characters that stand for an atom without a backslash. */
  predicate IsPlainAtom(c: char) {
    c != '\0' && c !in "^$\\?*+()[]{}|"
  }

  predicate WellFormedItem(item: Item) {
    if item.escaped then IsValidEscape(item.c) else IsPlainAtom(item.c)
  }

  ghost predicate WellFormed(tail: Tail) {
    forall i :: 0 <= i < |tail.items| ==> WellFormedItem(tail.items[i])
  }

  function PrintRepeat(r: Repeat): string {
    match r
    case Once => ""
    case Optional => "?"
    case Star => "*"
    case Plus => "+"
  }

  function PrintItem(item: Item): string {
    (if item.escaped then ['\\', item.c] else [item.c]) + PrintRepeat(item.repeat)
  }

  function PrintTail(tail: Tail): string
    decreases |tail.items|
  {
    if tail.items == [] then if tail.toEnd then "$" else ""
    else PrintItem(tail.items[0]) + PrintTail(Tail(tail.items[1..], tail.toEnd))
  }

  function Print(re: Regex): string {
    (if re.fromStart then "^" else "") + PrintTail(re.tail)
  }

  // ---------------------------------------------------------------------------------------------
  // Meaning
  // ---------------------------------------------------------------------------------------------

  predicate AtomMatchesChar(escaped: bool, p: char, ch: char) {
    if escaped then
      match p
      case 'd' => IsAsciiDigit(ch)
      case 'D' => !IsAsciiDigit(ch)
      case 'f' => ch == '\U{000C}'
      case 'n' => ch == '\n'
      case 'r' => ch == '\r'
      case 's' => IsAsciiWhiteSpace(ch)
      case 'S' => !IsAsciiWhiteSpace(ch)
      case 't' => ch == '\t'
      case 'v' => ch == '\U{000B}'
      case 'w' => IsAsciiWordChar(ch)
      case 'W' => !IsAsciiWordChar(ch)
      case _ => IsAsciiPunct(p) && p == ch
    else (p == '.' && ch != '\n') || p == ch
  }

  ghost predicate AllMatch(escaped: bool, c: char, piece: string) {
    forall i :: 0 <= i < |piece| ==> AtomMatchesChar(escaped, c, piece[i])
  }

  /** An item accepts as many characters as it may repeat, each of which its atom matches. */
  ghost predicate ItemAccepts(item: Item, piece: string) {
    && (item.repeat.Once? ==> |piece| == 1)
    && (item.repeat.Optional? ==> |piece| <= 1)
    && (item.repeat.Plus? ==> |piece| >= 1)
    && AllMatch(item.escaped, item.c, piece)
  }

  ghost predicate InLanguage(items: seq<Item>, s: string) {
    Describes(items, ItemAccepts, s)
  }

  /** Some prefix of `s`, or all of it when the expression ends in `$`, is in the language. */
  ghost predicate MatchesHead(tail: Tail, s: string) {
    exists n :: 0 <= n <= |s| && InLanguage(tail.items, s[..n]) && (tail.toEnd ==> n == |s|)
  }

  /** Some substring of `s` is in the language, at the ends that `^` and `$` ask for. */
  ghost predicate Finds(re: Regex, s: string) {
    exists a, b :: 0 <= a <= b <= |s| && InLanguage(re.tail.items, s[a..b])
      && (re.fromStart ==> a == 0) && (re.tail.toEnd ==> b == |s|)
  }

  // ---------------------------------------------------------------------------------------------
  // What single items and repetitions describe
  // ---------------------------------------------------------------------------------------------

  lemma OnePiece(item: Item, s: string)
    ensures InLanguage([item], s) <==> ItemAccepts(item, s)
  {
    hide ItemAccepts;
    FirstPart([item], ItemAccepts, s);
    assert s[..|s|] == s && [item][1..] == [];
    forall n | 0 <= n <= |s| ensures Describes([item][1..], ItemAccepts, s[n..]) <==> s[n..] == "" {
      NoParts<Item>(ItemAccepts, s[n..]);
    }
  }

  lemma OneAtomDescribes(escaped: bool, c: char, s: string)
    ensures InLanguage([Item(escaped, c, Once)], s) <==> |s| == 1 && AtomMatchesChar(escaped, c, s[0])
  {
    hide AtomMatchesChar;
    OnePiece(Item(escaped, c, Once), s);
  }

  /** `.` describes any character but a newline, every other plain character itself. */
  lemma PlainCharacters(c: char, s: string)
    ensures InLanguage([Item(false, '.', Once)], s) <==> |s| == 1 && s != "\n"
    ensures c != '.' ==> (InLanguage([Item(false, c, Once)], s) <==> s == [c])
  {
    OneAtomDescribes(false, '.', s);
    OneAtomDescribes(false, c, s);
  }

  /** The classes and their complements. */
  lemma CharacterClasses(s: string)
    ensures InLanguage([Item(true, 'd', Once)], s) <==> |s| == 1 && '0' <= s[0] <= '9'
    ensures InLanguage([Item(true, 's', Once)], s) <==>
            s == " " || s == "\t" || s == "\n" || s == "\r" || s == ['\U{000B}'] || s == ['\U{000C}']
    ensures InLanguage([Item(true, 'w', Once)], s) <==>
            |s| == 1 && ('a' <= s[0] <= 'z' || 'A' <= s[0] <= 'Z' || '0' <= s[0] <= '9' || s[0] == '_')
    ensures InLanguage([Item(true, 'D', Once)], s) <==> |s| == 1 && !InLanguage([Item(true, 'd', Once)], s)
    ensures InLanguage([Item(true, 'S', Once)], s) <==> |s| == 1 && !InLanguage([Item(true, 's', Once)], s)
    ensures InLanguage([Item(true, 'W', Once)], s) <==> |s| == 1 && !InLanguage([Item(true, 'w', Once)], s)
  {
    hide InLanguage;
    OneAtomDescribes(true, 'd', s);
    OneAtomDescribes(true, 's', s);
    OneAtomDescribes(true, 'w', s);
    OneAtomDescribes(true, 'D', s);
    OneAtomDescribes(true, 'S', s);
    OneAtomDescribes(true, 'W', s);
  }

  lemma ControlCharacters(s: string)
    ensures InLanguage([Item(true, 'f', Once)], s) <==> s == ['\U{000C}']
    ensures InLanguage([Item(true, 'n', Once)], s) <==> s == "\n"
    ensures InLanguage([Item(true, 'r', Once)], s) <==> s == "\r"
    ensures InLanguage([Item(true, 't', Once)], s) <==> s == "\t"
    ensures InLanguage([Item(true, 'v', Once)], s) <==> s == ['\U{000B}']
  {
    hide InLanguage;
    OneAtomDescribes(true, 'f', s);
    OneAtomDescribes(true, 'n', s);
    OneAtomDescribes(true, 'r', s);
    OneAtomDescribes(true, 't', s);
    OneAtomDescribes(true, 'v', s);
  }

  /** ASCII: what is visible and neither a letter nor a digit. */
  predicate InPunctuationRanges(c: char) {
    '!' <= c <= '/' || ':' <= c <= '@' || '[' <= c <= '`' || '{' <= c <= '~'
  }

  lemma PunctuationIsRanges(c: char)
    ensures IsAsciiPunct(c) <==> InPunctuationRanges(c)
  {
  }

  /** An escaped punctuation mark stands for itself. */
  lemma EscapedPunctuation(c: char, s: string)
    requires InPunctuationRanges(c)
    ensures InLanguage([Item(true, c, Once)], s) <==> s == [c]
  {
    hide InLanguage, IsAsciiPunct;
    PunctuationIsRanges(c);
    OneAtomDescribes(true, c, s);
  }

  lemma SomePiece(item: Item, rest: seq<Item>, s: string)
    ensures InLanguage([item] + rest, s) <==>
            exists n :: 0 <= n <= |s| && ItemAccepts(item, s[..n]) && InLanguage(rest, s[n..])
  {
    hide ItemAccepts;
    FirstPart([item] + rest, ItemAccepts, s);
    assert ([item] + rest)[1..] == rest;
  }

  /** An optional atom stands for none or one. */
  lemma OptionalIsNoneOrOne(escaped: bool, c: char, rest: seq<Item>, s: string)
    ensures InLanguage([Item(escaped, c, Optional)] + rest, s) <==>
            InLanguage(rest, s) || InLanguage([Item(escaped, c, Once)] + rest, s)
  {
    hide InLanguage, AtomMatchesChar;
    SomePiece(Item(escaped, c, Optional), rest, s);
    SomePiece(Item(escaped, c, Once), rest, s);
    assert s[0..] == s;
  }

  lemma FirstAndOthers(escaped: bool, c: char, piece: string)
    requires piece != ""
    ensures AllMatch(escaped, c, piece) <==> AllMatch(escaped, c, piece[..1]) && AllMatch(escaped, c, piece[1..])
  {
    hide AtomMatchesChar;
    if AllMatch(escaped, c, piece[..1]) && AllMatch(escaped, c, piece[1..]) {
      forall i | 0 <= i < |piece| ensures AtomMatchesChar(escaped, c, piece[i]) {
        assert i == 0 ==> piece[i] == piece[..1][0];
        assert i > 0 ==> piece[i] == piece[1..][i - 1];
      }
    }
  }

  /** More than no atoms: the first, and the others. */
  lemma MoreAtoms(escaped: bool, c: char, s: string, n: nat)
    requires 0 < n <= |s|
    ensures s[1..][n - 1..] == s[n..]
    ensures var more := && ItemAccepts(Item(escaped, c, Once), s[..1])
                        && ItemAccepts(Item(escaped, c, Star), s[1..][..n - 1]);
            && (ItemAccepts(Item(escaped, c, Star), s[..n]) <==> more)
            && (ItemAccepts(Item(escaped, c, Plus), s[..n]) <==> more)
  {
    hide AtomMatchesChar;
    FirstAndOthers(escaped, c, s[..n]);
    assert s[..n][..1] == s[..1] && s[..n][1..] == s[1..][..n - 1];
  }

  /** One atom, and then what `[Item(escaped, c, Star)] + rest` describes. */
  lemma OneThenStar(escaped: bool, c: char, rest: seq<Item>, s: string)
    ensures InLanguage([Item(escaped, c, Once)] + ([Item(escaped, c, Star)] + rest), s) <==>
            exists n :: 0 < n <= |s| && ItemAccepts(Item(escaped, c, Plus), s[..n]) && InLanguage(rest, s[n..])
  {
    hide InLanguage, AtomMatchesChar;
    var once, star, plus := Item(escaped, c, Once), Item(escaped, c, Star), Item(escaped, c, Plus);
    SomePiece(once, [star] + rest, s);
    if s != "" {
      SomePiece(star, rest, s[1..]);
      forall n | 0 < n <= |s|
        ensures s[1..][n - 1..] == s[n..]
        ensures ItemAccepts(plus, s[..n]) <==> ItemAccepts(once, s[..1]) && ItemAccepts(star, s[1..][..n - 1])
      {
        MoreAtoms(escaped, c, s, n);
      }
      forall m | 0 <= m <= |s[1..]| ensures s[1..][m..] == s[m + 1..] {
      }
    }
  }

  /** A starred atom stands for none, or for one and then a starred atom again. */
  lemma StarIsNoneOrMore(escaped: bool, c: char, rest: seq<Item>, s: string)
    ensures InLanguage([Item(escaped, c, Star)] + rest, s) <==>
            || InLanguage(rest, s)
            || InLanguage([Item(escaped, c, Once)] + ([Item(escaped, c, Star)] + rest), s)
  {
    hide InLanguage, AtomMatchesChar;
    SomePiece(Item(escaped, c, Star), rest, s);
    OneThenStar(escaped, c, rest, s);
    assert s[0..] == s;
  }

  /** An atom with a plus stands for one and then a starred atom. */
  lemma PlusIsOneThenStar(escaped: bool, c: char, rest: seq<Item>, s: string)
    ensures InLanguage([Item(escaped, c, Plus)] + rest, s) <==>
            InLanguage([Item(escaped, c, Once)] + ([Item(escaped, c, Star)] + rest), s)
  {
    hide InLanguage, AtomMatchesChar;
    SomePiece(Item(escaped, c, Plus), rest, s);
    OneThenStar(escaped, c, rest, s);
  }

  // ---------------------------------------------------------------------------------------------
  // Reading the text of an expression
  // ---------------------------------------------------------------------------------------------

  function RepeatOf(c: char): Repeat
    requires IsRepeat(c)
  {
    if c == '?' then Optional else if c == '*' then Star else Plus
  }

  /** The first item of a text and how many characters it takes. */
  function ReadItem(r: string): (result: Option<(Item, nat)>)
    requires r != ""
    ensures result.Some? ==> 1 <= result.value.1 <= |r|
  {
    var escaped := r[0] == '\\';
    if escaped && (|r| < 2 || !IsValidEscape(r[1])) then None
    else if !escaped && !IsPlainAtom(r[0]) then None
    else
      var n := if escaped then 2 else 1;
      if n < |r| && IsRepeat(r[n]) then Some((Item(escaped, r[n - 1], RepeatOf(r[n])), n + 1))
      else Some((Item(escaped, r[n - 1], Once), n))
  }

  function Prepend(item: Item, rest: Option<Tail>): Option<Tail> {
    if rest.None? then None else Some(Tail([item] + rest.value.items, rest.value.toEnd))
  }

  function ReadTail(r: string): Option<Tail> {
    if r == "" then Some(Tail([], false))
    else if r == "$" then Some(Tail([], true))
    else if ReadItem(r).None? then None
    else Prepend(ReadItem(r).value.0, ReadTail(r[ReadItem(r).value.1..]))
  }

  function Read(r: string): Option<Regex> {
    var fromStart := r != "" && r[0] == '^';
    match ReadTail(if fromStart then r[1..] else r)
    case None => None
    case Some(tail) => Some(Regex(fromStart, tail))
  }

  /** A text that does not start with a repetition character. */
  predicate NoRepeatFirst(r: string) {
    r == "" || !IsRepeat(r[0])
  }

  lemma PlainAtomIsPlain(c: char)
    ensures IsPlainAtom(c) ==> c != '\\' && c != '^' && c != '$' && !IsRepeat(c)
  {
  }

  lemma RepeatIsRead(r: Repeat)
    ensures !IsRepeat('\\')
    ensures if r.Once? then PrintRepeat(r) == ""
            else |PrintRepeat(r)| == 1 && IsRepeat(PrintRepeat(r)[0]) && RepeatOf(PrintRepeat(r)[0]) == r
  {
  }

  lemma ReadPrintedItem(item: Item, rest: string)
    requires WellFormedItem(item) && NoRepeatFirst(rest)
    ensures var text := PrintItem(item);
            && ReadItem(text + rest) == Some((item, |text|))
            && text[0] != '$' && text[0] != '^' && !IsRepeat(text[0])
  {
    hide IsPlainAtom, IsValidEscape, IsRepeat, PrintRepeat, RepeatOf;
    PlainAtomIsPlain(item.c);
    RepeatIsRead(item.repeat);
    var r := PrintItem(item) + rest;
    var n := if item.escaped then 2 else 1;
    assert r[n - 1] == item.c;
    if item.repeat.Once? {
      assert r[n..] == rest;
    } else {
      assert r[n] == PrintRepeat(item.repeat)[0];
    }
  }

  lemma PrintReadItem(r: string)
    requires r != "" && ReadItem(r).Some?
    ensures var (item, n) := ReadItem(r).value;
            && WellFormedItem(item) && 1 <= n <= |r| && PrintItem(item) == r[..n]
  {
    var (item, n) := ReadItem(r).value;
    var m := if item.escaped then 2 else 1;
    assert r[..m] == if item.escaped then ['\\', item.c] else [item.c];
    if item.repeat.Once? {
      assert r[..n] == r[..m];
    } else {
      assert r[..n] == r[..m] + [r[m]];
    }
  }

  lemma {:induction false} ReadPrinted(tail: Tail)
    requires WellFormed(tail)
    ensures ReadTail(PrintTail(tail)) == Some(tail)
    ensures NoRepeatFirst(PrintTail(tail)) && (PrintTail(tail) != "" ==> PrintTail(tail)[0] != '^')
    decreases |tail.items|
  {
    if tail.items != [] {
      var item, rest := tail.items[0], Tail(tail.items[1..], tail.toEnd);
      ReadPrinted(rest);
      ReadPrintedItem(item, PrintTail(rest));
      var r := PrintItem(item) + PrintTail(rest);
      assert r[|PrintItem(item)|..] == PrintTail(rest);
      assert tail.items == [item] + rest.items;
    }
  }

  lemma {:induction false} PrintRead(r: string)
    requires ReadTail(r).Some?
    ensures WellFormed(ReadTail(r).value) && PrintTail(ReadTail(r).value) == r
    decreases |r|
  {
    if r != "" && r != "$" {
      PrintReadItem(r);
      var (item, n) := ReadItem(r).value;
      PrintRead(r[n..]);
      var rest := ReadTail(r[n..]).value;
      assert ([item] + rest.items)[1..] == rest.items;
    }
  }

  /** Reading is the exact inverse of printing, so the notation is unambiguous. */
  lemma ReadInvertsPrint(r: string, re: Regex)
    ensures Read(r) == Some(re) <==> WellFormed(re.tail) && Print(re) == r
  {
    if Read(r) == Some(re) {
      PrintRead(if re.fromStart then r[1..] else r);
    }
    if WellFormed(re.tail) && Print(re) == r {
      ReadPrinted(re.tail);
      if re.fromStart {
        assert r[1..] == PrintTail(re.tail);
      } else {
        assert r == PrintTail(re.tail);
      }
    }
  }

  /** The expression that consists of one item. */
  function Single(item: Item): Regex {
    Regex(false, Tail([item], false))
  }

  lemma ReadSingle(item: Item)
    ensures Read(PrintItem(item)) == Some(Single(item)) <==> WellFormedItem(item)
  {
    hide WellFormedItem;
    assert [item][1..] == [];
    assert PrintTail(Tail([item], false)) == PrintItem(item);
    ReadInvertsPrint(PrintItem(item), Single(item));
  }

  /** Which characters stand for an atom on their own. */
  lemma PlainAtoms(c: char)
    ensures Read([c]) == Some(Single(Item(false, c, Once))) <==>
            && c != '\0' && c != '^' && c != '$' && c != '\\' && c != '?' && c != '*' && c != '+' && c != '|'
            && c != '(' && c != ')' && c != '[' && c != ']' && c != '{' && c != '}'
  {
    hide Read;
    ReadSingle(Item(false, c, Once));
    assert PrintItem(Item(false, c, Once)) == [c];
  }

  lemma EscapeIsValid(c: char)
    ensures IsValidEscape(c) <==>
            || IsAsciiPunct(c)
            || c == 'd' || c == 'D' || c == 's' || c == 'S' || c == 'w' || c == 'W'
            || c == 'f' || c == 'n' || c == 'r' || c == 't' || c == 'v'
  {
    hide IsAsciiPunct;
  }

  lemma EscapeIsRead(c: char)
    ensures Read(['\\', c]) == if IsValidEscape(c) then Some(Single(Item(true, c, Once))) else None
  {
    hide IsValidEscape;
    if IsValidEscape(c) {
      ReadSingle(Item(true, c, Once));
      assert PrintItem(Item(true, c, Once)) == ['\\', c];
    }
  }

  /** Which characters may be escaped; everything else after a backslash makes the expression invalid. */
  lemma Escapes(c: char)
    ensures var valid := || InPunctuationRanges(c)
                         || c == 'd' || c == 'D' || c == 's' || c == 'S' || c == 'w' || c == 'W'
                         || c == 'f' || c == 'n' || c == 'r' || c == 't' || c == 'v';
            Read(['\\', c]) == if valid then Some(Single(Item(true, c, Once))) else None
  {
    PunctuationIsRanges(c);
    EscapeIsValid(c);
    EscapeIsRead(c);
  }

  lemma RepeatDoesNotMatter(item: Item, r: Repeat)
    ensures WellFormedItem(item.(repeat := r)) <==> WellFormedItem(item)
  {
  }

  /** The three repetition characters. */
  lemma Repetitions(item: Item)
    requires WellFormedItem(item) && item.repeat.Once?
    ensures Read(PrintItem(item) + "?") == Some(Single(item.(repeat := Optional)))
    ensures Read(PrintItem(item) + "*") == Some(Single(item.(repeat := Star)))
    ensures Read(PrintItem(item) + "+") == Some(Single(item.(repeat := Plus)))
  {
    hide WellFormedItem, Read;
    forall r: Repeat ensures WellFormedItem(item.(repeat := r)) {
      RepeatDoesNotMatter(item, r);
    }
    ReadSingle(item.(repeat := Optional));
    ReadSingle(item.(repeat := Star));
    ReadSingle(item.(repeat := Plus));
    assert PrintItem(item) + "?" == PrintItem(item.(repeat := Optional));
    assert PrintItem(item) + "*" == PrintItem(item.(repeat := Star));
    assert PrintItem(item) + "+" == PrintItem(item.(repeat := Plus));
  }

  // ---------------------------------------------------------------------------------------------
  // The validator
  // ---------------------------------------------------------------------------------------------

  /** What may still follow when an atom that can be repeated has just been read, or not. */
  ghost predicate Acceptable(r: string, repeatable: bool) {
    ReadTail(r).Some? || (repeatable && r != "" && IsRepeat(r[0]) && ReadTail(r[1..]).Some?)
  }

  lemma AcceptableEscape(r: string, repeatable: bool)
    requires r != "" && r[0] == '\\'
    ensures Acceptable(r, repeatable) <==> |r| >= 2 && IsValidEscape(r[1]) && Acceptable(r[2..], true)
  {
  }

  lemma AcceptableCharacter(r: string, repeatable: bool)
    requires r != "" && r[0] != '\\' && r[0] != '\0'
    ensures Acceptable(r, repeatable) <==>
            && r[0] != '^' && (r[0] == '$' ==> |r| == 1) && r[0] !in "()[]{}|"
            && (IsRepeat(r[0]) ==> repeatable)
            && Acceptable(r[1..], r[0] !in "^$?*+")
  {
  }

  /** What the validator knows after `i` characters: `valid` so far, and what it needs of the rest. */
  ghost predicate Scanned(regex: CString, i: nat, valid: bool, repeatable: bool)
    requires i <= |regex|
  {
    && (i == 0 ==> valid && !repeatable)
    && (i > 0 || regex == "" || regex[0] != '^' ==>
          (Read(regex).Some? <==> valid && Acceptable(regex[i..], repeatable)))
  }

  lemma ScanStarts(regex: CString)
    ensures Scanned(regex, 0, true, false)
  {
    assert regex[0..] == regex;
  }

  lemma ScanEnds(regex: CString, valid: bool, repeatable: bool)
    requires Scanned(regex, |regex|, valid, repeatable)
    ensures valid <==> Read(regex).Some?
  {
  }

  lemma ScanEscape(regex: CString, i: nat, valid: bool, repeatable: bool)
    requires i < |regex| && regex[i] == '\\' && Scanned(regex, i, valid, repeatable)
    ensures i + 1 == |regex| ==> Read(regex).None?
    ensures i + 1 < |regex| ==> Scanned(regex, i + 2, valid && IsValidEscape(regex[i + 1]), true)
  {
    hide Read, Acceptable, IsValidEscape;
    AcceptableEscape(regex[i..], repeatable);
    assert i + 1 < |regex| ==> regex[i..][2..] == regex[i + 2..];
  }

  /** The tests that the validator makes on a character that starts no escape. */
  predicate IsAdmissible(regex: CString, i: nat, repeatable: bool)
    requires i < |regex|
  {
    var ch := regex[i];
    && !(ch == '^' && i > 0)
    && !(ch == '$' && At(regex, i + 1) != '\0')
    && ch !in "()[]{}|"
    && !(IsRepeat(ch) && !repeatable)
  }

  lemma ScanCaret(regex: CString)
    requires regex != "" && regex[0] == '^'
    ensures Scanned(regex, 1, IsAdmissible(regex, 0, false), false)
  {
  }

  lemma ScanCharacter(regex: CString, i: nat, valid: bool, repeatable: bool)
    requires i < |regex| && regex[i] != '\\' && Scanned(regex, i, valid, repeatable)
    ensures Scanned(regex, i + 1, valid && IsAdmissible(regex, i, repeatable), regex[i] !in "^$?*+")
  {
    hide Read, Acceptable, IsRepeat;
    if i == 0 && regex[0] == '^' {
      ScanCaret(regex);
    } else {
      AcceptableCharacter(regex[i..], repeatable);
      assert regex[i..][1..] == regex[i + 1..];
    }
  }

  method IsValidText(regex: CString) returns (valid: bool)
    ensures valid <==> Read(regex).Some?
  {
    hide Read, Scanned, IsValidEscape;
    valid := true;
    var prevRepeatable := false;
    var i := 0;
    ScanStarts(regex);
    while i < |regex|
      invariant i <= |regex| && Scanned(regex, i, valid, prevRepeatable)
    {
      if regex[i] == '\\' {
        ScanEscape(regex, i, valid, prevRepeatable);
        i := i + 1;
        if i == |regex| {
          return false;
        }
        if !IsValidEscape(regex[i]) {
          valid := false;
        }
        prevRepeatable := true;
      } else {
        var ch := regex[i];
        ScanCharacter(regex, i, valid, prevRepeatable);
        if ch == '^' && i > 0 {
          valid := false;
        } else if ch == '$' && At(regex, i + 1) != '\0' {
          valid := false;
        } else if ch in "()[]{}|" {
          valid := false;
        } else if IsRepeat(ch) && !prevRepeatable {
          valid := false;
        }
        prevRepeatable := ch !in "^$?*+";
      }
      i := i + 1;
    }
    ScanEnds(regex, valid, prevRepeatable);
  }

  /** Accepts exactly the texts of well-formed expressions. */
  method ValidateRegex(regex: Option<CString>) returns (valid: bool)
    ensures valid <==> regex.Some? && exists re: Regex :: WellFormed(re.tail) && Print(re) == regex.value
    ensures valid <==> regex.Some? && Read(regex.value).Some?
  {
    if regex.None? {
      return false;
    }
    valid := IsValidText(regex.value);
    if valid {
      ReadInvertsPrint(regex.value, Read(regex.value).value);
    }
    forall re: Regex | WellFormed(re.tail) && Print(re) == regex.value ensures valid {
      ReadInvertsPrint(regex.value, re);
    }
  }

  // ---------------------------------------------------------------------------------------------
  // The matcher
  // ---------------------------------------------------------------------------------------------

  /** `static_cast<size_t>(-1) - 1` on a 64-bit machine. */
  const MAX_COUNT: nat := 0xFFFF_FFFF_FFFF_FFFE

  lemma CutTwice(s: string, n: nat, m: nat)
    requires n <= m <= |s|
    ensures s[..m][..n] == s[..n] && s[..m][n..] == s[n..][..m - n]
  {
  }

  lemma FirstItemTakes(item: Item, tail: Tail, s: string)
    requires MatchesHead(Tail([item] + tail.items, tail.toEnd), s)
    ensures exists n :: 0 <= n <= |s| && ItemAccepts(item, s[..n]) && MatchesHead(tail, s[n..])
  {
    hide ItemAccepts;
    var items := [item] + tail.items;
    var m :| 0 <= m <= |s| && InLanguage(items, s[..m]) && (tail.toEnd ==> m == |s|);
    FirstPart(items, ItemAccepts, s[..m]);
    assert items[1..] == tail.items;
    var n :| 0 <= n <= m && ItemAccepts(item, s[..m][..n]) && InLanguage(tail.items, s[..m][n..]);
    CutTwice(s, n, m);
    assert InLanguage(tail.items, s[n..][..m - n]);
  }

  lemma FirstItemGives(item: Item, tail: Tail, s: string, n: nat)
    requires n <= |s| && ItemAccepts(item, s[..n]) && MatchesHead(tail, s[n..])
    ensures MatchesHead(Tail([item] + tail.items, tail.toEnd), s)
  {
    hide ItemAccepts;
    var items := [item] + tail.items;
    var k :| 0 <= k <= |s[n..]| && InLanguage(tail.items, s[n..][..k]) && (tail.toEnd ==> k == |s[n..]|);
    CutTwice(s, n, n + k);
    FirstPart(items, ItemAccepts, s[..n + k]);
    assert items[1..] == tail.items;
    assert InLanguage(items, s[..n + k]);
  }

  /** The first item takes some prefix and the rest of the expression matches at the head of the rest. */
  lemma FirstItem(item: Item, tail: Tail, s: string)
    ensures MatchesHead(Tail([item] + tail.items, tail.toEnd), s) <==>
            exists n :: 0 <= n <= |s| && ItemAccepts(item, s[..n]) && MatchesHead(tail, s[n..])
  {
    hide ItemAccepts, MatchesHead;
    if MatchesHead(Tail([item] + tail.items, tail.toEnd), s) {
      FirstItemTakes(item, tail, s);
    }
    forall n | 0 <= n <= |s| && ItemAccepts(item, s[..n]) && MatchesHead(tail, s[n..])
      ensures MatchesHead(Tail([item] + tail.items, tail.toEnd), s)
    {
      FirstItemGives(item, tail, s, n);
    }
  }

  lemma NothingLeft(toEnd: bool, s: string)
    ensures MatchesHead(Tail([], toEnd), s) <==> toEnd ==> s == ""
  {
    NoParts(ItemAccepts, s[..0]);
    NoParts(ItemAccepts, s);
    assert s[..|s|] == s;
  }

  /** Enough atoms at the head, and the rest matches behind them. */
  lemma RepeatSucceeds(item: Item, tail: Tail, s: string, i: nat)
    requires i <= |s| && ItemAccepts(item, s[..i]) && MatchesHead(tail, s[i..])
    ensures MatchesHead(Tail([item] + tail.items, tail.toEnd), s)
  {
    FirstItem(item, tail, s);
  }

  /** No admissible number of atoms up to `i` works, and there cannot be more than `i`. */
  lemma RepeatFails(item: Item, tail: Tail, s: string, i: nat)
    requires i <= |s|
    requires forall n :: (if item.repeat.Plus? then 1 else 0) <= n <= i ==> !MatchesHead(tail, s[n..])
    requires (item.repeat.Optional? && i == 1) || i == |s| || !AtomMatchesChar(item.escaped, item.c, s[i])
    ensures !MatchesHead(Tail([item] + tail.items, tail.toEnd), s)
  {
    FirstItem(item, tail, s);
    assert forall n :: i < n <= |s| ==> s[..n][i] == s[i];
  }

  lemma OneAtom(item: Item, tail: Tail, s: string)
    requires item.repeat.Once?
    ensures MatchesHead(Tail([item] + tail.items, tail.toEnd), s) <==>
            s != "" && AtomMatchesChar(item.escaped, item.c, s[0]) && MatchesHead(tail, s[1..])
  {
    FirstItem(item, tail, s);
    if s != "" && AtomMatchesChar(item.escaped, item.c, s[0]) {
      assert ItemAccepts(item, s[..1]);
    }
  }

  lemma ReadFirst(regex: string)
    requires regex != "" && regex != "$" && ReadTail(regex).Some?
    ensures regex[0] != '$' && ReadItem(regex).Some?
    ensures var (item, n) := ReadItem(regex).value;
            ReadTail(regex[n..]).Some? && ReadTail(regex) == Prepend(item, ReadTail(regex[n..]))
  {
  }

  /** Where `MatchRegexAtHead` cuts the text is where `ReadItem` cuts it. */
  lemma ItemShape(regex: string)
    requires regex != "" && ReadItem(regex).Some?
    ensures var escaped := regex[0] == '\\';
            var at := if escaped then 1 else 0;
            var repeated := at + 1 < |regex| && IsRepeat(regex[at + 1]);
            && at < |regex|
            && ReadItem(regex).value == if repeated
               then (Item(escaped, regex[at], RepeatOf(regex[at + 1])), at + 2)
               else (Item(escaped, regex[at], Once), at + 1)
  {
  }

  method MatchRegexAtHead(regex: CString, str: CString) returns (r: bool)
    requires ReadTail(regex).Some? && |str| <= MAX_COUNT
    ensures r <==> MatchesHead(ReadTail(regex).value, str)
    decreases |regex|, 0
  {
    if regex == "" {
      NothingLeft(false, str);
      return true;
    }
    if regex != "$" {
      ReadFirst(regex);
    }
    if regex[0] == '$' {
      NothingLeft(true, str);
      return str == "";
    }
    ItemShape(regex);
    var escaped := regex[0] == '\\';
    var rest := if escaped then From(regex, 1) else regex;
    var c := rest[0];
    if IsRepeat(At(rest, 1)) {
      r := MatchRepetitionAndRegexAtHead(escaped, c, rest[1], From(rest, 2), str);
    } else {
      OneAtom(Item(escaped, c, Once), ReadTail(From(rest, 1)).value, str);
      if str != "" && AtomMatchesChar(escaped, c, str[0]) {
        r := MatchRegexAtHead(From(rest, 1), From(str, 1));
      } else {
        return false;
      }
    }
  }

  /** One atom, repeated as `repeat` says, and then `regex`. */
  method MatchRepetitionAndRegexAtHead(escaped: bool, c: char, repeat: char, regex: CString, str: CString)
    returns (r: bool)
    requires IsRepeat(repeat) && ReadTail(regex).Some? && |str| <= MAX_COUNT
    ensures var tail := ReadTail(regex).value;
            r <==> MatchesHead(Tail([Item(escaped, c, RepeatOf(repeat))] + tail.items, tail.toEnd), str)
    decreases |regex|, 1
  {
    hide MatchesHead, InLanguage, ReadTail, AtomMatchesChar;
    ghost var item, tail := Item(escaped, c, RepeatOf(repeat)), ReadTail(regex).value;
    var minCount := if repeat == '+' then 1 else 0;
    var maxCount := if repeat == '?' then 1 else MAX_COUNT;
    var i := 0;
    while i <= maxCount
      invariant i <= |str| && i <= maxCount + 1
      invariant forall j :: 0 <= j < i ==> AtomMatchesChar(escaped, c, str[j])
      invariant forall j :: minCount <= j < i ==> !MatchesHead(tail, str[j..])
      decreases maxCount + 1 - i
    {
      if i >= minCount {
        var rest := MatchRegexAtHead(regex, From(str, i));
        if rest {
          RepeatSucceeds(item, tail, str, i);
          return true;
        }
      }
      if At(str, i) == '\0' || !AtomMatchesChar(escaped, c, str[i]) {
        RepeatFails(item, tail, str, i);
        return false;
      }
      i := i + 1;
    }
    RepeatFails(item, tail, str, 1);
    return false;
  }

  lemma FindsAtSomeHead(re: Regex, s: string)
    ensures Finds(re, s) <==> exists a :: 0 <= a <= |s| && MatchesHead(re.tail, s[a..]) && (re.fromStart ==> a == 0)
  {
    if a, b :| 0 <= a <= b <= |s| && InLanguage(re.tail.items, s[a..b])
               && (re.fromStart ==> a == 0) && (re.tail.toEnd ==> b == |s|) {
      assert s[a..][..b - a] == s[a..b];
    }
    if a :| 0 <= a <= |s| && MatchesHead(re.tail, s[a..]) && (re.fromStart ==> a == 0) {
      var n :| 0 <= n <= |s[a..]| && InLanguage(re.tail.items, s[a..][..n]) && (re.tail.toEnd ==> n == |s[a..]|);
      assert s[a..][..n] == s[a..a + n];
    }
  }

  /** Main result: on the text of a well-formed expression the search decides exactly `Finds`. */
  method MatchRegexAnywhere(regex: Option<CString>, str: Option<CString>) returns (r: bool)
    requires regex.Some? ==> Read(regex.value).Some?
    requires str.Some? ==> |str.value| <= MAX_COUNT
    ensures r <==> regex.Some? && str.Some? && Finds(Read(regex.value).value, str.value)
  {
    if regex.None? || str.None? {
      return false;
    }
    ghost var re := Read(regex.value).value;
    var s := str.value;
    FindsAtSomeHead(re, s);
    if At(regex.value, 0) == '^' {
      assert s[0..] == s;
      r := MatchRegexAtHead(From(regex.value, 1), s);
      return r;
    }
    var a := 0;
    while true
      invariant a <= |s|
      invariant forall b :: 0 <= b < a ==> !MatchesHead(re.tail, s[b..])
      decreases |s| - a
    {
      var here := MatchRegexAtHead(regex.value, From(s, a));
      if here {
        return true;
      }
      if At(s, a) == '\0' {
        return false;
      }
      a := a + 1;
    }
  }
}
