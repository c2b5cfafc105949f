/**
 What it means for a text to be described by a list of parts: it can be cut into as many pieces, in
 order, each of which its part accepts. Both pattern languages of the test runner get their meaning
 this way, without reference to how they are matched.
 */
module Pieces {
  function Joined(pieces: seq<string>): string {
    if pieces == [] then "" else pieces[0] + Joined(pieces[1..])
  }

  ghost predicate IsCut<P>(parts: seq<P>, accepts: (P, string) -> bool, s: string, pieces: seq<string>) {
    && |pieces| == |parts|
    && Joined(pieces) == s
    && forall i :: 0 <= i < |parts| ==> accepts(parts[i], pieces[i])
  }

  ghost predicate Describes<P>(parts: seq<P>, accepts: (P, string) -> bool, s: string) {
    exists pieces: seq<string> :: IsCut(parts, accepts, s, pieces)
  }

  lemma NoParts<P>(accepts: (P, string) -> bool, s: string)
    ensures Describes([], accepts, s) <==> s == ""
  {
    if s == "" {
      assert IsCut([], accepts, s, []);
    }
  }

  /** The first part takes some prefix and the other parts describe the rest. */
  lemma FirstPart<P>(parts: seq<P>, accepts: (P, string) -> bool, s: string)
    requires parts != []
    ensures Describes(parts, accepts, s) <==>
            exists n :: 0 <= n <= |s| && accepts(parts[0], s[..n]) && Describes(parts[1..], accepts, s[n..])
  {
    if Describes(parts, accepts, s) {
      var pieces :| IsCut(parts, accepts, s, pieces);
      var n := |pieces[0]|;
      assert s[..n] == pieces[0] && s[n..] == Joined(pieces[1..]);
      assert IsCut(parts[1..], accepts, s[n..], pieces[1..]);
    }
    if n :| 0 <= n <= |s| && accepts(parts[0], s[..n]) && Describes(parts[1..], accepts, s[n..]) {
      var rest :| IsCut(parts[1..], accepts, s[n..], rest);
      assert IsCut(parts, accepts, s, [s[..n]] + rest);
    }
  }
}
