/** Zero-terminated strings: a pointer into one is modelled by the text from it to the terminator. */
module CStrings {
  import opened Wrappers

  type CString = s: string | forall i :: 0 <= i < |s| ==> s[i] != '\0'

  /** The character that `s[i]` reads in C: the terminator at the end. */
  function At(s: CString, i: nat): char
    requires i <= |s|
  {
    if i == |s| then '\0' else s[i]
  }

  /** The pointer `s + i`. */
  function From(s: CString, i: nat): CString
    requires i <= |s|
  {
    s[i..]
  }

  /** `strchr`: the first occurrence of `c`. */
  function FindChar(s: string, c: char): (r: Option<nat>)
    ensures r.None? <==> c !in s
    ensures r.Some? ==> r.value < |s| && s[r.value] == c && c !in s[..r.value]
  {
    if s == "" then None
    else if s[0] == c then Some(0)
    else
      match FindChar(s[1..], c)
      case None => None
      case Some(i) => Some(i + 1)
  }
}
