/** Text as C sees it: searching for characters and skipping white space. */
module CString {

  type Text = seq<char>

  const NUL := '\0'

  /** The first position of either character, or the length. */
  function Index(s: Text, x: char, y: char): (k: nat)
    ensures k <= |s|
    ensures forall i :: 0 <= i < k ==> s[i] != x && s[i] != y
    ensures k < |s| ==> s[k] == x || s[k] == y
  {
    if s == [] || s[0] == x || s[0] == y then 0 else 1 + Index(s[1..], x, y)
  }

  /** strchr. */
  function Find(s: Text, x: char): (k: nat)
    ensures k <= |s|
    ensures forall i :: 0 <= i < k ==> s[i] != x
    ensures k < |s| ==> s[k] == x
  {
    Index(s, x, x)
  }

  predicate Space(c: char) {
    c == ' ' || 9 as char <= c <= 13 as char
  }

  function TrimLeft(s: Text): (t: Text)
    ensures t == [] || !Space(t[0])
    ensures |t| <= |s| && t == s[|s| - |t|..]
    ensures forall i :: 0 <= i < |s| - |t| ==> Space(s[i])
  {
    if s == [] || !Space(s[0]) then s else TrimLeft(s[1..])
  }

  lemma TrimNone(s: Text)
    requires s == [] || !Space(s[0])
    ensures TrimLeft(s) == s
  {
  }

  lemma TrimAt(t: Text, j: nat)
    requires j <= |t| && (forall i :: 0 <= i < j ==> Space(t[i])) && (j < |t| ==> !Space(t[j]))
    ensures TrimLeft(t) == t[j..]
  {
  }
}
