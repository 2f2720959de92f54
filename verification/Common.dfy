/** Definitions that several modules share. */
module Common {
  datatype Option<+T> = None | Some(value: T)

  ghost predicate Distinct(s: seq<nat>) {
    forall i, j :: 0 <= i < j < |s| ==> s[i] != s[j]
  }

  // The place of the first such character, or the length of the string.
  function FirstOf(s: string, c: char): (n: nat)
    ensures n <= |s| && (n < |s| ==> s[n] == c) && forall i :: 0 <= i < n ==> s[i] != c
  {
    if s == [] || s[0] == c then 0 else 1 + FirstOf(s[1..], c)
  }

  lemma FirstAfter(t: string, rest: string, c: char)
    requires c !in t && (rest == [] || rest[0] == c)
    ensures FirstOf(t + rest, c) == |t|
  {
    var s, n := t + rest, FirstOf(t + rest, c);
    assert forall i :: 0 <= i < |t| ==> s[i] == t[i];
    assert n < |s| ==> s[n] == c;
    assert rest != [] ==> s[|t|] == c;
  }
}
