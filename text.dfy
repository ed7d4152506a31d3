/** Character and string helpers shared by the week key and the form parser. */
module Text {

  predicate IsDigit(c: char) {
    '0' <= c <= '9'
  }

  predicate AllDigits(s: string) {
    forall i :: 0 <= i < |s| ==> IsDigit(s[i])
  }

  predicate StartsWith(s: string, prefix: string) {
    |prefix| <= |s| && s[..|prefix|] == prefix
  }

  /** Index of the first occurrence of `c` in `s`, or `|s|` when there is none. */
  function FirstIndex(s: string, c: char): (i: nat)
    ensures i <= |s|
    ensures forall j :: 0 <= j < i ==> s[j] != c
    ensures i < |s| ==> s[i] == c
  {
    if s == [] then 0
    else if s[0] == c then 0
    else 1 + FirstIndex(s[1..], c)
  }

  lemma {:induction false} FirstIndexAfter(s: string, t: string, c: char)
    requires forall j :: 0 <= j < |s| ==> s[j] != c
    requires |t| > 0 && t[0] == c
    ensures FirstIndex(s + t, c) == |s|
  {
    assert forall j :: 0 <= j < |s| ==> (s + t)[j] == s[j];
    assert (s + t)[|s|] == t[0];
  }
}
