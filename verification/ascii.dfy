/** ASCII case mapping on strings, standing in for Python's `str.lower` and
    `str.upper` (characters outside `A`-`Z` and `a`-`z` are left unchanged). */
module Ascii {

  predicate IsUpperLetter(c: char) {
    'A' <= c <= 'Z'
  }

  predicate IsLowerLetter(c: char) {
    'a' <= c <= 'z'
  }

  function LowerChar(c: char): (r: char)
    ensures !IsUpperLetter(r)
    ensures IsUpperLetter(c) || IsLowerLetter(c) <==> IsLowerLetter(r)
  {
    if IsUpperLetter(c) then (c as int + 32) as char else c
  }

  function UpperChar(c: char): (r: char)
    ensures !IsLowerLetter(r)
    ensures IsUpperLetter(c) || IsLowerLetter(c) <==> IsUpperLetter(r)
  {
    if IsLowerLetter(c) then (c as int - 32) as char else c
  }

  /** `s.lower()`: every character mapped through `LowerChar`, length kept. */
  function Lower(s: string): (r: string)
    ensures |r| == |s|
    ensures forall i | 0 <= i < |s| :: r[i] == LowerChar(s[i])
  {
    if s == [] then [] else [LowerChar(s[0])] + Lower(s[1..])
  }

  /** `s.upper()`: every character mapped through `UpperChar`, length kept. */
  function Upper(s: string): (r: string)
    ensures |r| == |s|
    ensures forall i | 0 <= i < |s| :: r[i] == UpperChar(s[i])
  {
    if s == [] then [] else [UpperChar(s[0])] + Upper(s[1..])
  }

  /** A string with no upper-case letter: its own lower-case form. */
  predicate IsLower(s: string) {
    forall i | 0 <= i < |s| :: !IsUpperLetter(s[i])
  }

  /** A string with no lower-case letter: its own upper-case form. */
  predicate IsUpper(s: string) {
    forall i | 0 <= i < |s| :: !IsLowerLetter(s[i])
  }

  predicate HasLetter(s: string) {
    exists i | 0 <= i < |s| :: IsUpperLetter(s[i]) || IsLowerLetter(s[i])
  }

  lemma {:induction false} LowerIsLower(s: string)
    ensures IsLower(Lower(s))
    ensures IsLower(s) <==> Lower(s) == s
  {
    if IsLower(s) {
      assert forall i | 0 <= i < |s| :: Lower(s)[i] == s[i];
    }
  }

  /** Lower-casing twice is lower-casing once. */
  lemma {:induction false} LowerIdempotent(s: string)
    ensures Lower(Lower(s)) == Lower(s)
  {
    LowerIsLower(Lower(s));
  }

  /** Lower-casing an upper-cased string gives the lower-cased original. */
  lemma {:induction false} LowerOfUpper(s: string)
    ensures Lower(Upper(s)) == Lower(s)
  {
    assert forall i | 0 <= i < |s| :: Lower(Upper(s))[i] == Lower(s)[i];
  }

  lemma {:induction false} UpperIsUpper(s: string)
    ensures IsUpper(Upper(s))
  {
  }

  /** An upper-cased string that contains a letter is no string's lower-case
      form: once a letter is upper-cased, no lower-cased lookup can reach it. */
  lemma {:induction false} UpperOfLetterIsNoLower(s: string, q: string)
    requires HasLetter(s)
    ensures Lower(q) != Upper(s)
  {
    var i :| 0 <= i < |s| && (IsUpperLetter(s[i]) || IsLowerLetter(s[i]));
    assert IsUpperLetter(Upper(s)[i]);
    if |q| == |s| {
      assert !IsUpperLetter(Lower(q)[i]);
    }
  }

  lemma {:induction false} SameFoldChar(c: char, d: char)
    ensures LowerChar(c) == LowerChar(d) <==> UpperChar(c) == UpperChar(d)
  {
  }

  /** Two strings agree after lower-casing exactly when they agree after
      upper-casing: both mean "equal up to ASCII case". */
  lemma {:induction false} SameFold(a: string, b: string)
    ensures Lower(a) == Lower(b) <==> Upper(a) == Upper(b)
  {
    if |a| == |b| {
      forall i | 0 <= i < |a|
        ensures Lower(a)[i] == Lower(b)[i] <==> Upper(a)[i] == Upper(b)[i]
      {
        SameFoldChar(a[i], b[i]);
      }
      if Lower(a) == Lower(b) {
        assert forall i | 0 <= i < |a| :: Upper(a)[i] == Upper(b)[i];
      }
      if Upper(a) == Upper(b) {
        assert forall i | 0 <= i < |a| :: Lower(a)[i] == Lower(b)[i];
      }
    }
  }

  /** Lower-casing loses nothing on strings without lower-case letters. */
  lemma {:induction false} LowerInjectiveOnUpper(a: string, b: string)
    requires IsUpper(a) && IsUpper(b)
    requires Lower(a) == Lower(b)
    ensures a == b
  {
    assert forall i | 0 <= i < |a| :: LowerChar(a[i]) == LowerChar(b[i]);
    assert forall i | 0 <= i < |a| :: a[i] == b[i];
  }
}
