/** Character and string helpers shared by the naming, parsing and key logic:
    ASCII case folding, decimal digits, searching and Python-style replacement. */
module Strings {

  /** Lower-cases one ASCII letter; every other character is left alone. */
  function LowerChar(c: char): char {
    if 'A' <= c <= 'Z' then (c as int + 32) as char else c
  }

  /** `s.lower()`, restricted to ASCII letters. */
  function Lower(s: string): (r: string)
    ensures |r| == |s|
    ensures forall i :: 0 <= i < |s| ==> r[i] == LowerChar(s[i])
  {
    seq(|s|, i requires 0 <= i < |s| => LowerChar(s[i]))
  }

  lemma LowerConcat(a: string, b: string)
    ensures Lower(a + b) == Lower(a) + Lower(b)
  {
  }

  /** `s.replace(a, b)` for single characters. */
  function ReplaceChar(s: string, a: char, b: char): (r: string)
    ensures |r| == |s|
    ensures forall i :: 0 <= i < |s| ==> r[i] == (if s[i] == a then b else s[i])
  {
    seq(|s|, i requires 0 <= i < |s| => if s[i] == a then b else s[i])
  }

  predicate IsDigit(c: char) {
    '0' <= c <= '9'
  }

  predicate AllDigits(s: string) {
    forall i :: 0 <= i < |s| ==> IsDigit(s[i])
  }

  function DigitChar(d: nat): (c: char)
    requires d < 10
    ensures IsDigit(c)
  {
    ('0' as int + d) as char
  }

  function DigitValue(c: char): (d: nat)
    requires IsDigit(c)
    ensures d < 10 && DigitChar(d) == c
  {
    c as int - '0' as int
  }

  /** The value of a string of decimal digits (what `int(s)` gives for it). */
  function DigitsValue(s: string): nat
    requires AllDigits(s)
  {
    if s == [] then 0 else DigitsValue(s[..|s| - 1]) * 10 + DigitValue(s[|s| - 1])
  }

  /** The value of two digits. */
  lemma DigitsValueTwo(t: string)
    requires |t| == 2 && AllDigits(t)
    ensures DigitsValue(t) == DigitValue(t[0]) * 10 + DigitValue(t[1]) < 100
    ensures Pad2(DigitsValue(t)) == t
  {
    assert t[..1] == [t[0]] && t[..1][..0] == [];
    assert DigitsValue(t[..1]) == DigitValue(t[0]);
    assert DigitsValue(t) == DigitsValue(t[..1]) * 10 + DigitValue(t[1]);
  }

  /** `str(n)` for a natural number: decimal, no padding, no sign. */
  function NatToString(n: nat): string
  {
    if n < 10 then [DigitChar(n)] else NatToString(n / 10) + [DigitChar(n % 10)]
  }

  /** `str(n)` is a non-empty run of digits without a superfluous leading zero,
      and reading it back gives `n`. */
  lemma {:induction false} NatToStringRoundTrip(n: nat)
    ensures NatToString(n) != [] && AllDigits(NatToString(n))
    ensures NatToString(n)[0] == '0' ==> n == 0
    ensures |NatToString(n)| == 1 <==> n < 10
    ensures DigitsValue(NatToString(n)) == n
  {
    if n >= 10 {
      NatToStringRoundTrip(n / 10);
      var s := NatToString(n);
      assert s[..|s| - 1] == NatToString(n / 10);
    }
  }

  /** Zero-padded two-digit field (`%02d`). */
  function Pad2(n: nat): (r: string)
    requires n < 100
    ensures |r| == 2 && AllDigits(r) && DigitsValue(r) == n
  {
    var r := [DigitChar(n / 10), DigitChar(n % 10)];
    assert r[..1] == [DigitChar(n / 10)];
    assert DigitsValue(r[..1]) == n / 10 by {
      assert r[..1][..0] == [];
    }
    r
  }

  /** Zero-padded four-digit field (`%04d`). */
  function Pad4(n: nat): (r: string)
    requires n < 10000
    ensures |r| == 4 && AllDigits(r) && DigitsValue(r) == n
  {
    var r := [DigitChar(n / 1000), DigitChar(n / 100 % 10), DigitChar(n / 10 % 10), DigitChar(n % 10)];
    var r1, r2, r3 := r[..1], r[..2], r[..3];
    assert r1[..0] == [] && r2[..1] == r1 && r3[..2] == r2 && r[..3] == r3;
    assert DigitsValue(r1) == n / 1000;
    assert DigitsValue(r2) == n / 100;
    assert DigitsValue(r3) == n / 10;
    r
  }

  /** `pat` occurs in `s` at index `i`. */
  predicate OccursAt(s: string, pat: string, i: int) {
    0 <= i && i + |pat| <= |s| && s[i..i + |pat|] == pat
  }

  /** `s.find(pat)`: the first index at which `pat` occurs, or -1. */
  function Find(s: string, pat: string): (r: int)
    ensures -1 <= r <= |s|
    ensures r >= 0 ==> OccursAt(s, pat, r)
    ensures forall j :: 0 <= j && (r < 0 || j < r) ==> !OccursAt(s, pat, j)
    decreases |s|
  {
    if |s| < |pat| then -1
    else if s[..|pat|] == pat then 0
    else
      var k := Find(s[1..], pat);
      assert forall j :: 1 <= j && OccursAt(s, pat, j) ==> OccursAt(s[1..], pat, j - 1) by {
        forall j | 1 <= j && OccursAt(s, pat, j) ensures OccursAt(s[1..], pat, j - 1) {
          assert s[1..][j - 1..j - 1 + |pat|] == s[j..j + |pat|];
        }
      }
      if k < 0 then -1
      else
        assert s[1..][k..k + |pat|] == s[k + 1..k + 1 + |pat|];
        k + 1
  }

  /** `s.rfind(c)` for one character: the last index holding `c`, or -1. */
  function LastIndexOf(s: string, c: char): (r: int)
    ensures -1 <= r < |s|
    ensures r >= 0 ==> s[r] == c
    ensures forall j :: r < j < |s| ==> s[j] != c
    decreases |s|
  {
    if |s| == 0 then -1
    else if s[|s| - 1] == c then |s| - 1
    else LastIndexOf(s[..|s| - 1], c)
  }

  /** `rfind` is determined by its contract: the last index holding `c`. */
  lemma LastIndexOfUnique(s: string, c: char, r: int)
    requires -1 <= r < |s|
    requires r >= 0 ==> s[r] == c
    requires forall j :: r < j < |s| ==> s[j] != c
    ensures LastIndexOf(s, c) == r
  {
  }

  /** Lower-casing changes letters only: a character that is not a letter is its
      own and only preimage. */
  lemma LowerCharNonLetter(x: char, c: char)
    requires !('A' <= c <= 'Z') && !('a' <= c <= 'z')
    ensures LowerChar(x) == c <==> x == c
  {
  }

  /** `s.replace(pat, rep)` for a non-empty `pat`: occurrences are replaced
      left to right and never overlap. */
  function ReplaceAll(s: string, pat: string, rep: string): string
    requires pat != []
    decreases |s|
  {
    if |s| < |pat| then s
    else if s[..|pat|] == pat then rep + ReplaceAll(s[|pat|..], pat, rep)
    else [s[0]] + ReplaceAll(s[1..], pat, rep)
  }

  /** Replacing a pattern that does not occur changes nothing. */
  lemma {:induction false} ReplaceAllAbsent(s: string, pat: string, rep: string)
    requires pat != []
    requires Find(s, pat) < 0
    ensures ReplaceAll(s, pat, rep) == s
    decreases |s|
  {
    if |s| >= |pat| {
      assert !OccursAt(s, pat, 0);
      assert Find(s[1..], pat) < 0;
      ReplaceAllAbsent(s[1..], pat, rep);
    }
  }

  /** How many times `c` appears in `s`. */
  function Count(s: string, c: char): nat {
    multiset(s)[c]
  }

  /** A window of `s` cannot hold more copies of `c` than `s` does. */
  lemma CountOccurrence(s: string, pat: string, i: int, c: char)
    requires OccursAt(s, pat, i)
    ensures Count(pat, c) <= Count(s, c)
  {
    assert s == s[..i] + s[i..i + |pat|] + s[i + |pat|..];
    calc {
      multiset(s);
      multiset(s[..i]) + multiset(s[i..i + |pat|]) + multiset(s[i + |pat|..]);
    }
  }

  /** A pattern with more copies of `c` than `s` cannot occur in `s`. */
  lemma FindByCount(s: string, pat: string, c: char)
    requires Count(s, c) < Count(pat, c)
    ensures Find(s, pat) < 0
  {
    var k := Find(s, pat);
    if k >= 0 {
      CountOccurrence(s, pat, k, c);
    }
  }
}
