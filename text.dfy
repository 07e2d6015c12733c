/** String helpers behind the GBIF preparation step: Python's `str.strip`,
    `str.lower` and `str.count`, restricted to ASCII. */
module Text {

  /** Python's `str.isspace` on ASCII: tab, line feed, vertical tab, form
      feed, carriage return, the four information separators and space. */
  predicate IsSpace(c: char) {
    var n := c as int;
    9 <= n <= 13 || 28 <= n <= 32
  }

  predicate IsUpper(c: char) {
    'A' <= c <= 'Z'
  }

  /** `u` is an ASCII capital letter and `l` its small letter. */
  predicate IsCapitalOf(u: char, l: char) {
    IsUpper(u) && l as int == u as int + 32
  }

  /** Two characters that differ at most in ASCII letter case. */
  predicate SameCharIgnoringCase(a: char, b: char) {
    a == b || IsCapitalOf(a, b) || IsCapitalOf(b, a)
  }

  /** Two strings of the same length that differ at most in ASCII letter case. */
  predicate SameIgnoringCase(a: string, b: string) {
    |a| == |b| && forall i :: 0 <= i < |a| ==> SameCharIgnoringCase(a[i], b[i])
  }

  /** No character of `s` is an ASCII capital letter. */
  predicate NoCapitals(s: string) {
    forall i :: 0 <= i < |s| ==> !IsUpper(s[i])
  }

  function LowerChar(c: char): (d: char)
    ensures !IsUpper(d)
    ensures d == c || IsCapitalOf(c, d)
  {
    if IsUpper(c) then (c as int + 32) as char else c
  }

  /** Two characters lower-case alike exactly when they differ at most in case. */
  lemma LowerCharEqualIff(a: char, b: char)
    ensures LowerChar(a) == LowerChar(b) <==> SameCharIgnoringCase(a, b)
  {
  }

  /** `s.lower()`: every ASCII capital letter replaced by its small letter. */
  function Lower(s: string): (r: string)
    ensures NoCapitals(r)
    ensures SameIgnoringCase(s, r)
    ensures NoCapitals(s) ==> r == s
  {
    seq(|s|, i requires 0 <= i < |s| => LowerChar(s[i]))
  }

  lemma LowerIdempotent(s: string)
    ensures Lower(Lower(s)) == Lower(s)
  {
  }

  /** Lower-casing identifies exactly the strings that differ at most in
      letter case: this is what makes a lookup through `lower` case-insensitive. */
  lemma {:induction false} LowerEqualIff(a: string, b: string)
    ensures Lower(a) == Lower(b) <==> SameIgnoringCase(a, b)
  {
    if |a| == |b| {
      forall i | 0 <= i < |a| ensures Lower(a)[i] == Lower(b)[i] <==> SameCharIgnoringCase(a[i], b[i]) {
        LowerCharEqualIff(a[i], b[i]);
      }
      if SameIgnoringCase(a, b) {
        assert forall i :: 0 <= i < |a| ==> Lower(a)[i] == Lower(b)[i];
      }
    }
  }

  /** `s.count(c)` for a single character: the number of its occurrences. */
  function Count(s: string, c: char): (n: nat)
    ensures n == multiset(s)[c]
    ensures n <= |s|
    ensures n == 0 <==> c !in s
  {
    if s == [] then 0
    else
      assert s == [s[0]] + s[1..];
      (if s[0] == c then 1 else 0) + Count(s[1..], c)
  }

  /** The first index at or after `i` that holds no whitespace, or `|s|`. */
  function SkipSpaceFrom(s: string, i: nat): (j: nat)
    requires i <= |s|
    ensures i <= j <= |s|
    ensures forall k :: i <= k < j ==> IsSpace(s[k])
    ensures j == |s| || !IsSpace(s[j])
    decreases |s| - i
  {
    if i < |s| && IsSpace(s[i]) then SkipSpaceFrom(s, i + 1) else i
  }

  /** The least index `k`, with `lo <= k <= j`, such that `s[k..j]` is all
      whitespace. */
  function SkipSpaceBack(s: string, lo: nat, j: nat): (k: nat)
    requires lo <= j <= |s|
    ensures lo <= k <= j
    ensures forall m :: k <= m < j ==> IsSpace(s[m])
    ensures k == lo || !IsSpace(s[k - 1])
    decreases j - lo
  {
    if lo < j && IsSpace(s[j - 1]) then SkipSpaceBack(s, lo, j - 1) else j
  }

  /** `r` is what is left of `s` once a whitespace prefix and a whitespace
      suffix are cut off, and `r` neither starts nor ends with whitespace. */
  ghost predicate IsTrimOf(r: string, s: string) {
    && (r == [] || (!IsSpace(r[0]) && !IsSpace(r[|r| - 1])))
    && exists i :: 0 <= i <= |s| - |r| && TrimmedAt(r, s, i)
  }

  ghost predicate TrimmedAt(r: string, s: string, i: int)
    requires 0 <= i <= |s| - |r|
  {
    && r == s[i..i + |r|]
    && (forall k :: 0 <= k < i ==> IsSpace(s[k]))
    && (forall k :: i + |r| <= k < |s| ==> IsSpace(s[k]))
  }

  /** `s.strip()`. */
  function Strip(s: string): string {
    var i := SkipSpaceFrom(s, 0);
    s[i..SkipSpaceBack(s, i, |s|)]
  }

  /** What `strip` leaves: the input with a whitespace prefix and a
      whitespace suffix cut off, neither starting nor ending with whitespace. */
  lemma StripSpec(s: string)
    ensures IsTrimOf(Strip(s), s)
  {
    var i := SkipSpaceFrom(s, 0);
    var j := SkipSpaceBack(s, i, |s|);
    assert TrimmedAt(s[i..j], s, i);
  }

  /** A string of whitespace only strips to the empty string, and nothing else does. */
  lemma StripEmptyIff(s: string)
    ensures Strip(s) == [] <==> forall k :: 0 <= k < |s| ==> IsSpace(s[k])
  {
    var r := Strip(s);
    StripSpec(s);
    var i :| 0 <= i <= |s| - |r| && TrimmedAt(r, s, i);
    if r != [] {
      assert s[i] == r[0];
    }
  }

  /** Two trims of the same string agree: the result of `strip` is determined. */
  lemma TrimUnique(r1: string, r2: string, s: string)
    requires IsTrimOf(r1, s) && IsTrimOf(r2, s)
    ensures r1 == r2
  {
    var i1 :| 0 <= i1 <= |s| - |r1| && TrimmedAt(r1, s, i1);
    var i2 :| 0 <= i2 <= |s| - |r2| && TrimmedAt(r2, s, i2);
    if r1 != [] {
      assert !IsSpace(s[i1]);
      assert i2 <= i1 < i2 + |r2|;
    }
    if r2 != [] {
      assert !IsSpace(s[i2]);
      assert i1 <= i2 < i1 + |r1|;
    }
    if r1 != [] && r2 != [] {
      assert i1 == i2;
      assert s[i1 + |r1| - 1] == r1[|r1| - 1] && s[i2 + |r2| - 1] == r2[|r2| - 1];
      assert |r1| == |r2|;
    }
  }

  lemma StripIdempotent(s: string)
    ensures Strip(Strip(s)) == Strip(s)
  {
    var r := Strip(s);
    StripSpec(s);
    StripSpec(r);
    assert TrimmedAt(r, r, 0);
    TrimUnique(Strip(r), r, r);
  }
}
