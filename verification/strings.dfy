/**
 The parts of java.lang.String the request handler relies on: prefix and
 suffix tests, substring search, case-insensitive equality and replace-all.
 A Java string is a sequence of UTF-16 code units; here it is a sequence of
 Unicode scalar values, which agree with them on the ASCII strings a route
 admits.
 */
module Strings {

  predicate StartsWith(s: string, prefix: string) {
    |prefix| <= |s| && s[..|prefix|] == prefix
  }

  predicate EndsWith(s: string, suffix: string) {
    |suffix| <= |s| && s[|s| - |suffix|..] == suffix
  }

  /** `t` occurs in `s` starting at index `i`. */
  predicate OccursAt(s: string, t: string, i: nat) {
    i + |t| <= |s| && s[i..i + |t|] == t
  }

  /** String.contains */
  predicate Contains(s: string, t: string) {
    exists i: nat | i <= |s| :: OccursAt(s, t, i)
  }

  /** A string never contains a longer one. */
  lemma ContainsNeedsRoom(s: string, t: string)
    requires |t| > |s|
    ensures !Contains(s, t)
  {
  }

  /** Character.toUpperCase, restricted to the ASCII letters. */
  function ToUpper(c: char): char {
    if 'a' <= c <= 'z' then (c as int - 32) as char else c
  }

  /** Character.toLowerCase, restricted to the ASCII letters. */
  function ToLower(c: char): char {
    if 'A' <= c <= 'Z' then (c as int + 32) as char else c
  }

  /** The per-character test of String.equalsIgnoreCase. */
  predicate CharEqualsIgnoreCase(a: char, b: char) {
    a == b || ToUpper(a) == ToUpper(b) || ToLower(ToUpper(a)) == ToLower(ToUpper(b))
  }

  /** The string with every ASCII upper-case letter lowered; the reference
      against which EqualsIgnoreCase is checked. */
  function LowerCase(s: string): (r: string)
    ensures |r| == |s|
    ensures forall i | 0 <= i < |s| :: r[i] == ToLower(s[i])
  {
    seq(|s|, i requires 0 <= i < |s| => ToLower(s[i]))
  }

  lemma CharEqualsIgnoreCaseIffLower(a: char, b: char)
    ensures CharEqualsIgnoreCase(a, b) <==> ToLower(a) == ToLower(b)
  {
  }

  /** Every pair of characters passes the per-character test exactly when
      their lower-cased forms agree. */
  lemma AllCharEqualsIgnoreCaseIffLower()
    ensures forall a, b :: CharEqualsIgnoreCase(a, b) <==> ToLower(a) == ToLower(b)
  {
    forall a, b
      ensures CharEqualsIgnoreCase(a, b) <==> ToLower(a) == ToLower(b)
    {
      CharEqualsIgnoreCaseIffLower(a, b);
    }
  }

  /**
   String.equalsIgnoreCase: equal lengths and pairwise equal up to case.
   Two strings pass exactly when their lower-cased forms are equal, so the
   relation is reflexive, symmetric and transitive.
   */
  predicate EqualsIgnoreCase(a: string, b: string)
    ensures EqualsIgnoreCase(a, b) <==> LowerCase(a) == LowerCase(b)
  {
    AllCharEqualsIgnoreCaseIffLower();
    assert |a| == |b| && (forall i | 0 <= i < |a| :: ToLower(a[i]) == ToLower(b[i])) ==> LowerCase(a) == LowerCase(b);
    |a| == |b| && forall i | 0 <= i < |a| :: CharEqualsIgnoreCase(a[i], b[i])
  }

  /**
   String.replace(CharSequence, CharSequence): scans left to right and
   replaces every non-overlapping occurrence of `target`.
   */
  function ReplaceAll(s: string, target: string, replacement: string): (r: string)
    requires |target| > 0
    ensures target == replacement ==> r == s
    ensures StartsWith(s, target) ==> StartsWith(r, replacement)
    decreases |s|
  {
    if |s| < |target| then s
    else if s[..|target|] == target then
      assert s[..|target|] + s[|target|..] == s;
      replacement + ReplaceAll(s[|target|..], target, replacement)
    else
      assert [s[0]] + s[1..] == s;
      [s[0]] + ReplaceAll(s[1..], target, replacement)
  }

  /** A string without an occurrence has none in its tail either. */
  lemma NoOccurrenceInTail(s: string, target: string)
    requires |s| > 0
    ensures !Contains(s, target) ==> !Contains(s[1..], target)
  {
    if !Contains(s, target) {
      forall i: nat | i <= |s[1..]|
        ensures !OccursAt(s[1..], target, i)
      {
        assert !OccursAt(s, target, i + 1);
        if i + |target| <= |s[1..]| {
          assert s[1..][i..i + |target|] == s[i + 1..i + 1 + |target|];
        }
      }
    }
  }

  /** A string without an occurrence of the target comes back unchanged. */
  lemma {:induction false} ReplaceAllAbsent(s: string, target: string, replacement: string)
    requires |target| > 0
    requires !Contains(s, target)
    ensures ReplaceAll(s, target, replacement) == s
    decreases |s|
  {
    if |s| >= |target| {
      assert !OccursAt(s, target, 0);
      NoOccurrenceInTail(s, target);
      ReplaceAllAbsent(s[1..], target, replacement);
      assert [s[0]] + s[1..] == s;
    }
  }

  /** A leading occurrence is replaced and the scan resumes after it. */
  lemma ReplaceAllLeading(s: string, target: string, replacement: string)
    requires |target| > 0
    ensures ReplaceAll(target + s, target, replacement) == replacement + ReplaceAll(s, target, replacement)
  {
    assert (target + s)[..|target|] == target;
    assert (target + s)[|target|..] == s;
  }

  /** A leading character that cannot start the target is copied as it is. */
  lemma ReplaceAllSkipsChar(c: char, s: string, target: string, replacement: string)
    requires |target| > 0
    requires c != target[0]
    ensures ReplaceAll([c] + s, target, replacement) == [c] + ReplaceAll(s, target, replacement)
  {
    var t := [c] + s;
    assert t[1..] == s;
    if |t| >= |target| {
      assert t[..|target|][0] == c;
    }
  }

  /**
   A prefix none of whose characters can start the target is copied as it
   is, and the rest of the string is rewritten on its own.
   */
  lemma {:induction false} ReplaceAllSkipsPrefix(p: string, s: string, target: string, replacement: string)
    requires |target| > 0
    requires forall i | 0 <= i < |p| :: p[i] != target[0]
    ensures ReplaceAll(p + s, target, replacement) == p + ReplaceAll(s, target, replacement)
    decreases |p|
  {
    if |p| > 0 {
      var tail := p[1..] + s;
      var rest := ReplaceAll(s, target, replacement);
      assert p + s == [p[0]] + tail;
      ReplaceAllSkipsChar(p[0], tail, target, replacement);
      ReplaceAllSkipsPrefix(p[1..], s, target, replacement);
      assert [p[0]] + (p[1..] + rest) == p + rest;
    } else {
      assert p + s == s;
    }
  }

  /** Where no occurrence starts, the head character is copied and the scan
      moves on by one. */
  lemma ReplaceAllNoMatchStep(s: string, target: string, replacement: string)
    requires |target| > 0 && |s| > 0
    requires !OccursAt(s, target, 0)
    ensures ReplaceAll(s, target, replacement) == [s[0]] + ReplaceAll(s[1..], target, replacement)
  {
    assert [s[0]] + s[1..] == s;
  }

  /** Index k holds the first occurrence of `t` in `s`. */
  predicate FirstOccurrence(s: string, t: string, k: nat) {
    OccursAt(s, t, k) && forall j: nat | j < k :: !OccursAt(s, t, j)
  }

  /** The scan passes over index i, where no occurrence starts, by copying
      the character there. */
  lemma ReplaceAllSkipsAt(s: string, target: string, replacement: string, i: nat)
    requires |target| > 0 && i < |s| && !OccursAt(s, target, i)
    ensures s[..i] + ReplaceAll(s[i..], target, replacement)
         == s[..i + 1] + ReplaceAll(s[i + 1..], target, replacement)
  {
    var t := s[i..];
    if |target| <= |t| {
      assert t[..|target|] == s[i..i + |target|];
    }
    ReplaceAllNoMatchStep(t, target, replacement);
    assert t[1..] == s[i + 1..];
    var rest := ReplaceAll(s[i + 1..], target, replacement);
    assert s[..i] + ([s[i]] + rest) == s[..i + 1] + rest by {
      assert s[..i] + [s[i]] == s[..i + 1];
    }
  }

  /** The scan replaces the occurrence at index k and resumes after it. */
  lemma ReplaceAllReplacesAt(s: string, target: string, replacement: string, k: nat)
    requires |target| > 0 && OccursAt(s, target, k)
    ensures s[..k] + ReplaceAll(s[k..], target, replacement)
         == s[..k] + replacement + ReplaceAll(s[k + |target|..], target, replacement)
  {
    var t := s[k..];
    assert t[..|target|] == target;
    assert t[|target|..] == s[k + |target|..];
    var rest := ReplaceAll(s[k + |target|..], target, replacement);
    assert s[..k] + (replacement + rest) == s[..k] + replacement + rest;
  }

  /**
   The indexOf loop of String.replace: the text before the first
   occurrence is copied, that occurrence becomes the replacement, and the
   scan resumes right after it.
   */
  lemma ReplaceAllFirstOccurrence(s: string, target: string, replacement: string, k: nat)
    requires |target| > 0
    requires FirstOccurrence(s, target, k)
    ensures ReplaceAll(s, target, replacement)
         == s[..k] + replacement + ReplaceAll(s[k + |target|..], target, replacement)
  {
    var i: nat := 0;
    assert s[..0] + s[0..] == s;
    while i < k
      invariant i <= k
      invariant ReplaceAll(s, target, replacement) == s[..i] + ReplaceAll(s[i..], target, replacement)
    {
      ReplaceAllSkipsAt(s, target, replacement, i);
      i := i + 1;
    }
    ReplaceAllReplacesAt(s, target, replacement, k);
  }

  /** When the target does not start with '/', a string that is empty or
      starts with '/' is rewritten to one that is too. */
  lemma ReplaceAllKeepsLeadingSlash(s: string, target: string, replacement: string)
    requires |target| > 0 && target[0] != '/'
    requires s == [] || s[0] == '/'
    ensures var r := ReplaceAll(s, target, replacement);
            (r == [] <==> s == []) && (r == [] || r[0] == '/')
  {
    if s != [] {
      assert s == [s[0]] + s[1..];
      ReplaceAllSkipsChar(s[0], s[1..], target, replacement);
    }
  }

  /** A single path segment: no '/' anywhere. */
  predicate IsSegment(s: string) {
    forall i | 0 <= i < |s| :: s[i] != '/'
  }

  /** The prefix before the last '/' is dropped: the final path segment. */
  function LastSegment(s: string): (r: string)
    ensures EndsWith(s, r)
    ensures IsSegment(r)
    ensures |r| < |s| ==> s[|s| - |r| - 1] == '/'
  {
    if |s| == 0 || s[|s| - 1] == '/' then ""
    else LastSegment(s[..|s| - 1]) + [s[|s| - 1]]
  }

  /** A string without '/' is its own last segment. */
  lemma {:induction false} LastSegmentOfSegment(s: string)
    requires IsSegment(s)
    ensures LastSegment(s) == s
    decreases |s|
  {
    if |s| > 0 {
      LastSegmentOfSegment(s[..|s| - 1]);
      assert s[..|s| - 1] + [s[|s| - 1]] == s;
    }
  }

  /** A suffix free of '/' ends a string exactly when it ends the string's
      last segment. */
  lemma LastSegmentKeepsSuffix(s: string, suffix: string)
    requires IsSegment(suffix)
    ensures EndsWith(LastSegment(s), suffix) <==> EndsWith(s, suffix)
  {
    var r := LastSegment(s);
    if EndsWith(s, suffix) {
      assert r[|r| - |suffix|..] == s[|s| - |suffix|..];
    }
    if EndsWith(r, suffix) {
      assert r[|r| - |suffix|..] == s[|s| - |suffix|..];
    }
  }

  /** The string without its trailing '/' characters. */
  function TrimTrailingSlashes(s: string): (r: string)
    ensures StartsWith(s, r)
    ensures |r| == 0 || r[|r| - 1] != '/'
    ensures forall i | |r| <= i < |s| :: s[i] == '/'
  {
    if |s| == 0 || s[|s| - 1] != '/' then s
    else TrimTrailingSlashes(s[..|s| - 1])
  }
}
