/** Properties of the matcher and the two searches that relate several calls,
    or that single out inputs the crate's documentation talks about. */
module PatternProperties {
  import opened PatternSearch

  /** On a window as wide as the pattern, a match means: every position is a
      wildcard or holds exactly the byte its constraint names. */
  lemma MatchPatternExact(window: seq<u8>, pattern: Pattern)
    requires |window| == |pattern|
    ensures MatchPattern(window, pattern) <==>
      forall i :: 0 <= i < |pattern| ==> pattern[i].None? || pattern[i] == Some(window[i])
  {
    forall i | 0 <= i < |pattern|
      ensures Fits(window[i], pattern[i]) <==> pattern[i].None? || pattern[i] == Some(window[i])
    {
    }
  }

  /** A wildcard never causes a mismatch: changing the byte under a `None`
      position leaves the outcome unchanged. */
  lemma WildcardIgnoresByte(window: seq<u8>, pattern: Pattern, i: nat, b: u8)
    requires i < |window| && i < |pattern| && pattern[i] == None
    ensures MatchPattern(window[i := b], pattern) == MatchPattern(window, pattern)
  {
    var w' := window[i := b];
    forall j | 0 <= j < |window| && j < |pattern|
      ensures Fits(w'[j], pattern[j]) == Fits(window[j], pattern[j])
    {
    }
  }

  /** Two strictly ascending sequences with the same members are equal. */
  lemma {:induction false} StrictlyIncreasingUnique(a: seq<nat>, b: seq<nat>)
    requires StrictlyIncreasing(a) && StrictlyIncreasing(b)
    requires forall x :: x in a <==> x in b
    ensures a == b
  {
    if a != [] {
      assert a[0] in b;
    }
    if b != [] {
      assert b[0] in a;
    }
    if a != [] && b != [] {
      forall x
        ensures x in a[1..] <==> x in b[1..]
      {
        if x in a[1..] {
          assert x in b && x != b[0];
        }
        if x in b[1..] {
          assert x in a && x != a[0];
        }
      }
      StrictlyIncreasingUnique(a[1..], b[1..]);
      assert a == [a[0]] + a[1..] && b == [b[0]] + b[1..];
    }
  }

  /** `FindPatterns` is the only strictly ascending list that holds exactly the
      matching offsets. */
  lemma FindPatternsUnique(region: seq<u8>, pattern: Pattern, offsets: seq<nat>)
    requires |pattern| > 0 && StrictlyIncreasing(offsets)
    requires forall k :: 0 <= k < |offsets| ==> IsMatchAt(region, pattern, offsets[k])
    requires forall j: nat :: IsMatchAt(region, pattern, j) ==> j in offsets
    ensures offsets == FindPatterns(region, pattern)
  {
    var all := FindPatterns(region, pattern);
    forall x
      ensures x in offsets <==> x in all
    {
      if x in all {
        assert IsMatchAt(region, pattern, x);
      }
    }
    StrictlyIncreasingUnique(offsets, all);
  }

  /** The first match is the head of the list of all matches, and there is
      none exactly when that list is empty. */
  lemma FindPatternIsFirstOfFindPatterns(region: seq<u8>, pattern: Pattern)
    requires |pattern| > 0
    ensures FindPattern(region, pattern) ==
      if FindPatterns(region, pattern) == [] then None else Some(FindPatterns(region, pattern)[0])
  {
    var all := FindPatterns(region, pattern);
    if all != [] {
      assert IsMatchAt(region, pattern, all[0]);
    }
    if FindPattern(region, pattern).Some? {
      assert FindPattern(region, pattern).value in all;
    }
  }

  /** The first match is the least matching offset. */
  lemma FindPatternIsLeast(region: seq<u8>, pattern: Pattern, i: nat)
    requires |pattern| > 0 && IsMatchAt(region, pattern, i)
    ensures FindPattern(region, pattern).Some? && FindPattern(region, pattern).value <= i
  {
  }

  /** Conversely, an offset that matches with no matching offset before it is
      the one the first-match search reports. */
  lemma FirstMatchIsFindPattern(region: seq<u8>, pattern: Pattern, i: nat)
    requires |pattern| > 0 && IsMatchAt(region, pattern, i)
    requires forall j :: 0 <= j < i ==> !IsMatchAt(region, pattern, j)
    ensures FindPattern(region, pattern) == Some(i)
  {
    FindPatternIsLeast(region, pattern, i);
  }

  /** A region shorter than the pattern has no window, hence no match. */
  lemma PatternLongerThanRegion(region: seq<u8>, pattern: Pattern)
    requires 0 < |pattern| && |region| < |pattern|
    ensures FindPattern(region, pattern) == None
    ensures FindPatterns(region, pattern) == []
  {
  }

  /** In a strictly ascending sequence, consecutive values sit at consecutive
      positions. */
  lemma ConsecutiveValuesAdjacent(s: seq<nat>, n: nat, m: nat)
    requires StrictlyIncreasing(s) && n < |s| && m < |s| && s[m] == s[n] + 1
    ensures m == n + 1
  {
    assert n < m by {
      assert s[n] < s[m];
    }
    assert s[n] < s[n + 1] <= s[m];
  }

  /** Matches may overlap: when the windows at `k` and `k + 1` both match,
      both offsets are reported, one right after the other. */
  lemma OverlappingMatchesReported(region: seq<u8>, pattern: Pattern, k: nat)
    requires |pattern| > 0
    requires IsMatchAt(region, pattern, k) && IsMatchAt(region, pattern, k + 1)
    ensures exists n :: (0 <= n && n + 1 < |FindPatterns(region, pattern)| &&
      FindPatterns(region, pattern)[n] == k && FindPatterns(region, pattern)[n + 1] == k + 1)
  {
    var all := FindPatterns(region, pattern);
    assert k in all && k + 1 in all;
    var n :| 0 <= n < |all| && all[n] == k;
    var m :| 0 <= m < |all| && all[m] == k + 1;
    ConsecutiveValuesAdjacent(all, n, m);
  }

  /** A pattern made only of wildcards matches at every offset where a full
      window fits: the result is 0, 1, ..., |region| - |pattern|. */
  lemma AllWildcardsMatchEverywhere(region: seq<u8>, pattern: Pattern)
    requires |pattern| > 0
    requires forall i :: 0 <= i < |pattern| ==> pattern[i] == None
    ensures |FindPatterns(region, pattern)| == WindowCount(|region|, |pattern|)
    ensures forall n :: 0 <= n < |FindPatterns(region, pattern)| ==> FindPatterns(region, pattern)[n] == n
  {
    var all := FindPatterns(region, pattern);
    var count := WindowCount(|region|, |pattern|);
    var offsets: seq<nat> := seq(count, i requires 0 <= i => i);
    forall x
      ensures x in all <==> x in offsets
    {
      if x in offsets {
        assert IsMatchAt(region, pattern, offsets[x]);
      }
      if x in all {
        assert IsMatchAt(region, pattern, x) && offsets[x] == x;
      }
    }
    StrictlyIncreasingUnique(all, offsets);
  }

  /** When the region is exactly as long as the pattern, there is one candidate
      offset, 0, and it is reported exactly when the whole region matches. */
  lemma RegionAsLongAsPattern(region: seq<u8>, pattern: Pattern)
    requires |pattern| > 0 && |region| == |pattern|
    ensures FindPattern(region, pattern) == if MatchPattern(region, pattern) then Some(0) else None
    ensures FindPatterns(region, pattern) == if MatchPattern(region, pattern) then [0] else []
  {
    var all := FindPatterns(region, pattern);
    assert region[0..|pattern|] == region;
    var expected: seq<nat> := if MatchPattern(region, pattern) then [0] else [];
    forall x
      ensures x in all <==> x in expected
    {
      if x in all {
        assert IsMatchAt(region, pattern, x);
      }
    }
    StrictlyIncreasingUnique(all, expected);
  }
}
