/** Loop forms of the two searches: offsets are visited in ascending order,
    the first-match scan stops at the first window that matches, and both are
    proved to compute exactly what the functional definitions compute. */
module PatternScan {
  import opened PatternSearch
  import PatternProperties

  /** `find_pattern` as a short-circuiting scan over candidate offsets. */
  method FindPatternScan(region: seq<u8>, pattern: Pattern) returns (r: Option<nat>)
    requires |pattern| > 0
    ensures r == FindPattern(region, pattern)
  {
    var n := |pattern|;
    if |region| < n {
      return None;
    }
    var i := 0;
    while i <= |region| - n
      invariant 0 <= i <= |region| - n + 1
      invariant forall j :: 0 <= j < i ==> !IsMatchAt(region, pattern, j)
    {
      if MatchPattern(region[i..i + n], pattern) {
        PatternProperties.FirstMatchIsFindPattern(region, pattern, i);
        return Some(i);
      }
      i := i + 1;
    }
    assert forall j: nat :: !IsMatchAt(region, pattern, j);
    return None;
  }

  /** `find_patterns` as an exhaustive scan that appends each matching offset. */
  method FindPatternsScan(region: seq<u8>, pattern: Pattern) returns (offsets: seq<nat>)
    requires |pattern| > 0
    ensures offsets == FindPatterns(region, pattern)
  {
    var n := |pattern|;
    offsets := [];
    if |region| < n {
      PatternProperties.PatternLongerThanRegion(region, pattern);
      return;
    }
    var i := 0;
    while i <= |region| - n
      invariant 0 <= i <= |region| - n + 1
      invariant StrictlyIncreasing(offsets)
      invariant forall k :: 0 <= k < |offsets| ==> offsets[k] < i && IsMatchAt(region, pattern, offsets[k])
      invariant forall j :: 0 <= j < i && IsMatchAt(region, pattern, j) ==> j in offsets
    {
      assert IsMatchAt(region, pattern, i) == MatchPattern(region[i..i + n], pattern);
      if MatchPattern(region[i..i + n], pattern) {
        ghost var before := offsets;
        offsets := offsets + [i];
        assert forall k :: 0 <= k < |before| ==> offsets[k] == before[k];
      }
      i := i + 1;
    }
    PatternProperties.FindPatternsUnique(region, pattern, offsets);
  }
}
