/** A naive wildcard byte-pattern finder.
    A pattern is a sequence of per-position constraints: `Some(x)` demands the
    byte `x` at that position and `None` accepts any byte. The two searches
    slide a window of the pattern's width over a region, one offset at a time
    in ascending order, and test each window with `MatchPattern`. */
module PatternSearch {

  newtype u8 = x: int | 0 <= x < 0x100

  datatype Option<T> = None | Some(value: T)

  /** One constraint per position; `None` is the wildcard. */
  type Pattern = seq<Option<u8>>

  /** Whether byte `v` satisfies the constraint `c`. */
  predicate Fits(v: u8, c: Option<u8>)
  {
    match c
    case Some(x) => v == x
    case None => true
  }

  /** `window.iter().zip(pattern).all(..)`: the zip stops at the shorter of the
      two sequences, and `all` stops at the first position that fails. */
  function MatchPattern(window: seq<u8>, pattern: Pattern): (r: bool)
    ensures r <==> forall i :: 0 <= i < |window| && i < |pattern| ==> Fits(window[i], pattern[i])
  {
    if window == [] || pattern == [] then true
    else if !Fits(window[0], pattern[0]) then false
    else
      var rest := MatchPattern(window[1..], pattern[1..]);
      assert forall i :: 1 <= i < |window| && i < |pattern| ==>
        window[i] == window[1..][i - 1] && pattern[i] == pattern[1..][i - 1];
      rest
  }

  /** The number of windows of width `size` in a region of `regionLen` bytes. */
  function WindowCount(regionLen: nat, size: nat): nat
  {
    if size <= regionLen then regionLen - size + 1 else 0
  }

  /** `region.windows(size)`: every run of `size` consecutive bytes, by start offset.
      `slice::windows` panics on a zero size, hence the precondition. */
  function Windows(region: seq<u8>, size: nat): (ws: seq<seq<u8>>)
    requires size > 0
    ensures |ws| == WindowCount(|region|, size)
    ensures forall i :: 0 <= i < |ws| ==> i + size <= |region| && ws[i] == region[i..i + size]
  {
    if |region| < size then []
    else
      [region[..size]] + Windows(region[1..], size)
  }

  /** `Iterator::position`: the index of the first element satisfying `pred`. */
  function Position<T>(xs: seq<T>, pred: T -> bool): (r: Option<nat>)
    ensures r.Some? ==> r.value < |xs| && pred(xs[r.value])
    ensures r.Some? ==> forall j :: 0 <= j < r.value ==> !pred(xs[j])
    ensures r.None? <==> forall j :: 0 <= j < |xs| ==> !pred(xs[j])
  {
    if xs == [] then None
    else if pred(xs[0]) then Some(0)
    else
      match Position(xs[1..], pred)
      case None => None
      case Some(k) => Some(k + 1)
  }

  /** A sequence of offsets in strictly ascending order. */
  predicate StrictlyIncreasing(s: seq<nat>)
  {
    forall i, j :: 0 <= i < j < |s| ==> s[i] < s[j]
  }

  /** `.enumerate().filter(..).map(|(idx, _)| idx).collect()`: the indices of the
      elements satisfying `pred`, in the order they are visited. */
  function IndicesWhere<T>(xs: seq<T>, pred: T -> bool): (r: seq<nat>)
    ensures forall k :: 0 <= k < |r| ==> r[k] < |xs| && pred(xs[r[k]])
    ensures forall i :: 0 <= i < |xs| && pred(xs[i]) ==> i in r
    ensures StrictlyIncreasing(r)
  {
    if xs == [] then []
    else
      var last := |xs| - 1;
      var rest := IndicesWhere(xs[..last], pred);
      assert forall i :: 0 <= i < last ==> xs[..last][i] == xs[i];
      rest + (if pred(xs[last]) then [last] else [])
  }

  /** The window of `region` starting at offset `i` exists and matches `pattern`. */
  predicate IsMatchAt(region: seq<u8>, pattern: Pattern, i: nat)
  {
    i + |pattern| <= |region| && MatchPattern(region[i..i + |pattern|], pattern)
  }

  /** `find_pattern`: the first offset whose window matches, if any. */
  function FindPattern(region: seq<u8>, pattern: Pattern): (r: Option<nat>)
    requires |pattern| > 0
    ensures r.Some? ==> IsMatchAt(region, pattern, r.value)
    ensures r.Some? ==> forall j :: 0 <= j < r.value ==> !IsMatchAt(region, pattern, j)
    ensures r.None? <==> forall j: nat :: !IsMatchAt(region, pattern, j)
  {
    var ws := Windows(region, |pattern|);
    assert forall j: nat :: IsMatchAt(region, pattern, j) <==> j < |ws| && MatchPattern(ws[j], pattern);
    Position(ws, w => MatchPattern(w, pattern))
  }

  /** `find_patterns`: every offset whose window matches, in ascending order. */
  function FindPatterns(region: seq<u8>, pattern: Pattern): (r: seq<nat>)
    requires |pattern| > 0
    ensures forall k :: 0 <= k < |r| ==> IsMatchAt(region, pattern, r[k])
    ensures forall i: nat :: IsMatchAt(region, pattern, i) ==> i in r
    ensures StrictlyIncreasing(r)
  {
    var ws := Windows(region, |pattern|);
    assert forall j: nat :: IsMatchAt(region, pattern, j) <==> j < |ws| && MatchPattern(ws[j], pattern);
    IndicesWhere(ws, w => MatchPattern(w, pattern))
  }
}
