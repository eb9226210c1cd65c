# findpattern — a verified model of the wildcard byte-pattern search

The `findpattern` crate finds a fixed-width byte pattern inside a byte region.
A pattern is a `Vec<Option<u8>>`: `Some(x)` at a position demands the byte `x`
there, and `None` is a wildcard that accepts any byte. `match_pattern` compares
one window with the pattern. `find_pattern` slides a window of the pattern's
width over the region, offset by offset from 0 upwards, and returns the first
offset whose window matches. `find_patterns` returns every such offset, in
ascending order, overlapping matches included.

This project models those three functions in Dafny and proves what they
promise:

- `search.dfy` (module `PatternSearch`): the byte type `u8`, `Option`,
  `Pattern`, and the functions `MatchPattern`, `FindPattern` and
  `FindPatterns`. The search functions are built from models of the iterator
  adapters the crate chains together: `Windows` (`slice::windows`),
  `Position` (`Iterator::position`) and `IndicesWhere`
  (`enumerate`/`filter`/`map`/`collect`). Each search function's contract
  characterises its result through the predicate `IsMatchAt` ("a full window
  starts at this offset and matches").
- `properties.dfy` (module `PatternProperties`): lemmas that relate several
  calls: the first match is the head of the list of all matches, the first
  match is the least matching offset, overlapping matches are both reported,
  an all-wildcard pattern matches at every offset, and the degenerate region
  lengths.
- `scan.dfy` (module `PatternScan`): loop versions of the two searches. They
  visit offsets in ascending order, and the first-match loop stops at the
  first hit. Each is proved equal to its functional counterpart.
- `cases.dfy` (module `PatternCases`): the crate's unit tests
  (`matching`, `pattern_fwd`, `pattern_fwd_multiple`) and the short-region
  case, stated as lemmas.

Behaviour of the code that the model keeps:

- A zero-length pattern: `region.windows(0)` panics, so both searches require
  `|pattern| > 0`.
- Windows and patterns of different lengths: `zip` stops at the shorter
  sequence, so `MatchPattern` is total and compares only the common prefix.
  `MatchPatternExact` states the equal-length reading.
- `find_pattern_par` uses rayon's `position_any`, which returns some matching
  offset, not necessarily the least. The parallel functions are not modelled
  (see below).

Offsets are `nat`. A Rust `usize` offset is always below the region's length,
so it cannot overflow, and nothing is lost by using unbounded integers.

## Model

| member | source | states |
|---|---|---|
| PatternSearch.MatchPattern | src/lib.rs:41-47 | the window matches exactly when every position the zip pairs up holds the byte its `Some` names or has a `None` wildcard |
| PatternSearch.Windows | src/lib.rs:55-56 | there are `|region| - size + 1` windows, or none when the region is shorter than `size`, and window `i` is the `size` bytes starting at offset `i` |
| PatternSearch.Position | src/lib.rs:57 | the result is the index of the first element satisfying the predicate, or `None` exactly when no element does |
| PatternSearch.IndicesWhere | src/lib.rs:66-69 | the result lists exactly the indices whose elements satisfy the predicate, in strictly ascending order |
| PatternSearch.FindPattern | src/lib.rs:49-58 | a `Some(i)` result is a full, matching window with no matching offset before it; `None` exactly when no offset matches |
| PatternSearch.FindPatterns | src/lib.rs:60-70 | every reported offset starts a full, matching window, every matching offset is reported, and the list is strictly ascending |
| PatternProperties.MatchPatternExact | src/lib.rs:42-47 | for a window as long as the pattern, a match holds iff each position is `None` or equals `Some` of the window's byte |
| PatternProperties.WildcardIgnoresByte | src/lib.rs:18-20 | changing the byte under a wildcard position never changes whether the window matches |
| PatternProperties.FindPatternsUnique | src/lib.rs:63-70 | any strictly ascending list that holds exactly the matching offsets is the result of `find_patterns`, so that result is fully determined by its contract |
| PatternProperties.FindPatternIsFirstOfFindPatterns | src/lib.rs:54-70 | the first match is `Some` of the head of the list of all matches, and `None` exactly when that list is empty |
| PatternProperties.FindPatternIsLeast | src/lib.rs:49-58 | whenever some offset matches, the first-match search succeeds with an offset no greater than it |
| PatternProperties.FirstMatchIsFindPattern | src/lib.rs:54-58 | an offset that matches with no matching offset before it is exactly the result of the first-match search |
| PatternProperties.PatternLongerThanRegion | src/lib.rs:54-70 | a pattern longer than the region gives `None` and an empty list, not an error |
| PatternProperties.OverlappingMatchesReported | src/lib.rs:63-70 | when the windows at `k` and `k + 1` both match, both offsets appear, one right after the other in the list |
| PatternProperties.AllWildcardsMatchEverywhere | src/lib.rs:63-70 | an all-wildcard pattern yields every offset `0, 1, ..., |region| - |pattern|` and nothing else |
| PatternProperties.RegionAsLongAsPattern | src/lib.rs:54-70 | a region exactly as long as the pattern has one candidate offset, 0, reported exactly when the whole region matches |
| PatternScan.FindPatternScan | src/lib.rs:54-58 | a loop over ascending offsets that returns at the first matching window computes exactly `FindPattern` |
| PatternScan.FindPatternsScan | src/lib.rs:63-70 | a loop over ascending offsets that appends every matching offset computes exactly `FindPatterns` |
| PatternCases.Matching | src/lib.rs:133-139 | `DE AD 00 BE EF` matches `DE AD _ BE EF` |
| PatternCases.PatternFwd | src/lib.rs:93-104 | in 32 zero bytes with `DE AD FF BE EF` at offset 20, the first match of `DE AD _ BE EF` is at 20 |
| PatternCases.PatternFwdMultiple | src/lib.rs:106-117 | with copies at offsets 4 and 20, all matches are exactly `[4, 20]` |
| PatternCases.ShortRegion | src/lib.rs:54-56 | a 3-byte region searched for a 5-byte pattern gives `None` and `[]` |

## Left out

- `find_pattern_par` and `find_patterns_par` (src/lib.rs:72-87): rayon data parallelism is not modelled. Their intended meaning is the sequential `FindPattern` and `FindPatterns`. As written, `position_any` may return any matching offset, not necessarily the least, and `find_patterns_par` names an undeclared lifetime `'a`.
- The `pattern!` macro (src/lib.rs:28-39): token-level sugar that builds a `Vec<Option<u8>>`; the model writes patterns as sequences directly.
- `core::intrinsics::unlikely`: a branch-prediction hint, the identity on `bool`; the model drops it.
- The panic of `slice::windows` on a zero window size is modelled as the precondition `|pattern| > 0`, not as an error value.
- benches/pattern.rs: a timing harness over random data; nothing in it is a property of the search.
