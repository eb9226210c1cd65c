/** The unit tests of src/lib.rs, and a region shorter than the pattern,
    stated as lemmas. */
module PatternCases {
  import opened PatternSearch
  import opened PatternProperties

  /** `pattern!(0xDE, 0xAD, ?, 0xBE, 0xEF)`. */
  const Signature: Pattern := [Some(0xDE), Some(0xAD), None, Some(0xBE), Some(0xEF)]

  /** 32 zero bytes with `DE AD FF BE EF` at offset 20. */
  const OneCopy: seq<u8> := [
    0x00, 0x00, 0x00, 0x00, 0x00, 0x00, 0x00, 0x00, 0x00, 0x00, 0x00, 0x00, 0x00, 0x00,
    0x00, 0x00, 0x00, 0x00, 0x00, 0x00, 0xDE, 0xAD, 0xFF, 0xBE, 0xEF, 0x00, 0x00, 0x00,
    0x00, 0x00, 0x00, 0x00]

  /** 32 zero bytes with `DE AD FF BE EF` at offsets 4 and 20. */
  const TwoCopies: seq<u8> := [
    0x00, 0x00, 0x00, 0x00, 0xDE, 0xAD, 0xFF, 0xBE, 0xEF, 0x00, 0x00, 0x00, 0x00, 0x00,
    0x00, 0x00, 0x00, 0x00, 0x00, 0x00, 0xDE, 0xAD, 0xFF, 0xBE, 0xEF, 0x00, 0x00, 0x00,
    0x00, 0x00, 0x00, 0x00]

  /** `DE AD FF BE EF`, the bytes the tests plant in their regions. */
  const Planted: seq<u8> := [0xDE, 0xAD, 0xFF, 0xBE, 0xEF]

  function Zeros(n: nat): (z: seq<u8>)
    ensures |z| == n && forall i :: 0 <= i < n ==> z[i] == 0
  {
    seq(n, _ => 0)
  }

  /** Test `matching`: the wildcard accepts the 0x00 in the middle. */
  lemma Matching()
    ensures MatchPattern([0xDE, 0xAD, 0x00, 0xBE, 0xEF], Signature)
  {
  }

  /** Where the planted bytes sit in `OneCopy`: at offset 20, after 20 zeros. */
  lemma OneCopyLayout()
    ensures OneCopy[20..25] == Planted
    ensures forall x :: 0 <= x < 20 ==> OneCopy[x] == 0
  {
    var z20, z7 := Zeros(20), Zeros(7);
    assert OneCopy == z20 + Planted + z7;
  }

  /** Test `pattern_fwd`: the only copy is found at offset 20. */
  lemma PatternFwd()
    ensures FindPattern(OneCopy, Signature) == Some(20)
  {
    OneCopyLayout();
    forall j | 0 <= j < 20
      ensures !IsMatchAt(OneCopy, Signature, j)
    {
      assert OneCopy[j..j + 5][0] == OneCopy[j] == 0;
    }
    assert IsMatchAt(OneCopy, Signature, 20);
    FirstMatchIsFindPattern(OneCopy, Signature, 20);
  }

  /** Where the planted bytes sit in `TwoCopies`: 0xDE only at offsets 4 and 20. */
  lemma TwoCopiesLayout()
    ensures TwoCopies[4..9] == Planted && TwoCopies[20..25] == Planted
    ensures forall x :: 0 <= x < |TwoCopies| && TwoCopies[x] == 0xDE ==> x == 4 || x == 20
  {
    var z4, z11, z7 := Zeros(4), Zeros(11), Zeros(7);
    assert TwoCopies == z4 + Planted + z11 + Planted + z7;
  }

  /** In `TwoCopies`, the signature matches at offsets 4 and 20 and nowhere else. */
  lemma TwoCopiesMatches()
    ensures forall x: nat :: IsMatchAt(TwoCopies, Signature, x) <==> x == 4 || x == 20
  {
    TwoCopiesLayout();
    assert IsMatchAt(TwoCopies, Signature, 4) && IsMatchAt(TwoCopies, Signature, 20);
    forall x: nat | IsMatchAt(TwoCopies, Signature, x)
      ensures x == 4 || x == 20
    {
      assert TwoCopies[x..x + 5][0] == TwoCopies[x] == 0xDE;
    }
  }

  /** Test `pattern_fwd_multiple`: both copies are reported, in order. */
  lemma PatternFwdMultiple()
    ensures FindPatterns(TwoCopies, Signature) == [4, 20]
  {
    var all := FindPatterns(TwoCopies, Signature);
    TwoCopiesMatches();
    forall x
      ensures x in all <==> x in [4, 20]
    {
      if x in all {
        assert IsMatchAt(TwoCopies, Signature, x);
      }
    }
    StrictlyIncreasingUnique(all, [4, 20]);
  }

  /** A region shorter than the pattern: no match and no error. */
  lemma ShortRegion()
    ensures FindPattern([0xDE, 0xAD, 0xFF], Signature) == None
    ensures FindPatterns([0xDE, 0xAD, 0xFF], Signature) == []
  {
    PatternLongerThanRegion([0xDE, 0xAD, 0xFF], Signature);
  }
}
