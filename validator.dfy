/** The dimension check that gates every multi-buffer operation. It only
    compares; the diagnostic it prints on a mismatch is not modelled. */
module Validator {
  import opened Pixels

  /** Three-buffer check (images A and B and the alpha buffer): 0 when all
      three share A's width and height, 1 otherwise. */
  function CheckIfSizesEqual(wA: Int32, hA: Int32, wB: Int32, hB: Int32, wAlpha: Int32, hAlpha: Int32): (r: int)
    ensures r == 0 || r == 1
    ensures r == 0 <==> wA == wB == wAlpha && hA == hB == hAlpha
  {
    if wA != wB || hA != hB || wAlpha != wA || hAlpha != hA then 1 else 0
  }

  /** Two-buffer check: 0 when A and B have the same width and height, 1
      otherwise. */
  function CheckIfSizesEqualPair(wA: Int32, hA: Int32, wB: Int32, hB: Int32): (r: int)
    ensures r == 0 || r == 1
    ensures r == 0 <==> wA == wB && hA == hB
  {
    if wA != wB || hA != hB then 1 else 0
  }

  /** The three-buffer check passes exactly when both the (A, B) and the
      (A, Alpha) pair checks pass. */
  lemma TripleIsTwoPairs(wA: Int32, hA: Int32, wB: Int32, hB: Int32, wAlpha: Int32, hAlpha: Int32)
    ensures CheckIfSizesEqual(wA, hA, wB, hB, wAlpha, hAlpha) == 0 <==>
            CheckIfSizesEqualPair(wA, hA, wB, hB) == 0 && CheckIfSizesEqualPair(wA, hA, wAlpha, hAlpha) == 0
  {
  }

  /** Checking image 1 against images 2 and 3 also vouches for the pair
      (2, 3), which is what lets the caller blend 2 with 3 and 3 with 1. */
  lemma PairChecksChain(w1: Int32, h1: Int32, w2: Int32, h2: Int32, w3: Int32, h3: Int32)
    requires CheckIfSizesEqualPair(w1, h1, w2, h2) == 0
    requires CheckIfSizesEqualPair(w1, h1, w3, h3) == 0
    ensures CheckIfSizesEqualPair(w2, h2, w3, h3) == 0
    ensures CheckIfSizesEqualPair(w3, h3, w1, h1) == 0
  {
  }
}
