/**
 The machine integers of the programs, as ranges of mathematical ones.
 */
module Widths {
  const TWO32: nat := 0x1_0000_0000
  const TWO64: nat := 0x1_0000_0000_0000_0000

  type U32 = n: nat | n < TWO32
  type U64 = n: nat | n < TWO64
}

module FiniteSets {
  /** There are at most `n` numbers below `n`. */
  lemma {:induction false} AtMost(s: set<nat>, n: nat)
    requires forall v :: v in s ==> v < n
    ensures |s| <= n
  {
    if n == 0 {
      assert s == {};
    } else {
      AtMost(s - {n - 1}, n - 1);
    }
  }
}
