/**
 * The two ways the source looks up the first power of ten above a number:
 * the linear `for i, p := range tenPow` scan of vmhmeReduce and vmeDivRem
 * (core.go:185-199, 894-905), and the three bisection steps followed by a
 * scan of vmeAdd (core.go:651-693). Both find Digits(x).
 */
module TenPowSearch {
  import opened Bits

  /**
   * The scan of core.go:185-199: the first index i of tenPow with x < 10^i,
   * or found == false when x is at least 10^19.
   */
  method ScanTenPow(x: uint64) returns (found: bool, i: nat)
    requires x >= 1
    ensures found <==> x < 10_000_000_000_000_000_000
    ensures found ==> i == Digits(x) && 1 <= i < TenPowLen
  {
    i := 0;
    while i < TenPowLen
      invariant 0 <= i <= TenPowLen
      invariant i >= 1 ==> Pow10(i - 1) <= x
    {
      if x < TenPow(i) {
        DigitsUnique(x, i);
        Pow10Monotone(i, 19);
        Pow10Limits();
        return true, i;
      }
      i := i + 1;
    }
    Pow10Limits();
    return false, 0;
  }

  /** One bisection step of core.go:654-676: halve [i, j] keeping 10^(i-1) <= h < 10^j. */
  method BisectStep(h: uint64, i: nat, j: nat) returns (i': nat, j': nat)
    requires 1 <= i <= j < TenPowLen && Pow10(i - 1) <= h < Pow10(j)
    ensures 1 <= i' <= j' < TenPowLen && Pow10(i' - 1) <= h < Pow10(j')
    ensures i <= i' && j' <= j
  {
    var k := (i + j) / 2;
    if h < TenPow(k) {
      i', j' := i, k;
    } else {
      Pow10Monotone(k - 1, k);
      i', j' := k, j;
    }
  }

  /**
   * The search of core.go:651-693. Starting from the range [1, 19] three
   * bisection steps narrow it to at most three candidates, which are then
   * scanned.
   */
  method BisectTenPow(h: uint64) returns (k: nat)
    requires 1 <= h < 10_000_000_000_000_000_000
    ensures k == Digits(h) && 1 <= k < TenPowLen
  {
    Pow10At19();
    var i, j := 1, TenPowLen - 1;
    i, j := BisectStep(h, i, j);
    i, j := BisectStep(h, i, j);
    i, j := BisectStep(h, i, j);
    k := ScanRange(h, i, j);
  }

  /** The final scan of core.go:678-693 over the candidates i..j left by the bisection. */
  method ScanRange(h: uint64, i: nat, j: nat) returns (k: nat)
    requires 1 <= i <= j < TenPowLen && Pow10(i - 1) <= h < Pow10(j)
    ensures k == Digits(h) && i <= k <= j
  {
    k := i;
    while k <= j
      invariant i <= k <= j + 1
      invariant Pow10(k - 1) <= h < Pow10(j)
      decreases j + 1 - k
    {
      if h < TenPow(k) {
        DigitsUnique(h, k);
        return k;
      }
      k := k + 1;
    }
    assert false;
  }
}
