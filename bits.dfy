/**
 * Machine-word helpers shared by the whole model: the unsigned and signed
 * 64-bit ranges as subset types of int, Go's wrap-around arithmetic written
 * out, the table of powers of ten that fit in a uint64, and the
 * 64x64->128-bit multiply and 128/64-bit divide of Go's math/bits package
 * over mathematical integers.
 */
module Bits {

  datatype Option<T> = None | Some(value: T)


  type uint64 = x: int | 0 <= x < 0x1_0000_0000_0000_0000
  type int64 = x: int | -0x8000_0000_0000_0000 <= x < 0x8000_0000_0000_0000
  type int32 = x: int | -0x8000_0000 <= x < 0x8000_0000
  type byte = x: int | 0 <= x < 0x100

  const MinInt64: int64 := -0x8000_0000_0000_0000
  const MaxInt64: int64 := 0x7fff_ffff_ffff_ffff

  /** Number of entries of the tenPow table: 10^0 .. 10^19. */
  const TenPowLen: nat := 20

  /** Two's-complement reduction of a mathematical integer into int64. */
  function Wrap64(x: int): (r: int64)
    ensures (x - r) % 0x1_0000_0000_0000_0000 == 0
    ensures MinInt64 <= x <= MaxInt64 ==> r == x
  {
    var k := (x + 0x8000_0000_0000_0000) % 0x1_0000_0000_0000_0000;
    assert 0 <= k < 0x1_0000_0000_0000_0000;
    k - 0x8000_0000_0000_0000
  }

  /** One step of 2^64 below or above the int64 range wraps by exactly 2^64. */
  lemma Wrap64Shift(x: int)
    requires MinInt64 - 0x1_0000_0000_0000_0000 <= x <= MaxInt64 + 0x1_0000_0000_0000_0000
    ensures x > MaxInt64 ==> Wrap64(x) == x - 0x1_0000_0000_0000_0000
    ensures x < MinInt64 ==> Wrap64(x) == x + 0x1_0000_0000_0000_0000
  {
    var n := x + 0x8000_0000_0000_0000;
    if x > MaxInt64 {
      DivModUnique(n, 0x1_0000_0000_0000_0000, 1, n - 0x1_0000_0000_0000_0000);
    } else if x < MinInt64 {
      DivModUnique(n, 0x1_0000_0000_0000_0000, -1, n + 0x1_0000_0000_0000_0000);
    }
  }

  /**
   * The overflow tests of core.go:802-806 on `e := e1 + e2`: a wrapped sum
   * below e1 with e2 > 0 means the sum overflowed, a wrapped sum above e1
   * with e2 < 0 means it underflowed.
   */
  lemma Wrap64SumTests(a: int64, b: int64)
    ensures (Wrap64(a as int + b) < a && b > 0) <==> a as int + b > MaxInt64
    ensures (Wrap64(a as int + b) > a && b < 0) <==> a as int + b < MinInt64
  {
    Wrap64Shift(a as int + b);
  }

  /** Go's unary minus on int64: -MinInt64 wraps to MinInt64. */
  function Neg64(x: int64): (r: int64)
    ensures x != MinInt64 ==> r == -x
    ensures x == MinInt64 ==> r == MinInt64
  {
    Wrap64(-(x as int))
  }

  /** `x++` on a uint64. */
  function Inc64(x: uint64): (r: uint64)
    ensures x < 0x1_0000_0000_0000_0000 - 1 ==> r == x + 1
    ensures x == 0x1_0000_0000_0000_0000 - 1 ==> r == 0
  {
    if x == 0x1_0000_0000_0000_0000 - 1 then 0 else x + 1
  }

  /** `x << 1` on a uint64: the top bit is lost. */
  function Shl1(x: uint64): (r: uint64)
    ensures x < 0x8000_0000_0000_0000 <==> r == 2 * x
    ensures x >= 0x8000_0000_0000_0000 ==> r == 2 * x - 0x1_0000_0000_0000_0000
  {
    if x < 0x8000_0000_0000_0000 then 2 * x else 2 * x - 0x1_0000_0000_0000_0000
  }

  function Pow10(n: nat): (r: nat)
    ensures r >= 1
  {
    if n == 0 then 1 else 10 * Pow10(n - 1)
  }

  lemma {:induction false} Pow10Add(a: nat, b: nat)
    ensures Pow10(a + b) == Pow10(a) * Pow10(b)
  {
    if a > 0 {
      Pow10Add(a - 1, b);
      assert Pow10(a + b) == 10 * Pow10(a - 1 + b);
    }
  }

  lemma {:induction false} Pow10Monotone(a: nat, b: nat)
    requires a <= b
    ensures Pow10(a) <= Pow10(b)
    ensures a < b ==> 10 * Pow10(a) <= Pow10(b)
  {
    if a < b {
      Pow10Monotone(a, b - 1);
    }
  }

  /** 10^19 is the largest power of ten below 2^64, 10^20 is above it. */
  lemma Pow10Limits()
    ensures Pow10(18) == 1_000_000_000_000_000_000
    ensures Pow10(19) == 10_000_000_000_000_000_000 < 0x1_0000_0000_0000_0000
    ensures Pow10(20) == 100_000_000_000_000_000_000 > 0x1_0000_0000_0000_0000
  {
    assert Pow10(1) == 10;
    assert Pow10(2) == 100;
    assert Pow10(3) == 1000;
    assert Pow10(4) == 10000;
    assert Pow10(5) == 100000;
    assert Pow10(6) == 1000000;
    assert Pow10(7) == 10000000;
    assert Pow10(8) == 100000000;
    assert Pow10(9) == 1000000000;
    assert Pow10(10) == 10000000000;
    assert Pow10(11) == 100000000000;
    assert Pow10(12) == 1000000000000;
    assert Pow10(13) == 10000000000000;
    assert Pow10(14) == 100000000000000;
    assert Pow10(15) == 1000000000000000;
    assert Pow10(16) == 10000000000000000;
    assert Pow10(17) == 100000000000000000;
    assert Pow10(18) == 1000000000000000000;
    assert Pow10(19) == 10000000000000000000;
    assert Pow10(20) == 100000000000000000000;
  }

  lemma MulMonotone(a: int, b: int, c: nat)
    requires a <= b
    ensures a * c <= b * c
  {
  }

  /** Number of decimal digits of m (1 for m < 10). */
  function Digits(m: nat): (k: nat)
    ensures k >= 1
  {
    if m < 10 then 1 else 1 + Digits(m / 10)
  }

  lemma {:induction false} DigitsBound(m: nat, k: nat)
    requires m < Pow10(k)
    ensures Digits(m) <= k || (m == 0 && k == 0)
  {
    if m >= 10 {
      DigitsBound(m / 10, k - 1);
    }
  }

  /** Digits(x) is the k with 10^(k-1) <= x < 10^k. */
  lemma {:induction false} DigitsRange(x: nat)
    requires x >= 1
    ensures Pow10(Digits(x) - 1) <= x < Pow10(Digits(x))
  {
    if x >= 10 {
      DigitsRange(x / 10);
      var d := Digits(x / 10);
      assert Pow10(d + 1) == 10 * Pow10(d);
    }
  }

  lemma {:induction false} DigitsUnique(x: nat, i: nat)
    requires i >= 1 && Pow10(i - 1) <= x < Pow10(i)
    ensures Digits(x) == i
  {
    if i == 1 {
      assert Pow10(1) == 10;
    } else {
      assert Pow10(i) == 10 * Pow10(i - 1) && Pow10(i - 1) == 10 * Pow10(i - 2);
      DigitsUnique(x / 10, i - 1);
    }
  }

  /** A word below 10^19 has between 1 and 19 digits, Digits(x) being the first tenPow index above x. */
  lemma DigitsOfWord(x: nat)
    requires 1 <= x < 10_000_000_000_000_000_000
    ensures 1 <= Digits(x) < TenPowLen && Pow10(Digits(x) - 1) <= x < Pow10(Digits(x))
  {
    Pow10Limits();
    DigitsBound(x, 19);
    DigitsRange(x);
  }

  lemma Pow10AtMost18(i: nat)
    requires i <= 18
    ensures Pow10(i) <= 1_000_000_000_000_000_000
  {
    Pow10Limits();
    Pow10Monotone(i, 18);
  }

  lemma Pow10At19()
    ensures Pow10(19) == 10_000_000_000_000_000_000
  {
    Pow10Limits();
  }

  /** From 10^20 on, powers of ten exceed every uint64. */
  lemma Pow10Above64(k: nat)
    requires k >= 20
    ensures Pow10(k) > 0x1_0000_0000_0000_0000
  {
    Pow10Limits();
    Pow10Monotone(20, k);
  }

  /** A word below 10^18 has at most 18 digits. */
  lemma DigitsBelow18(x: nat)
    requires 1 <= x < 1_000_000_000_000_000_000
    ensures 1 <= Digits(x) <= 18 && Pow10(Digits(x) - 1) <= x < Pow10(Digits(x))
  {
    Pow10Limits();
    DigitsBound(x, 18);
    DigitsRange(x);
  }

  /** Euclidean division is determined by its defining equation. */
  lemma DivModUnique(n: int, d: int, q: int, r: int)
    requires d > 0 && 0 <= r < d && n == d * q + r
    ensures n / d == q && n % d == r
  {
    var q', r' := n / d, n % d;
    assert d * q' + r' == d * q + r;
    if q' > q {
      assert (q' - q) * d == d * q' - d * q;
      MulMonotone(1, q' - q, d);
    } else if q' < q {
      assert (q - q') * d == d * q - d * q';
      MulMonotone(1, q - q', d);
    }
  }

  /** The defining equation and the ranges of Euclidean division by a positive number. */
  lemma DivModBasics(n: nat, y: int)
    requires y > 0
    ensures (n / y) * y + n % y == n
    ensures 0 <= n / y && 0 <= n % y < y
  {
  }

  /** n < y * c implies n / y < c. */
  lemma DivBelow(n: nat, y: nat, c: nat)
    requires 0 < y && n < y * c
    ensures n / y < c
  {
    if n / y >= c {
      MulMonotone(c, n / y, y);
    }
  }

  /**
   * Reducing modulo 10^k (k >= 1) keeps the last decimal digit, hence the
   * remainders modulo 10 and modulo 2.
   */
  lemma {:induction false} ModPow10KeepsLastDigit(m: nat, k: nat)
    requires k >= 1
    ensures m % 10 == (m % Pow10(k)) % 10
    ensures m % 2 == (m % Pow10(k)) % 2
  {
    var p, a := Pow10(k), Pow10(k - 1);
    assert p == 10 * a;
    DivModBasics(m, p);
    var q, r := m / p, m % p;
    assert q * p == 10 * (a * q);
    LastDigitShift(a * q, r);
  }

  /** Adding a multiple of 10 keeps the remainders modulo 10 and modulo 2. */
  lemma LastDigitShift(j: int, r: int)
    ensures (10 * j + r) % 10 == r % 10 && (10 * j + r) % 2 == r % 2
  {
    DivModUnique(10 * j + r, 10, j + r / 10, r % 10);
    DivModUnique(10 * j + r, 2, 5 * j + r / 2, r % 2);
  }

  /** The entry tenPow[i] of the source's table (core.go:28-32). */
  function TenPow(i: nat): (p: uint64)
    requires i < TenPowLen
    ensures p == Pow10(i)
    ensures 1 <= p <= 10_000_000_000_000_000_000
  {
    Pow10Monotone(i, 19);
    Pow10Limits();
    Pow10(i)
  }

  lemma MulBound(x: uint64, y: uint64)
    ensures 0 <= x * y <= (0x1_0000_0000_0000_0000 - 1) * (0x1_0000_0000_0000_0000 - 1)
  {
    MulMonotone(x, 0x1_0000_0000_0000_0000 - 1, y);
    MulMonotone(y, 0x1_0000_0000_0000_0000 - 1, 0x1_0000_0000_0000_0000 - 1);
  }

  /** bits.Mul64: the 128-bit product as (high word, low word). */
  function Mul64(x: uint64, y: uint64): (hl: (uint64, uint64))
    ensures hl.0 * 0x1_0000_0000_0000_0000 + hl.1 == Times(x, y)
  {
    MulExistsUnique(x, y);
    var hl: (uint64, uint64) :| hl.0 * 0x1_0000_0000_0000_0000 + hl.1 == Times(x, y);
    hl
  }

  /** The contract of Mul64 with the product written out, for proofs that need it. */
  lemma Mul64Product(x: uint64, y: uint64)
    ensures Mul64(x, y).0 * 0x1_0000_0000_0000_0000 + Mul64(x, y).1 == x * y
  {
    TimesIsProduct(x, y);
  }

  lemma Mul64Commutes(x: uint64, y: uint64)
    ensures Mul64(x, y) == Mul64(y, x)
  {
    Mul64Product(x, y);
    Mul64Product(y, x);
    var a, b := Mul64(x, y), Mul64(y, x);
    DivModUnique(x * y, 0x1_0000_0000_0000_0000, a.0, a.1);
    DivModUnique(x * y, 0x1_0000_0000_0000_0000, b.0, b.1);
  }

  lemma MulExistsUnique(x: uint64, y: uint64)
    ensures exists hl: (uint64, uint64) :: hl.0 * 0x1_0000_0000_0000_0000 + hl.1 == Times(x, y)
    ensures forall hl: (uint64, uint64), hl': (uint64, uint64) ::
              hl.0 * 0x1_0000_0000_0000_0000 + hl.1 == Times(x, y) && hl'.0 * 0x1_0000_0000_0000_0000 + hl'.1 == Times(x, y) ==> hl == hl'
  {
    MulBound(x, y);
    TimesIsProduct(x, y);
    var n := x * y;
    var w: (uint64, uint64) := (n / 0x1_0000_0000_0000_0000, n % 0x1_0000_0000_0000_0000);
    assert w.0 * 0x1_0000_0000_0000_0000 + w.1 == Times(x, y);
    forall hl: (uint64, uint64) | hl.0 * 0x1_0000_0000_0000_0000 + hl.1 == Times(x, y)
      ensures hl == w
    {
      DivModUnique(n, 0x1_0000_0000_0000_0000, hl.0, hl.1);
    }
  }

  lemma Div128Bound(hi: uint64, lo: uint64, y: uint64)
    requires 0 < y && hi < y
    ensures (hi * 0x1_0000_0000_0000_0000 + lo) / y < 0x1_0000_0000_0000_0000
  {
    var n := hi * 0x1_0000_0000_0000_0000 + lo;
    MulMonotone(hi + 1, y, 0x1_0000_0000_0000_0000);
    DivBelow(n, y, 0x1_0000_0000_0000_0000);
  }

  /**
   * bits.Div64: quotient and remainder of the 128-bit number (hi, lo) by y.
   * Go panics unless y != 0 and hi < y; the precondition says the same.
   */
  function Div64(hi: uint64, lo: uint64, y: uint64): (qr: (uint64, uint64))
    requires 0 < y && hi < y
    ensures IsDivMod(hi * 0x1_0000_0000_0000_0000 + lo, y, qr.0, qr.1)
  {
    Div128Bound(hi, lo, y);
    DivModExistsUnique(hi * 0x1_0000_0000_0000_0000 + lo, y);
    var qr: (uint64, uint64) :| IsDivMod(hi * 0x1_0000_0000_0000_0000 + lo, y, qr.0, qr.1);
    qr
  }

  /** The contract of Div64 with the product written out, for proofs that need it. */
  lemma Div64Product(hi: uint64, lo: uint64, y: uint64)
    requires 0 < y && hi < y
    ensures Div64(hi, lo, y).0 * y + Div64(hi, lo, y).1 == hi * 0x1_0000_0000_0000_0000 + lo
    ensures Div64(hi, lo, y).1 < y
  {
    TimesIsProduct(Div64(hi, lo, y).0, y);
  }

  /** q and r are the quotient and remainder of n by y. */
  predicate IsDivMod(n: int, y: int, q: nat, r: int) {
    Times(q, y) + r == n && 0 <= r < y
  }

  /**
   * The product a * b as repeated addition. Word-level contracts state
   * products with it, so that the solver sees them as linear until a proof
   * asks for TimesIsProduct.
   */
  function Times(a: nat, b: int): int {
    if a == 0 then 0 else b + Times(a - 1, b)
  }

  lemma {:induction false} TimesIsProduct(a: nat, b: int)
    ensures Times(a, b) == a * b
  {
    if a > 0 {
      TimesIsProduct(a - 1, b);
    }
  }

  lemma DivModExistsUnique(n: nat, y: int)
    requires 0 < y < 0x1_0000_0000_0000_0000 && n / y < 0x1_0000_0000_0000_0000
    ensures exists qr: (uint64, uint64) :: IsDivMod(n, y, qr.0, qr.1)
    ensures forall qr: (uint64, uint64), qr': (uint64, uint64) :: IsDivMod(n, y, qr.0, qr.1) && IsDivMod(n, y, qr'.0, qr'.1) ==> qr == qr'
  {
    DivModBasics(n, y);
    var w: (uint64, uint64) := (n / y, n % y);
    TimesIsProduct(w.0, y);
    assert IsDivMod(n, y, w.0, w.1);
    forall qr: (uint64, uint64) | IsDivMod(n, y, qr.0, qr.1)
      ensures qr == w
    {
      TimesIsProduct(qr.0, y);
      DivModUnique(n, y, qr.0, qr.1);
    }
  }

  /** An odd number is not a multiple of 10^k, k >= 1. */
  lemma OddNotMultipleOfPow10(m: nat, k: nat)
    requires k >= 1 && m % 2 == 1
    ensures m % Pow10(k) != 0
  {
    ModPow10KeepsLastDigit(m, k);
  }

  /** A number not divisible by 10 is not divisible by any 10^k, k >= 1. */
  lemma NotMultipleOfTenPow(m: nat, k: nat)
    requires k >= 1 && m % 10 != 0
    ensures m % Pow10(k) != 0
  {
    ModPow10KeepsLastDigit(m, k);
  }
}
