/**
 * The (v, m, e) tuple every operation of the library works on, the magic
 * states it encodes when m == 0 (core.go:46-58), and the integer relation
 * "same value" m1 * 10^e1 == m2 * 10^e2 with the canonical form that the
 * normalizer promises to reach (core.go:34-37).
 */
module Vmes {
  import opened Bits

  /**
   * The v part of a tuple. In the source v is a uint64 of which only the sign
   * bit (63), the loss bit (62) and, for weights, the unit bits (53-56) are
   * ever set.
   */
  datatype V = V(sign: bool, loss: bool, unit: bv4)

  datatype Vme = Vme(v: V, m: uint64, e: int64)

  /** v == 0, v == sign, v == loss and v == sign | loss. */
  const NoBits: V := V(false, false, 0)
  const SignBit: V := V(true, false, 0)
  const LossBit: V := V(false, true, 0)
  const SignLoss: V := V(true, true, 0)

  /** Null (0, 0, 0), Zero (sign, 0, 0), NaN (loss, 0, 1) and ~0 (sign | loss, 0, 0). */
  const NullVme: Vme := Vme(NoBits, 0, 0)
  const ZeroVme: Vme := Vme(SignBit, 0, 0)
  const NaNVme: Vme := Vme(LossBit, 0, 1)
  const NearZeroVme: Vme := Vme(SignLoss, 0, 0)

  function InfVme(negative: bool): Vme {
    Vme(V(negative, true, 0), 0, MaxInt64)
  }

  function NearVme(negative: bool): Vme {
    Vme(V(negative, true, 0), 0, MinInt64)
  }

  /** The states of core.go:46-58, read off a tuple. */
  datatype Kind = Ordinary | ExactZero | NearZero | NearPositive | NearNegative
                | PosInf | NegInf | NaN

  function KindOf(t: Vme): Kind {
    if t.m != 0 then Ordinary
    else if !t.v.loss then ExactZero
    else if t.e == 0 then NearZero
    else if t.e == MinInt64 then (if t.v.sign then NearNegative else NearPositive)
    else if t.e == MaxInt64 then (if t.v.sign then NegInf else PosInf)
    else NaN
  }

  predicate IsNaNVme(t: Vme) {
    KindOf(t) == NaN
  }

  predicate IsInfVme(t: Vme) {
    KindOf(t) == PosInf || KindOf(t) == NegInf
  }

  /** m1 * 10^e1 == m2 * 10^e2, stated over the integers. */
  predicate SameValue(m1: nat, e1: int, m2: nat, e2: int) {
    if e1 <= e2 then m1 == m2 * Pow10(e2 - e1) else m2 == m1 * Pow10(e1 - e2)
  }

  /** The integer m with sign s. */
  function Sgn(s: bool, m: int): int {
    if s then -m else m
  }

  /** The signed value of t in units of 10^lo: ±t.m * 10^(t.e - lo). */
  function ScaledAt(t: Vme, lo: int): int
    requires lo <= t.e
  {
    Sgn(t.v.sign, t.m * Pow10(t.e - lo))
  }

  /** m * 10^e is an integer no larger than maxM. */
  predicate FitsInt(m: nat, e: int, maxM: nat) {
    if e >= 0 then m * Pow10(e) <= maxM
    else m % Pow10(-e) == 0 && m / Pow10(-e) <= maxM
  }

  /**
   * The normal form of a non-zero exact value: an integer with exponent 0
   * whenever it fits, otherwise an exponent within [minE, maxE] and a
   * mantissa with no trailing zero unless the exponent is already maxE.
   */
  predicate Canonical(m: nat, e: int, maxM: nat, minE: int, maxE: int) {
    1 <= m <= maxM &&
    (e == 0 ||
     (minE <= e <= maxE && !FitsInt(m, e, maxM) && (m % 10 != 0 || e == maxE)))
  }

  /** Multiplication by a positive factor is injective. */
  lemma MulCancel(a: int, b: int, c: int)
    requires c > 0 && a * c == b * c
    ensures a == b
  {
  }

  /** SameValue compares both mantissas scaled to any common lower exponent. */
  lemma SameValueAt(m1: nat, e1: int, m2: nat, e2: int, lo: int)
    requires lo <= e1 && lo <= e2
    ensures SameValue(m1, e1, m2, e2) <==> m1 * Pow10(e1 - lo) == m2 * Pow10(e2 - lo)
  {
    if e1 <= e2 {
      ScaleEquation(m1, m2, e2 - e1, e1 - lo);
    } else {
      ScaleEquation(m2, m1, e1 - e2, e2 - lo);
    }
  }

  lemma ScaleEquation(a: nat, b: nat, d: nat, k: nat)
    ensures a == b * Pow10(d) <==> a * Pow10(k) == b * Pow10(d + k)
  {
    Pow10Add(d, k);
    assert b * Pow10(d + k) == (b * Pow10(d)) * Pow10(k);
    if a * Pow10(k) == b * Pow10(d + k) {
      MulCancel(a, b * Pow10(d), Pow10(k));
    }
  }

  lemma SameValueTransitive(m1: nat, e1: int, m2: nat, e2: int, m3: nat, e3: int)
    requires SameValue(m1, e1, m2, e2) && SameValue(m2, e2, m3, e3)
    ensures SameValue(m1, e1, m3, e3)
  {
    var lo := if e1 <= e2 && e1 <= e3 then e1 else if e2 <= e3 then e2 else e3;
    SameValueAt(m1, e1, m2, e2, lo);
    SameValueAt(m2, e2, m3, e3, lo);
    SameValueAt(m1, e1, m3, e3, lo);
  }

  /** Equal values stay equal when both mantissas are multiplied by c and both exponents moved by f. */
  lemma SameValueTimes(m1: nat, e1: int, m2: nat, e2: int, c: nat, f: int)
    requires SameValue(m1, e1, m2, e2)
    ensures SameValue(m1 * c, e1 + f, m2 * c, e2 + f)
  {
    if e1 <= e2 {
      MulAssociates(m2, Pow10(e2 - e1), c);
      MulAssociates(m2, c, Pow10(e2 - e1));
    } else {
      MulAssociates(m1, Pow10(e1 - e2), c);
      MulAssociates(m1, c, Pow10(e1 - e2));
    }
  }

  /** Dropping a trailing zero and raising the exponent keeps the value. */
  lemma SameValueTenth(m: nat, e: int)
    requires m % 10 == 0
    ensures SameValue(m / 10, e + 1, m, e)
  {
    assert Pow10(1) == 10;
  }

  lemma SameValueSymmetric(m1: nat, e1: int, m2: nat, e2: int)
    requires SameValue(m1, e1, m2, e2)
    ensures SameValue(m2, e2, m1, e1)
  {
  }

  /** Whether a value is an integer bounded by maxM depends on the value only. */
  lemma FitsIntByValue(m1: nat, e1: int, m2: nat, e2: int, maxM: nat)
    requires SameValue(m1, e1, m2, e2)
    ensures FitsInt(m1, e1, maxM) == FitsInt(m2, e2, maxM)
  {
    if e1 <= e2 {
      FitsIntByValueOrdered(m1, e1, m2, e2, maxM);
    } else {
      FitsIntByValueOrdered(m2, e2, m1, e1, maxM);
    }
  }

  lemma FitsIntByValueOrdered(m1: nat, e1: int, m2: nat, e2: int, maxM: nat)
    requires e1 <= e2 && m1 == m2 * Pow10(e2 - e1)
    ensures FitsInt(m1, e1, maxM) == FitsInt(m2, e2, maxM)
  {
    if 0 <= e1 {
      FitsIntBothNonNegative(m1, e1, m2, e2, maxM);
    } else if 0 <= e2 {
      FitsIntMixedSigns(m1, e1, m2, e2, maxM);
    } else {
      FitsIntBothNegative(m1, e1, m2, e2, maxM);
    }
  }

  lemma FitsIntBothNonNegative(m1: nat, e1: int, m2: nat, e2: int, maxM: nat)
    requires 0 <= e1 <= e2 && m1 == m2 * Pow10(e2 - e1)
    ensures FitsInt(m1, e1, maxM) == FitsInt(m2, e2, maxM)
  {
    var a, b := Pow10(e2 - e1), Pow10(e1);
    Pow10Add(e2 - e1, e1);
    MulAssociates(m2, a, b);
  }

  lemma MulAssociates(x: int, y: int, z: int)
    ensures x * (y * z) == (x * y) * z
  {
  }

  lemma FitsIntMixedSigns(m1: nat, e1: int, m2: nat, e2: int, maxM: nat)
    requires e1 < 0 <= e2 && m1 == m2 * Pow10(e2 - e1)
    ensures FitsInt(m1, e1, maxM) == FitsInt(m2, e2, maxM)
  {
    var q := Pow10(-e1);
    Pow10Add(e2, -e1);
    assert m1 == q * (m2 * Pow10(e2)) + 0;
    DivModUnique(m1, q, m2 * Pow10(e2), 0);
  }

  lemma FitsIntBothNegative(m1: nat, e1: int, m2: nat, e2: int, maxM: nat)
    requires e1 <= e2 < 0 && m1 == m2 * Pow10(e2 - e1)
    ensures FitsInt(m1, e1, maxM) == FitsInt(m2, e2, maxM)
  {
    Pow10Add(e2 - e1, -e2);
    DivisibilityScaled(m2, Pow10(e2 - e1), Pow10(-e2), maxM);
  }

  /** Scaling dividend and divisor by p keeps divisibility and the quotient. */
  lemma DivisibilityScaled(n: nat, p: nat, d: nat, maxM: nat)
    requires p >= 1 && d >= 1
    ensures ((n * p) % (p * d) == 0 && (n * p) / (p * d) <= maxM) == (n % d == 0 && n / d <= maxM)
  {
    var a, b := n / d, n % d;
    ScaledDivision(n, p, d, a, b);
    DivModUnique(n * p, p * d, a, b * p);
  }

  lemma ScaledDivision(n: nat, p: nat, d: nat, a: nat, b: nat)
    requires p >= 1 && d >= 1 && n == d * a + b && b < d
    ensures n * p == (p * d) * a + b * p && 0 <= b * p < p * d
    ensures (b * p == 0) == (b == 0)
  {
    MulMonotone(b, d - 1, p);
  }

  /** Two canonical forms of the same value are identical. */
  lemma CanonicalUnique(m1: nat, e1: int, m2: nat, e2: int, maxM: nat, minE: int, maxE: int)
    requires Canonical(m1, e1, maxM, minE, maxE) && Canonical(m2, e2, maxM, minE, maxE)
    requires SameValue(m1, e1, m2, e2)
    ensures m1 == m2 && e1 == e2
  {
    FitsIntByValue(m1, e1, m2, e2, maxM);
    if e1 == 0 || e2 == 0 {
      assert FitsInt(m1, e1, maxM) && FitsInt(m2, e2, maxM);
    } else if e1 < e2 {
      TrailingZero(m2, e2 - e1);
    } else if e2 < e1 {
      TrailingZero(m1, e1 - e2);
    }
  }

  lemma TrailingZero(m: nat, k: nat)
    requires k >= 1
    ensures (m * Pow10(k)) % 10 == 0
  {
    assert m * Pow10(k) == 10 * (m * Pow10(k - 1));
  }
}
