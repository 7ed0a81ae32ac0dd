/**
 * Multiplication of tuples: vmeMulMagic1 (core.go:730-785), the truth table
 * for an operand whose mantissa is 0 and whose loss bit is set, and vmeMul
 * (core.go:787-821), which multiplies the mantissas into 128 bits and
 * reduces the product with vmhmeReduce.
 */
module CoreMul {
  import opened Bits
  import opened Vmes
  import opened CoreReduce

  /**
   * vmeMulMagic1: (v1, 0, e1) is ~0, ±~0, ±Inf or NaN, (v2, m2, e2) is the
   * other operand. Every result is a magic value or the exact Zero.
   */
  function VmeMulMagic1(v1: V, e1: int64, v2: V, m2: uint64, e2: int64): (r: Vme)
    ensures r.m == 0 && r.v.unit == 0
    ensures r.v.loss || r == ZeroVme
    ensures e1 != 0 && e1 != MinInt64 && e1 != MaxInt64 ==> r == NaNVme
  {
    if e1 == 0 then
      if m2 == 0 then
        if v2.loss then
          if e2 != 0 && e2 != MinInt64 then NaNVme else NearZeroVme
        else ZeroVme
      else NearZeroVme
    else if e1 == MinInt64 then
      if m2 == 0 && v2.loss && e2 != 0 && e2 != MinInt64 then NaNVme
      else if m2 == 0 && v2.loss && e2 == 0 then NearZeroVme
      else if m2 == 0 && !v2.loss then ZeroVme
      else Vme(V(v1.sign != v2.sign, true, 0), 0, MinInt64)
    else if e1 == MaxInt64 then
      if m2 == 0 && (!v2.loss || e2 != MaxInt64) then NaNVme
      else Vme(V(v1.sign != v2.sign, true, 0), 0, MaxInt64)
    else NaNVme
  }

  /**
   * vmeMul. `fixed` selects the treatment of an exact-zero left operand:
   * core.go:789-795 returns Zero whatever the right operand is, so that
   * 0 * NaN and 0 * Inf are Zero while NaN * 0 and Inf * 0 are NaN; the
   * corrected version consults the magic table of the right operand first.
   */
  function VmeMulWith(t1: Vme, t2: Vme, fixed: bool): (r: Vme)
    ensures t1.m != 0 && t2.m != 0 ==> r.v.sign == (t1.v.sign != t2.v.sign) && r.v.unit == t1.v.unit
    ensures t1.m != 0 && t2.m != 0 && (t1.v.loss || t2.v.loss) ==> r.v.loss
  {
    if t1.m == 0 && t1.v.loss then VmeMulMagic1(t1.v, t1.e, t2.v, t2.m, t2.e)
    else if t1.m == 0 && !(fixed && t2.m == 0 && t2.v.loss) then ZeroVme
    else if t2.m == 0 then
      if t2.v.loss then VmeMulMagic1(t2.v, t2.e, t1.v, t1.m, t1.e) else ZeroVme
    else
      var v := V(t1.v.sign != t2.v.sign, t1.v.loss || t2.v.loss, t1.v.unit);
      var e := Wrap64(t1.e as int + t2.e);
      if e < t1.e && t2.e > 0 then Vme(v.(loss := true), 0, MaxInt64)
      else if e > t1.e && t2.e < 0 then Vme(v.(loss := true), 0, MinInt64)
      else
        var hl := Mul64(t1.m, t2.m);
        VmhmeReduce(v, hl.0, hl.1, e)
  }

  /** vmeMul with the corrected zero operand; the rest of the model uses this one. */
  function VmeMul(t1: Vme, t2: Vme): (r: Vme)
    ensures t1.m != 0 && t2.m != 0 ==> r.v.sign == (t1.v.sign != t2.v.sign) && r.v.unit == t1.v.unit
  {
    VmeMulWith(t1, t2, true)
  }

  /**
   * Without loss the product of two ordinary operands is exact: r.m scaled
   * back to the exponent e1 + e2 is m1 * m2, and it is not zero.
   */
  lemma MulExact(t1: Vme, t2: Vme)
    requires t1.m != 0 && t2.m != 0
    requires MinInt64 <= t1.e as int + t2.e && t1.e as int + t2.e + 20 <= MaxInt64
    ensures var r := VmeMul(t1, t2);
              r.m != 0 && (!r.v.loss ==>
                t1.e + t2.e <= r.e <= t1.e + t2.e + 20 && r.m * Pow10(r.e - (t1.e + t2.e)) == t1.m * t2.m)
  {
    Wrap64SumTests(t1.e, t2.e);
    var v := V(t1.v.sign != t2.v.sign, t1.v.loss || t2.v.loss, t1.v.unit);
    var hl := Mul64(t1.m, t2.m);
    Mul64Product(t1.m, t2.m);
    assert VmeMul(t1, t2) == VmhmeReduce(v, hl.0, hl.1, t1.e + t2.e);
    ReduceExact(v, hl.0, hl.1, t1.e + t2.e);
    if hl.0 == 0 {
      assert hl.1 == t1.m * t2.m;
      MulMonotone(1, t1.m, t2.m);
    }
  }

  /** The product of two ordinary operands is ordinary, at an exponent from e1 + e2 to e1 + e2 + 20, loss or not. */
  lemma MulExponent(t1: Vme, t2: Vme)
    requires t1.m != 0 && t2.m != 0
    requires MinInt64 <= t1.e as int + t2.e && t1.e as int + t2.e + 20 <= MaxInt64
    ensures var r := VmeMul(t1, t2); r.m != 0 && t1.e + t2.e <= r.e <= t1.e + t2.e + 20
  {
    Wrap64SumTests(t1.e, t2.e);
    var v := V(t1.v.sign != t2.v.sign, t1.v.loss || t2.v.loss, t1.v.unit);
    var hl := Mul64(t1.m, t2.m);
    assert VmeMul(t1, t2) == VmhmeReduce(v, hl.0, hl.1, t1.e + t2.e);
    ReduceRaises(v, hl.0, hl.1, t1.e + t2.e);
    if hl.0 == 0 {
      Mul64Product(t1.m, t2.m);
      MulMonotone(1, t1.m, t2.m);
    }
  }

  /**
   * A product of at least 2^64 and below 10^18 * 2^64 is rounded to the
   * nearest: r.m * 10^k is within half of 10^k of m1 * m2.
   */
  lemma MulRoundsToNearest(t1: Vme, t2: Vme)
    requires t1.m != 0 && t2.m != 0
    requires MinInt64 <= t1.e as int + t2.e && t1.e as int + t2.e + 20 <= MaxInt64
    requires 0x1_0000_0000_0000_0000 <= t1.m * t2.m < 1_000_000_000_000_000_000 * 0x1_0000_0000_0000_0000
    ensures var r := VmeMul(t1, t2);
              t1.e + t2.e < r.e <= t1.e + t2.e + 20 && NearestAt(r.m, r.e - (t1.e + t2.e), t1.m * t2.m)
  {
    Wrap64SumTests(t1.e, t2.e);
    var v := V(t1.v.sign != t2.v.sign, t1.v.loss || t2.v.loss, t1.v.unit);
    var hl := Mul64(t1.m, t2.m);
    Mul64Product(t1.m, t2.m);
    assert VmeMul(t1, t2) == VmhmeReduce(v, hl.0, hl.1, t1.e + t2.e);
    ReduceRoundsToNearest(v, hl.0, hl.1, t1.e + t2.e);
  }

  /**
   * core.go:802-806: when e1 + e2 leaves the int64 range the product is the
   * infinity, or the near-zero, of the product's sign, flagged lossy.
   */
  lemma MulExponentOverflow(t1: Vme, t2: Vme)
    requires t1.m != 0 && t2.m != 0
    ensures var v := V(t1.v.sign != t2.v.sign, true, t1.v.unit);
              (t1.e as int + t2.e > MaxInt64 ==> VmeMul(t1, t2) == Vme(v, 0, MaxInt64)) &&
              (t1.e as int + t2.e < MinInt64 ==> VmeMul(t1, t2) == Vme(v, 0, MinInt64))
  {
    Wrap64SumTests(t1.e, t2.e);
  }

  /**
   * For operands of one unit the corrected product does not depend on the
   * order of its operands, magic values included.
   */
  lemma MulCommutes(t1: Vme, t2: Vme)
    requires t1.v.unit == t2.v.unit
    ensures VmeMul(t1, t2) == VmeMul(t2, t1)
  {
    if t1.m != 0 && t2.m != 0 {
      Wrap64SumTests(t1.e, t2.e);
      Wrap64SumTests(t2.e, t1.e);
      Mul64Commutes(t1.m, t2.m);
    }
  }

  /** NaN times anything is NaN, and anything but NaN times NaN is NaN too (core.go:783). */
  lemma MulNaN(t1: Vme, t2: Vme)
    requires IsNaNVme(t1) || IsNaNVme(t2)
    ensures VmeMul(t1, t2) == NaNVme
  {
  }

  /** Infinity times a zero or a near-zero is NaN, in either order (core.go:735-740, 768-776). */
  lemma MulInfinityByZero(t1: Vme, t2: Vme)
    requires IsInfVme(t1) && KindOf(t2) in {ExactZero, NearZero, NearPositive, NearNegative}
    ensures VmeMul(t1, t2) == NaNVme && VmeMul(t2, t1) == NaNVme
  {
  }

  /** Infinity times an ordinary value or an infinity is the infinity of the product's sign (core.go:780). */
  lemma MulInfinity(t1: Vme, t2: Vme)
    requires IsInfVme(t1) && (KindOf(t2) == Ordinary || IsInfVme(t2))
    ensures VmeMul(t1, t2) == InfVme(t1.v.sign != t2.v.sign)
  {
  }

  /**
   * Near-zeros times ordinary values: ~0 stays ~0, ±~0 keeps the product's
   * sign (core.go:746, 763); ±~0 times ±~0 is ±~0 as well.
   */
  lemma MulNearZero(t1: Vme, t2: Vme)
    requires KindOf(t1) in {NearZero, NearPositive, NearNegative}
    requires KindOf(t2) == Ordinary || KindOf(t2) in {NearPositive, NearNegative}
    ensures VmeMul(t1, t2) == if KindOf(t1) == NearZero then NearZeroVme else NearVme(t1.v.sign != t2.v.sign)
  {
  }

  /** An exact zero times an ordinary value or a zero is Zero (core.go:789-803). */
  lemma MulByZero(t1: Vme, t2: Vme)
    requires KindOf(t1) == ExactZero && KindOf(t2) in {Ordinary, ExactZero}
    ensures VmeMul(t1, t2) == ZeroVme && VmeMul(t2, t1) == ZeroVme
  {
  }

  /**
   * core.go:789-795 as written: Zero * NaN is Zero while NaN * Zero is NaN,
   * and Zero * +Inf is Zero while +Inf * Zero is NaN; the corrected product
   * gives NaN in all four cases.
   */
  lemma MulZeroAsymmetry()
    ensures VmeMulWith(ZeroVme, NaNVme, false) == ZeroVme && VmeMulWith(NaNVme, ZeroVme, false) == NaNVme
    ensures VmeMulWith(ZeroVme, InfVme(false), false) == ZeroVme && VmeMulWith(InfVme(false), ZeroVme, false) == NaNVme
    ensures VmeMul(ZeroVme, NaNVme) == NaNVme && VmeMul(ZeroVme, InfVme(false)) == NaNVme
  {
  }
}
