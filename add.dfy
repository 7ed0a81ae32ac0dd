/**
 * Addition of tuples: vmeAddMagic1 (core.go:565-608), the truth table for
 * an operand whose mantissa is 0 and whose loss bit is set, and vmeAdd
 * (core.go:610-728).
 */
module CoreAdd {
  import opened Bits
  import opened Vmes
  import opened CoreReduce
  import opened TenPowSearch

  /**
   * vmeAddMagic1: (v1, 0, e1) is ~0, ±~0, ±Inf or NaN (its loss bit is set),
   * (v2, m2, e2) is the other operand.
   */
  function VmeAddMagic1(v1: V, e1: int64, v2: V, m2: uint64, e2: int64): (r: Vme)
    ensures e1 != 0 && e1 != MinInt64 && e1 != MaxInt64 ==> r == Vme(v1, 0, e1)
    ensures e1 == MaxInt64 && m2 != 0 ==> r == Vme(v1, 0, e1)
    ensures (e1 == 0 || e1 == MinInt64) && (m2 != 0 || v2.loss) ==> r.v.loss && r.m == m2
  {
    if e1 == 0 || e1 == MinInt64 then
      if m2 == 0 && v2.loss then
        if v2 == SignLoss && e2 == 0 then Vme(v2, m2, e2)
        else if e2 == MinInt64 then
          if v1.sign == v2.sign then Vme(v2, m2, e2) else NearZeroVme
        else Vme(v2, m2, e2)
      else if !v2.loss && v2.unit == 0 && m2 == 0 && e2 == 0 then Vme(v1, 0, e1)
      else Vme(v2.(loss := true), m2, e2)
    else if e1 == MaxInt64 then
      if m2 == 0 && v2.loss then
        if e2 == MaxInt64 then
          if v1.sign == v2.sign then Vme(v2, m2, e2) else NaNVme
        else if e2 == MinInt64 then Vme(v1, 0, e1)
        else Vme(v2, m2, e2)
      else Vme(v1, 0, e1)
    else Vme(v1, 0, e1)
  }

  /**
   * Go computes e2 - e1 of two ordinary operands in int64 and indexes tenPow
   * with it (core.go:640-641): the difference must not overflow.
   */
  predicate AddDefined(t1: Vme, t2: Vme) {
    t1.m != 0 && t2.m != 0 ==> -MaxInt64 <= t1.e - t2.e <= MaxInt64
  }

  /**
   * vmeAdd. `fixed` selects what happens when the sum of two same-signed
   * mantissas exceeds 64 bits: core.go:706 lets `m1 + m2` wrap, the
   * corrected version reduces the 65-bit sum with vmhmeReduce.
   */
  function VmeAddWith(t1: Vme, t2: Vme, fixed: bool): (r: Vme)
    requires AddDefined(t1, t2)
    ensures t1.v.loss || t2.v.loss ==> r.v.loss
  {
    var v0 := V(false, false, t1.v.unit);
    var a := if t1.e > t2.e then t2 else t1;
    var b := if t1.e > t2.e then t1 else t2;
    if a.m == 0 then
      var v := V(b.v.sign, b.v.loss, v0.unit);
      if a.v.loss then VmeAddMagic1(a.v, a.e, v, b.m, b.e) else Vme(v, b.m, b.e)
    else if b.m == 0 then
      var v := V(a.v.sign, a.v.loss, v0.unit);
      if b.v.loss then VmeAddMagic1(b.v, b.e, v, a.m, a.e) else Vme(v, a.m, a.e)
    else AddOrdinary(v0, a, b, fixed)
  }

  /** The body of vmeAdd for two operands with non-zero mantissas, a.e <= b.e (core.go:636-727). */
  function AddOrdinary(v0: V, a: Vme, b: Vme, fixed: bool): (r: Vme)
    requires a.m != 0 && b.m != 0 && a.e <= b.e && b.e - a.e <= MaxInt64
    ensures a.v.loss || b.v.loss ==> r.v.loss
    ensures r.v.unit == v0.unit || r.v.unit == b.v.unit
  {
    if a.e < b.e then
      if b.e - a.e < TenPowLen as int then AddShifted(v0, a, b, (b.e - a.e) as nat, fixed)
      else Vme(b.v.(loss := true), b.m, b.e)
    else Combine(v0, a.v, a.m, b.v, b.m, a.e, fixed)
  }

  /**
   * core.go:644-700: b's exponent exceeds a's by d, 1 <= d < 20; b's
   * mantissa is scaled by 10^d to a's exponent as a 128-bit product.
   */
  function AddShifted(v0: V, a: Vme, b: Vme, d: nat, fixed: bool): (r: Vme)
    requires 1 <= d < TenPowLen && a.e as int + d == b.e
    ensures a.v.loss || b.v.loss ==> r.v.loss
    ensures r.v.unit == v0.unit
  {
    var hl := Mul64(b.m, TenPow(d));
    if hl.0 != 0 then
      ScaledHighBound(b.m, d);
      var k := ScaleIndex(hl.0, d);
      AddScaled(v0, a, b.v, hl.0, hl.1, TenPow(k), a.e + k, fixed)
    else Combine(v0, a.v, a.m, b.v, hl.1, a.e, fixed)
  }

  /**
   * core.go:644-696: the scaled mantissa (h, l) of the operand with the
   * larger exponent needs more than 64 bits, so both mantissas are divided
   * by p = 10^k, the first power of ten above h, setting the loss bit when
   * either division is inexact; e is the exponent after the division, k
   * above the smaller exponent.
   */
  function AddScaled(v0: V, a: Vme, v2: V, h: uint64, l: uint64, p: uint64, e: int64, fixed: bool): (r: Vme)
    requires h < p
    ensures a.v.loss || v2.loss ==> r.v.loss
    ensures r.v.unit == v0.unit
  {
    var q2 := Div64(h, l, p);
    var q1 := Div64(0, a.m, p);
    CombineDivided(v0, a.v, q1.0, q1.1, v2, q2.0, q2.1, e, fixed)
  }

  /** The index of the first tenPow entry above h, at most d when h < 10^d. */
  function ScaleIndex(h: uint64, d: nat): (k: nat)
    requires 1 <= h < Pow10(d) && d < TenPowLen
    ensures k == Digits(h) && 1 <= k <= d && Pow10(k - 1) <= h < Pow10(k)
  {
    DigitsBound(h, d);
    DigitsRange(h);
    Digits(h)
  }

  /** core.go:684-693: the quotients are combined, the loss bit set when a remainder is not 0. */
  function CombineDivided(v0: V, v1: V, q1: uint64, r1: uint64, v2: V, q2: uint64, r2: uint64, e: int64, fixed: bool): (r: Vme)
    ensures r1 != 0 || r2 != 0 || v1.loss || v2.loss ==> r.v.loss
    ensures r1 == 0 && r2 == 0 ==> r == Combine(v0, v1, q1, v2, q2, e, fixed)
    ensures r.v.unit == v0.unit
  {
    var v := if r2 != 0 || r1 != 0 then v0.(loss := true) else v0;
    Combine(v, v1, q1, v2, q2, e, fixed)
  }

  /**
   * The end of vmeAdd (core.go:704-725): add or subtract the aligned
   * mantissas, take the sign of the larger one, merge both loss bits, and
   * turn a zero result into (sign, 0, 0).
   */
  function Combine(v: V, v1: V, m1: uint64, v2: V, m2: uint64, e: int64, fixed: bool): (r: Vme)
    ensures v.loss || v1.loss || v2.loss ==> r.v.loss
    ensures r.m == 0 ==> r.v.sign && r.e == 0
    ensures r.v.unit == v.unit
  {
    var loss := v.loss || v1.loss || v2.loss;
    if v1.sign == v2.sign then
      if m1 + m2 < 0x1_0000_0000_0000_0000 then Finish(V(v1.sign, loss, v.unit), m1 + m2, e)
      else if fixed then VmhmeReduce(V(v1.sign, loss, v.unit), 1, m1 + m2 - 0x1_0000_0000_0000_0000, e)
      else Finish(V(v1.sign, loss, v.unit), m1 + m2 - 0x1_0000_0000_0000_0000, e)
    else if m1 < m2 then Finish(V(v2.sign, loss, v.unit), m2 - m1, e)
    else Finish(V(v1.sign, loss, v.unit), m1 - m2, e)
  }

  function Finish(v: V, m: uint64, e: int64): (r: Vme)
    ensures r.v.loss == v.loss && r.v.unit == v.unit && r.m == m
    ensures m != 0 ==> r == Vme(v, m, e)
    ensures m == 0 ==> r.v.sign && r.e == 0
  {
    if m == 0 then Vme(v.(sign := true), 0, 0) else Vme(v, m, e)
  }

  /** The high word of m * 10^d is below 10^d. */
  lemma ScaledHighBound(m: uint64, d: nat)
    requires d < TenPowLen
    ensures Mul64(m, TenPow(d)).0 < Pow10(d)
  {
    var p := TenPow(d);
    var hl := Mul64(m, p);
    Mul64Product(m, p);
    HighWordBound(hl.0, hl.1, m, p);
  }

  lemma HighWordBound(h: nat, l: nat, m: nat, p: nat)
    requires h * 0x1_0000_0000_0000_0000 + l == m * p && m < 0x1_0000_0000_0000_0000
    ensures h < p || p == 0
  {
    MulMonotone(m, 0x1_0000_0000_0000_0000 - 1, p);
    if h >= p {
      MulMonotone(p, h, 0x1_0000_0000_0000_0000);
    }
  }

  /** vmeAdd with the corrected carry; the rest of the model uses this one. */
  function VmeAdd(t1: Vme, t2: Vme): (r: Vme)
    requires AddDefined(t1, t2)
    ensures t1.v.loss || t2.v.loss ==> r.v.loss
  {
    VmeAddWith(t1, t2, true)
  }

  /**
   * r is exact for the signed integer x counted in units of 10^lo: either
   * both are zero, or r sits at an exponent >= lo and denotes x.
   */
  predicate DenotesAt(r: Vme, lo: int, x: int) {
    (r.m == 0 && x == 0) || (r.m != 0 && lo <= r.e && ScaledAt(r, lo) == x)
  }

  /**
   * Without loss the end of vmeAdd is exact: the result is zero because the
   * signed mantissas cancel, or it denotes their sum at exponent e.
   */
  lemma CombineExact(v: V, v1: V, m1: uint64, v2: V, m2: uint64, e: int64)
    requires e as int + 20 <= MaxInt64
    ensures var r := Combine(v, v1, m1, v2, m2, e, true);
              !r.v.loss ==> DenotesAt(r, e, Sgn(v1.sign, m1) + Sgn(v2.sign, m2)) && (r.m != 0 ==> r.e <= e as int + 20)
  {
    var loss := v.loss || v1.loss || v2.loss;
    if v1.sign == v2.sign && m1 + m2 >= 0x1_0000_0000_0000_0000 {
      ReduceExact(V(v1.sign, loss, v.unit), 1, m1 + m2 - 0x1_0000_0000_0000_0000, e);
    }
  }

  /**
   * Dividing both aligned mantissas exactly by 10^k keeps their signed sum,
   * up to the factor 10^k.
   */
  lemma ScaledSum(s1: bool, m1: nat, q1: nat, s2: bool, m2: nat, q2: nat, p: nat, x: int, k: nat)
    requires p == Pow10(k) && m1 == q1 * p && m2 == q2 * p
    requires x == Sgn(s1, q1) + Sgn(s2, q2)
    ensures x * p == Sgn(s1, m1) + Sgn(s2, m2)
  {
  }

  /** A result exact at exponent e + k is exact at e, scaled by 10^k. */
  lemma ShiftedResult(r: Vme, e: int, k: nat, x: int)
    requires DenotesAt(r, e + k, x)
    ensures DenotesAt(r, e, x * Pow10(k))
  {
    if r.m != 0 {
      var j := (r.e - e - k) as nat;
      assert r.e - (e + k) == j && r.e - e == j + k;
      ShiftedValue(r.v.sign, r.m, j, k, x);
    }
  }

  lemma ShiftedValue(s: bool, m: nat, j: nat, k: nat, x: int)
    requires Sgn(s, m * Pow10(j)) == x
    ensures Sgn(s, m * Pow10(j + k)) == x * Pow10(k)
  {
    var a, b := Pow10(j), Pow10(k);
    Pow10Add(j, k);
    var y := m * a;
    MulAssoc(m, a, b);
    assert m * Pow10(j + k) == y * b;
    NegMul(s, y, b);
  }

  lemma NegMul(s: bool, y: int, b: int)
    ensures Sgn(s, y * b) == Sgn(s, y) * b
  {
  }

  lemma MulAssoc(m: int, a: int, b: int)
    ensures m * (a * b) == (m * a) * b
  {
  }

  lemma AddScaledExact(v0: V, a: Vme, v2: V, h: uint64, l: uint64, k: nat, p: uint64, e: int64)
    requires h < p && p == Pow10(k) && e as int == a.e as int + k && e as int + 20 <= MaxInt64
    ensures var r := AddScaled(v0, a, v2, h, l, p, e, true);
              !r.v.loss ==> DenotesAt(r, a.e, Sgn(a.v.sign, a.m) + Sgn(v2.sign, h * 0x1_0000_0000_0000_0000 + l)) &&
                            (r.m != 0 ==> r.e <= a.e as int + k + 20)
  {
    var q2 := Div64(h, l, p);
    var q1 := Div64(0, a.m, p);
    Div64Product(h, l, p);
    Div64Product(0, a.m, p);
    DividedExact(v0, a.v, a.m, q1.0, q1.1, v2, h * 0x1_0000_0000_0000_0000 + l, q2.0, q2.1, p, a.e, k, e);
  }

  /**
   * Dividing both aligned mantissas exactly by p = 10^k and adding at
   * exponent ek = e + k denotes the sum of the undivided mantissas at e.
   */
  lemma DividedExact(v0: V, v1: V, m1: nat, q1: uint64, r1: uint64, v2: V, n2: nat, q2: uint64, r2: uint64, p: nat, e: int64, k: nat, ek: int64)
    requires p == Pow10(k) && q1 * p + r1 == m1 && q2 * p + r2 == n2 && ek as int == e as int + k && ek as int + 20 <= MaxInt64
    ensures var r := CombineDivided(v0, v1, q1, r1, v2, q2, r2, ek, true);
              !r.v.loss ==> DenotesAt(r, e, Sgn(v1.sign, m1) + Sgn(v2.sign, n2)) && (r.m != 0 ==> r.e <= e as int + k + 20)
  {
    var r := Combine(v0, v1, q1, v2, q2, ek, true);
    CombineExact(v0, v1, q1, v2, q2, ek);
    if r1 == 0 && r2 == 0 && !r.v.loss {
      var x := Sgn(v1.sign, q1) + Sgn(v2.sign, q2);
      ScaledSum(v1.sign, m1, q1, v2.sign, n2, q2, p, x, k);
      ShiftedResult(r, e, k, x);
    }
  }

  lemma AddOrdinaryExact(v0: V, a: Vme, b: Vme)
    requires a.m != 0 && b.m != 0 && a.e <= b.e && b.e - a.e <= MaxInt64 && b.e <= MaxInt64 - 20
    ensures var r := AddOrdinary(v0, a, b, true);
              !r.v.loss ==> DenotesAt(r, a.e, ScaledAt(a, a.e) + ScaledAt(b, a.e)) && (r.m != 0 ==> r.e <= a.e as int + 40)
  {
    assert ScaledAt(a, a.e) == Sgn(a.v.sign, a.m);
    if a.e == b.e {
      assert ScaledAt(b, a.e) == Sgn(b.v.sign, b.m);
      assert AddOrdinary(v0, a, b, true) == Combine(v0, a.v, a.m, b.v, b.m, a.e, true);
      CombineExact(v0, a.v, a.m, b.v, b.m, a.e);
    } else if b.e - a.e < TenPowLen as int {
      var d := (b.e - a.e) as nat;
      assert AddOrdinary(v0, a, b, true) == AddShifted(v0, a, b, d, true);
      AddShiftedExact(v0, a, b, d);
    }
  }

  lemma AddShiftedExact(v0: V, a: Vme, b: Vme, d: nat)
    requires 1 <= d < TenPowLen && a.e as int + d == b.e && b.e <= MaxInt64 - 20
    ensures var r := AddShifted(v0, a, b, d, true);
              !r.v.loss ==> DenotesAt(r, a.e, Sgn(a.v.sign, a.m) + ScaledAt(b, a.e)) && (r.m != 0 ==> r.e <= a.e as int + 40)
  {
    var hl := Mul64(b.m, TenPow(d));
    Mul64Product(b.m, TenPow(d));
    var n := hl.0 * 0x1_0000_0000_0000_0000 + hl.1;
    assert ScaledAt(b, a.e) == Sgn(b.v.sign, n);
    if hl.0 == 0 {
      assert AddShifted(v0, a, b, d, true) == Combine(v0, a.v, a.m, b.v, hl.1, a.e, true);
      CombineExact(v0, a.v, a.m, b.v, hl.1, a.e);
    } else {
      ScaledHighBound(b.m, d);
      var k := ScaleIndex(hl.0, d);
      var e: int64 := a.e + k;
      assert AddShifted(v0, a, b, d, true) == AddScaled(v0, a, b.v, hl.0, hl.1, TenPow(k), e, true);
      AddScaledExact(v0, a, b.v, hl.0, hl.1, k, TenPow(k), e);
    }
  }


  /**
   * Adding two ordinary operands without loss is exact: with lo the smaller
   * exponent, the result is zero because the operands cancel, or it denotes
   * their sum.
   */
  lemma AddExact(t1: Vme, t2: Vme)
    requires AddDefined(t1, t2) && t1.m != 0 && t2.m != 0
    requires t1.e <= MaxInt64 - 20 && t2.e <= MaxInt64 - 20
    ensures var r := VmeAdd(t1, t2);
            var lo := if t1.e <= t2.e then t1.e else t2.e;
              !r.v.loss ==> DenotesAt(r, lo, ScaledAt(t1, lo) + ScaledAt(t2, lo)) && (r.m != 0 ==> r.e <= lo as int + 40)
  {
    var a := if t1.e > t2.e then t2 else t1;
    var b := if t1.e > t2.e then t1 else t2;
    var v0 := V(false, false, t1.v.unit);
    assert VmeAdd(t1, t2) == AddOrdinary(v0, a, b, true);
    AddOrdinaryExact(v0, a, b);
  }

  /** core.go:704-711 and 718-719: same-signed operands at one exponent add their mantissas and merge both loss bits. */
  lemma AddSameSign(t1: Vme, t2: Vme)
    requires t1.m != 0 && t2.m != 0 && t1.e == t2.e && t1.v.sign == t2.v.sign && t1.m + t2.m < 0x1_0000_0000_0000_0000
    ensures VmeAdd(t1, t2) == Vme(V(t1.v.sign, t1.v.loss || t2.v.loss, t1.v.unit), t1.m + t2.m, t1.e)
  {
  }

  /** core.go:721-724: operands that cancel give the exact zero (sign, 0, 0), keeping their loss bits. */
  lemma AddCancels(t1: Vme, t2: Vme)
    requires t1.m != 0 && t1.e == t2.e && t1.m == t2.m && t1.v.sign != t2.v.sign
    ensures VmeAdd(t1, t2) == Vme(V(true, t1.v.loss || t2.v.loss, t1.v.unit), 0, 0)
  {
  }

  /** An exact zero on the right leaves an ordinary operand unchanged (core.go:625-633). */
  lemma AddZeroRight(t: Vme, z: Vme)
    requires t.m != 0 && z.m == 0 && !z.v.loss
    ensures VmeAdd(t, z) == t
  {
  }

  /** An exact zero on the left gives the other operand, tagged with the left operand's unit (core.go:612-623). */
  lemma AddZeroLeft(z: Vme, t: Vme)
    requires t.m != 0 && z.m == 0 && !z.v.loss
    ensures VmeAdd(z, t) == Vme(V(t.v.sign, t.v.loss, z.v.unit), t.m, t.e)
  {
  }

  /**
   * Operands that share a unit give a result in that unit, unless the
   * result is one of the magic constants vmeAddMagic1 returns without a
   * unit (~0 and NaN, core.go:572 and 593).
   */
  lemma AddKeepsUnit(t1: Vme, t2: Vme)
    requires AddDefined(t1, t2) && t1.v.unit == t2.v.unit
    ensures var r := VmeAdd(t1, t2); r != NearZeroVme && r != NaNVme ==> r.v.unit == t1.v.unit
  {
  }

  /** Two ordinary operands of one unit give a result in that unit. */
  lemma AddOrdinaryUnit(t1: Vme, t2: Vme)
    requires AddDefined(t1, t2) && t1.m != 0 && t2.m != 0 && t1.v.unit == t2.v.unit
    ensures VmeAdd(t1, t2).v.unit == t1.v.unit
  {
  }

  lemma CombineCommutes(v: V, v1: V, m1: uint64, v2: V, m2: uint64, e: int64)
    ensures Combine(v, v1, m1, v2, m2, e, true) == Combine(v, v2, m2, v1, m1, e, true)
  {
  }

  /** Two ordinary operands of the same unit commute. */
  lemma AddCommutes(t1: Vme, t2: Vme)
    requires AddDefined(t1, t2) && t1.m != 0 && t2.m != 0 && t1.v.unit == t2.v.unit
    ensures AddDefined(t2, t1) && VmeAdd(t1, t2) == VmeAdd(t2, t1)
  {
    if t1.e == t2.e {
      CombineCommutes(V(false, false, t1.v.unit), t1.v, t1.m, t2.v, t2.m, t1.e);
    }
  }

  /** A NaN operand makes the sum a NaN, whatever the other operand (core.go:597-606). */
  lemma AddNaN(t1: Vme, t2: Vme)
    requires AddDefined(t1, t2) && (IsNaNVme(t1) || IsNaNVme(t2))
    ensures IsNaNVme(VmeAdd(t1, t2))
  {
  }

  /** +Inf + -Inf is the NaN (loss, 0, 1) (core.go:592-594). */
  lemma AddOppositeInfinities(t1: Vme, t2: Vme)
    requires IsInfVme(t1) && IsInfVme(t2) && t1.v.sign != t2.v.sign
    ensures VmeAdd(t1, t2) == NaNVme
  {
  }

  /**
   * An infinity on the left absorbs every operand but a NaN and the
   * opposite infinity: same-signed infinities, near-zeros, zeros and
   * ordinary values (core.go:589-604).
   */
  lemma AddInfinityLeft(t1: Vme, t2: Vme)
    requires IsInfVme(t1) && !IsNaNVme(t2) && (IsInfVme(t2) ==> t2.v.sign == t1.v.sign)
    ensures VmeAdd(t1, t2) == t1
  {
  }

  /** An infinity on the right absorbs the same operands; the unit is the left operand's unless that is ordinary. */
  lemma AddInfinityRight(t1: Vme, t2: Vme)
    requires IsInfVme(t2) && !IsNaNVme(t1) && (IsInfVme(t1) ==> t1.v.sign == t2.v.sign)
    ensures KindOf(VmeAdd(t1, t2)) == KindOf(t2)
  {
  }

  /** ~0 plus an ordinary operand gives that operand with the loss bit set (core.go:586-587). */
  lemma AddNearZero(t1: Vme, t2: Vme)
    requires KindOf(t1) in {NearZero, NearPositive, NearNegative} && t2.m != 0
    ensures VmeAdd(t1, t2) == Vme(V(t2.v.sign, true, t1.v.unit), t2.m, t2.e)
  {
  }

  /** +~0 + -~0 is ~0, same-signed near-zeros are kept (core.go:575-580). */
  lemma AddNearZeros(s1: bool, s2: bool)
    ensures VmeAdd(NearVme(s1), NearVme(s2)) == if s1 == s2 then NearVme(s1) else NearZeroVme
  {
  }

  /**
   * The uint64 sum of core.go:706 wraps: MaxInt plus 18446744073709551 * 10^3
   * gives 144115188075855255 as written, while the carried sum rounds to
   * 1859085926178540687 * 10, flagged lossy.
   */
  lemma AddCarryWraps()
    ensures VmeAddWith(Vme(NoBits, 144115188075855871, 0), Vme(NoBits, 18446744073709551, 3), false)
              == Vme(NoBits, 144115188075855255, 0)
    ensures VmeAdd(Vme(NoBits, 144115188075855871, 0), Vme(NoBits, 18446744073709551, 3))
              == Vme(LossBit, 1859085926178540687, 1)
  {
    Pow10Limits();
    assert TenPow(3) == 1000;
    Mul64Product(18446744073709551, 1000);
    assert Mul64(18446744073709551, 1000) == (0, 18446744073709551000);
    DigitsUnique(1, 1);
    Div64Product(1, 144115188075855255, 10);
    assert Div64(1, 144115188075855255, 10) == (1859085926178540687, 1);
  }

  /**
   * vmeAdd as the source runs it: swap so that e1 <= e2, handle the magic
   * operands (core.go:612-634), then align and add.
   */
  method Add(t1: Vme, t2: Vme) returns (r: Vme)
    requires AddDefined(t1, t2)
    ensures r == VmeAdd(t1, t2)
  {
    var v := V(false, false, t1.v.unit);
    var x, y := t1, t2;
    if x.e > y.e {
      x, y := y, x;
    }
    if x.m == 0 {
      v := v.(sign := y.v.sign, loss := y.v.loss);
      if x.v.loss {
        return VmeAddMagic1(x.v, x.e, v, y.m, y.e);
      }
      return Vme(v, y.m, y.e);
    }
    if y.m == 0 {
      v := v.(sign := x.v.sign, loss := x.v.loss);
      if y.v.loss {
        return VmeAddMagic1(y.v, y.e, v, x.m, x.e);
      }
      return Vme(v, x.m, x.e);
    }
    r := AddAligned(v, x, y);
  }

  /**
   * core.go:636-697: bring the mantissa of the operand with the larger
   * exponent to the smaller exponent.
   */
  method AddAligned(v0: V, a: Vme, b: Vme) returns (r: Vme)
    requires a.m != 0 && b.m != 0 && a.e <= b.e && b.e - a.e <= MaxInt64
    ensures r == AddOrdinary(v0, a, b, true)
  {
    if a.e == b.e {
      r := Sum(v0, a.v, a.m, b.v, b.m, a.e);
      return;
    }
    if b.e - a.e >= TenPowLen as int {
      return Vme(b.v.(loss := true), b.m, b.e);
    }
    r := AddShiftedBy(v0, a, b, (b.e - a.e) as nat);
  }

  /** core.go:644-700: scale b's mantissa by 10^d, then add at a's exponent or divide first. */
  method AddShiftedBy(v0: V, a: Vme, b: Vme, d: nat) returns (r: Vme)
    requires 1 <= d < TenPowLen && a.e as int + d == b.e
    ensures r == AddShifted(v0, a, b, d, true)
  {
    var p := TenPow(d);
    var h2, l2 := Mul64(b.m, p).0, Mul64(b.m, p).1;
    if h2 != 0 {
      ScaledHighBound(b.m, d);
      var k := BisectTenPow(h2);
      assert k == ScaleIndex(h2, d);
      r := AddDivided(v0, a, b.v, h2, l2, TenPow(k), a.e + k);
    } else {
      r := Sum(v0, a.v, a.m, b.v, l2, a.e);
    }
  }

  /**
   * core.go:646-693: the scaled mantissa (h, l) needs more than 64 bits and
   * p = 10^k is the first tenPow entry above h: divide both mantissas by p,
   * flag an inexact division, and add at e, already raised by k.
   */
  method AddDivided(v0: V, a: Vme, v2: V, h: uint64, l: uint64, p: uint64, e: int64) returns (r: Vme)
    requires h < p
    ensures r == AddScaled(v0, a, v2, h, l, p, e, true)
  {
    var q2 := Div64(h, l, p);
    var q1 := Div64(0, a.m, p);
    r := SumDivided(v0, a.v, q1.0, q1.1, v2, q2.0, q2.1, e);
  }

  /** core.go:684-693: flag a division that left a remainder, then add the quotients. */
  method SumDivided(v0: V, v1: V, q1: uint64, r1: uint64, v2: V, q2: uint64, r2: uint64, e: int64) returns (r: Vme)
    ensures r == CombineDivided(v0, v1, q1, r1, v2, q2, r2, e, true)
  {
    var v := v0;
    if r2 != 0 || r1 != 0 {
      v := v.(loss := true);
    }
    r := Sum(v, v1, q1, v2, q2, e);
  }

  /**
   * core.go:698-725: add or subtract the aligned mantissas. A carry out of
   * 64 bits is reduced by vmhmeReduce instead of wrapping.
   */
  method Sum(v0: V, v1: V, m1: uint64, v2: V, m2: uint64, e0: int64) returns (r: Vme)
    ensures r == Combine(v0, v1, m1, v2, m2, e0, true)
  {
    var v, e := v0, e0;
    var m: uint64;
    if v1.sign == v2.sign {
      if m1 + m2 >= 0x1_0000_0000_0000_0000 {
        r := Reduce(V(v1.sign, v.loss || v1.loss || v2.loss, v.unit), 1, m1 + m2 - 0x1_0000_0000_0000_0000, e);
        return;
      }
      v, m := v.(sign := v1.sign), m1 + m2;
    } else if m1 < m2 {
      v, m := v.(sign := v2.sign), m2 - m1;
    } else {
      v, m := v.(sign := v1.sign), m1 - m2;
    }
    v := v.(loss := v.loss || v1.loss || v2.loss);
    if m == 0 {
      v, e := v.(sign := true), 0;
    }
    r := Vme(v, m, e);
  }
}
