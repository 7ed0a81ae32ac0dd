/**
 * Division with remainder of tuples: vmeDivRemMagic2 (core.go:824-861), the
 * truth table for a divisor whose mantissa is 0 and whose loss bit is set,
 * and vmeDivRem (core.go:863-925), which scales the dividend by a power of
 * ten chosen from the requested precision and divides 128 bits by 64.
 */
module CoreDivRem {
  import opened Bits
  import opened Vmes
  import opened TenPowSearch

  /** Quotient q, and remainder r with its exponent re. */
  datatype DivRem = DivRem(q: Vme, r: uint64, re: int64)

  const NaNDivRem: DivRem := DivRem(NaNVme, 0, 0)

  /**
   * vmeDivRemMagic2: t1 divided by (v2, 0, e2), a divisor that is ~0, ±~0,
   * ±Inf or NaN. `fixed` selects the sign of ±~0 / ±Inf: core.go:848 takes
   * the AND of the two signs where every other case takes their XOR.
   */
  function VmeDivRemMagic2With(t1: Vme, v2: V, e2: int64, fixed: bool): (r: DivRem)
    ensures r.r == 0 && r.re == 0 && r.q.m == 0 && r.q.v.loss && r.q.v.unit == 0
    ensures e2 != MinInt64 && e2 != MaxInt64 ==> r == NaNDivRem
  {
    var xs := t1.v.sign != v2.sign;
    if e2 == MinInt64 then
      if t1.m != 0 || (t1.v.loss && t1.e == MaxInt64) then DivRem(InfVme(xs), 0, 0)
      else NaNDivRem
    else if e2 == MaxInt64 then
      if t1.m != 0 then DivRem(NearVme(xs), 0, 0)
      else if !t1.v.loss || t1.e == 0 then DivRem(NearZeroVme, 0, 0)
      else if t1.e == MinInt64 then DivRem(NearVme(if fixed then xs else t1.v.sign && v2.sign), 0, 0)
      else NaNDivRem
    else NaNDivRem
  }

  /** tenPowI of core.go:886 before it is clamped: e1 - e2 + precision, in int64. */
  function DivScaleIndex(e1: int64, e2: int64, precision: int32): int64 {
    Wrap64(Wrap64(e1 as int - e2) as int + precision)
  }

  /** re of core.go:885-891: -precision, lowered by a negative scale index. */
  function RemainderExponentBase(k0: int64, precision: int32): int64 {
    if k0 < 0 then Wrap64(-(precision as int) + k0) else -(precision as int)
  }

  /**
   * Go indexes tenPow with -precision - re in the branch of core.go:916-921,
   * taken when re is below -precision: the index must lie in [0, 20),
   * otherwise the program panics.
   */
  predicate DivRemDefined(t1: Vme, t2: Vme, precision: int32) {
    var re0 := RemainderExponentBase(DivScaleIndex(t1.e, t2.e, precision), precision);
    t1.m != 0 && t2.m != 0 && re0 < -(precision as int) ==>
      0 <= Wrap64(-(precision as int) - re0) < TenPowLen
  }

  /** The dividend of core.go:896-911: a 128-bit (h, l), the power of ten it was divided by, and v. */
  datatype Scaled = Scaled(v: V, h: uint64, l: uint64, shift: nat)

  /** The high word of m * 10^k is below 10^k. */
  lemma HighWordBelow(m: uint64, k: nat)
    requires k < TenPowLen
    ensures Mul64(m, TenPow(k)).0 < Pow10(k)
  {
    Mul64Product(m, TenPow(k));
    MulMonotone(m, 0x1_0000_0000_0000_0000 - 1, Pow10(k));
  }

  /**
   * core.go:896-911: m1 * 10^k in 128 bits; when its high word is not below
   * m2, it is divided by the first power of ten above the high word, and the
   * loss bit is set when that division is inexact.
   */
  function ScaleDividend(v: V, m1: uint64, m2: uint64, k: nat): (s: Scaled)
    requires 1 <= m2 && k < TenPowLen
    ensures s.h < m2 && s.shift <= k
    ensures s.h * 0x1_0000_0000_0000_0000 + s.l == (m1 * Pow10(k)) / Pow10(s.shift)
    ensures s.v == v.(loss := v.loss || (m1 * Pow10(k)) % Pow10(s.shift) != 0)
  {
    HighWordBelow(m1, k);
    Mul64Product(m1, TenPow(k));
    var hl := Mul64(m1, TenPow(k));
    if m2 <= hl.0 then
      DigitsOfWord(hl.0);
      DigitsBound(hl.0, k);
      var i := Digits(hl.0);
      Div64Product(hl.0, hl.1, TenPow(i));
      var qr := Div64(hl.0, hl.1, TenPow(i));
      DivModUnique(m1 * Pow10(k), Pow10(i), qr.0, qr.1);
      Scaled(if qr.1 != 0 then v.(loss := true) else v, 0, qr.0, i)
    else
      DivModUnique(m1 * Pow10(k), 1, m1 * Pow10(k), 0);
      Scaled(v, hl.0, hl.1, 0)
  }

  /** ScaleDividend, with the search of core.go:900-910 done by a scan over tenPow. */
  method ScaleDividendScan(v: V, m1: uint64, m2: uint64, k: nat) returns (s: Scaled)
    requires 1 <= m2 && k < TenPowLen
    ensures s == ScaleDividend(v, m1, m2, k)
  {
    HighWordBelow(m1, k);
    var h1, l1 := Mul64(m1, TenPow(k)).0, Mul64(m1, TenPow(k)).1;
    if m2 <= h1 {
      Pow10Monotone(k, 19);
      Pow10At19();
      var found, i := ScanTenPow(h1);
      DigitsOfWord(h1);
      var q, r := Div64(h1, l1, TenPow(i)).0, Div64(h1, l1, TenPow(i)).1;
      var v1 := v;
      if r != 0 {
        v1 := v1.(loss := true);
      }
      return Scaled(v1, 0, q, i);
    }
    return Scaled(v, h1, l1, 0);
  }

  /**
   * vmeDivRem. `fixed` selects the corrected remainder exponent and the
   * corrected sign of vmeDivRemMagic2: core.go:885 and 922 give the
   * remainder the exponent e2 - precision, which is off whenever the scale
   * was clamped at 10^19 or the dividend was divided at core.go:902; the
   * corrected remainder has the exponent of the quotient plus e2.
   */
  function VmeDivRemWith(t1: Vme, t2: Vme, precision: int32, fixed: bool): (r: DivRem)
    requires DivRemDefined(t1, t2, precision)
    ensures t1.m != 0 && t2.m != 0 ==> r.q.v.sign == (t1.v.sign != t2.v.sign) && r.q.v.unit == 0
    ensures t1.m != 0 && t2.m != 0 && (t1.v.loss || t2.v.loss) ==> r.q.v.loss
  {
    if t2.m == 0 then
      if t2.v.loss then VmeDivRemMagic2With(t1, t2.v, t2.e, fixed) else NaNDivRem
    else if t1.m == 0 then
      if t1.v.loss then DivRem(Vme(V(t1.v.sign != t2.v.sign, true, 0), 0, t1.e), 0, 0)
      else DivRem(ZeroVme, 0, 0)
    else DivOrdinary(t1, t2, precision, fixed)
  }

  /** core.go:882-922, for a dividend and a divisor that are both non-zero. */
  function DivOrdinary(t1: Vme, t2: Vme, precision: int32, fixed: bool): (r: DivRem)
    requires t1.m != 0 && t2.m != 0 && DivRemDefined(t1, t2, precision)
    ensures r.q.v.sign == (t1.v.sign != t2.v.sign) && r.q.v.unit == 0
    ensures t1.v.loss || t2.v.loss ==> r.q.v.loss
  {
    var v := V(t1.v.sign != t2.v.sign, t1.v.loss || t2.v.loss, 0);
    var e := Wrap64(t1.e as int - t2.e);
    var k0 := DivScaleIndex(t1.e, t2.e, precision);
    var re0 := RemainderExponentBase(k0, precision);
    var k := if k0 < 0 then 0 else if k0 >= TenPowLen then TenPowLen - 1 else k0;
    var s := ScaleDividend(v, t1.m, t2.m, k);
    var qr := Div64(s.h, s.l, t2.m);
    var eq := Wrap64(Wrap64(e as int - k) as int + s.shift);
    var re := if fixed then Wrap64(eq as int + t2.e) else Wrap64(re0 as int + t2.e);
    if re0 < -(precision as int) then
      var q := RescaleQuotient(s.v, qr.0, eq, qr.1, t2.m, Wrap64(-(precision as int) - re0));
      DivRem(q.0, q.1, re)
    else
      DivRem(Vme(s.v, qr.0, eq), qr.1, re)
  }

  /**
   * core.go:916-921: the quotient m is cut down to a multiple of 10^j and
   * what is cut off is moved, times m2, into the remainder, in uint64.
   */
  function RescaleQuotient(v: V, m: uint64, e: int64, r: uint64, m2: uint64, j: int): (qr: (Vme, uint64))
    requires 0 <= j < TenPowLen
    ensures qr.0.v == v && qr.0.e == e && qr.0.m <= m
  {
    var x := Div64(0, m, TenPow(j));
    Mul64Product(x.0, TenPow(j));
    Div64Product(0, m, TenPow(j));
    (Vme(v, Mul64(x.0, TenPow(j)).1, e), (r + Mul64(x.1, m2).1) % 0x1_0000_0000_0000_0000)
  }

  /** vmeDivRem, corrected; the rest of the model uses this one. */
  function VmeDivRem(t1: Vme, t2: Vme, precision: int32): (r: DivRem)
    requires DivRemDefined(t1, t2, precision)
    ensures t1.m != 0 && t2.m != 0 ==> r.q.v.sign == (t1.v.sign != t2.v.sign)
  {
    VmeDivRemWith(t1, t2, precision, true)
  }

  /** Exponents far enough from the int64 limits that no exponent computation wraps. */
  predicate SmallExponents(t1: Vme, t2: Vme) {
    -0x2000_0000_0000_0000 <= t1.e <= 0x2000_0000_0000_0000 &&
    -0x2000_0000_0000_0000 <= t2.e <= 0x2000_0000_0000_0000
  }

  /**
   * The division is defined exactly when the tenPow index of core.go:917
   * stays below 20, that is when e1 - e2 + precision > -20.
   */
  lemma DivRemDefinedIff(t1: Vme, t2: Vme, precision: int32)
    requires t1.m != 0 && t2.m != 0 && SmallExponents(t1, t2)
    ensures DivRemDefined(t1, t2, precision) <==> t1.e - t2.e + precision > -20
  {
  }

  /**
   * The quotient of two ordinary operands sits at an exponent from
   * e1 - e2 - 19 to e1 - e2: the dividend is scaled by 10^k, k <= 19, and
   * divided back by at most 10^k.
   */
  lemma QuotientExponent(t1: Vme, t2: Vme, precision: int32)
    requires t1.m != 0 && t2.m != 0 && SmallExponents(t1, t2) && DivRemDefined(t1, t2, precision)
    ensures var q := VmeDivRem(t1, t2, precision).q; t1.e - t2.e - 19 <= q.e <= t1.e - t2.e
  {
  }

  /** QuoRem(1, 1, -20) indexes tenPow[20] at core.go:918. */
  lemma DivRemOutOfRange()
    ensures !DivRemDefined(Vme(NoBits, 1, 0), Vme(NoBits, 1, 0), -20)
  {
    var w0 := Wrap64(0 - 0);
    assert w0 == 0;
    var k0 := Wrap64(w0 as int + -20);
    assert k0 == -20;
    assert DivScaleIndex(0, 0, -20) == k0;
    var re0 := Wrap64(20 + k0);
    assert re0 == 0;
    assert RemainderExponentBase(k0, -20) == re0;
    var i := Wrap64(20 - re0);
    assert i == 20;
  }

  /** The scale of core.go:886-894 for the main division: e1 - e2 + precision, at most 19. */
  function MainScale(t1: Vme, t2: Vme, precision: int32): (k: nat)
    requires t1.e - t2.e + precision >= 0
    ensures k < TenPowLen && k <= t1.e - t2.e + precision
    ensures t1.e - t2.e + precision < TenPowLen ==> k == t1.e - t2.e + precision
  {
    if t1.e - t2.e + precision >= TenPowLen then TenPowLen - 1 else t1.e - t2.e + precision
  }

  /** Without wrap-around and without the branch of core.go:916-921, vmeDivRem is ScaleDividend then Div64. */
  lemma DivMain(t1: Vme, t2: Vme, precision: int32, fixed: bool)
    requires t1.m != 0 && t2.m != 0 && SmallExponents(t1, t2)
    requires t1.e - t2.e + precision >= 0
    ensures DivRemDefined(t1, t2, precision)
    ensures var k := MainScale(t1, t2, precision);
            var s := ScaleDividend(V(t1.v.sign != t2.v.sign, t1.v.loss || t2.v.loss, 0), t1.m, t2.m, k);
            var qr := Div64(s.h, s.l, t2.m);
              VmeDivRemWith(t1, t2, precision, fixed) ==
              DivRem(Vme(s.v, qr.0, t1.e - t2.e - k + s.shift), qr.1,
                     if fixed then t1.e - k + s.shift else t2.e - precision)
  {
  }

  /**
   * The main division (e1 - e2 + precision >= 0): the remainder is below
   * m2, the quotient is a multiple of 10^-precision, and the remainder has
   * the quotient's exponent plus e2, at most e1.
   */
  lemma DivBounds(t1: Vme, t2: Vme, precision: int32)
    requires t1.m != 0 && t2.m != 0 && SmallExponents(t1, t2)
    requires t1.e - t2.e + precision >= 0
    ensures DivRemDefined(t1, t2, precision)
    ensures var r := VmeDivRem(t1, t2, precision);
              r.r < t2.m && -(precision as int) <= r.q.e && r.re == r.q.e + t2.e && r.re <= t1.e
  {
    DivMain(t1, t2, precision, true);
    var v := V(t1.v.sign != t2.v.sign, t1.v.loss || t2.v.loss, 0);
    var s := ScaleDividend(v, t1.m, t2.m, MainScale(t1, t2, precision));
    Div64Product(s.h, s.l, t2.m);
  }

  /**
   * Without loss, quotient and remainder of the main division recombine to
   * the dividend: m1 * 10^e1 == (q * m2 + r) * 10^re.
   */
  lemma DivExact(t1: Vme, t2: Vme, precision: int32)
    requires t1.m != 0 && t2.m != 0 && SmallExponents(t1, t2)
    requires t1.e - t2.e + precision >= 0
    ensures DivRemDefined(t1, t2, precision)
    ensures var r := VmeDivRem(t1, t2, precision);
              !r.q.v.loss ==> SameValue(t1.m, t1.e, r.q.m * t2.m + r.r, r.re)
  {
    DivMain(t1, t2, precision, true);
    var v := V(t1.v.sign != t2.v.sign, t1.v.loss || t2.v.loss, 0);
    var k := MainScale(t1, t2, precision);
    var s := ScaleDividend(v, t1.m, t2.m, k);
    Div64Product(s.h, s.l, t2.m);
    var qr := Div64(s.h, s.l, t2.m);
    if !s.v.loss {
      Recombine(t1.m, t1.e, k, s.shift, qr.0 * t2.m + qr.1);
    }
  }

  /** m * 10^e is n * 10^(e - k + j) when n is m * 10^k divided exactly by 10^j. */
  lemma Recombine(m: nat, e: int, k: nat, j: nat, n: nat)
    requires j <= k && n == (m * Pow10(k)) / Pow10(j) && (m * Pow10(k)) % Pow10(j) == 0
    ensures SameValue(m, e, n, e - k + j)
  {
    DividedBack(m, k, j, n);
  }

  /** An exact division by 10^j undone: n == m * 10^k / 10^j with no remainder gives n == m * 10^(k-j). */
  lemma DividedBack(m: nat, k: nat, j: nat, n: nat)
    requires j <= k && n == (m * Pow10(k)) / Pow10(j) && (m * Pow10(k)) % Pow10(j) == 0
    ensures n == m * Pow10(k - j)
  {
    Pow10Add(k - j, j);
    DivModBasics(m * Pow10(k), Pow10(j));
    assert m * Pow10(k) == (m * Pow10(k - j)) * Pow10(j);
    MulCancel(n, m * Pow10(k - j), Pow10(j));
  }

  /** The steps of 1 / 3 with the scale 10^19: no division by a power of ten, then 10^19 / 3. */
  lemma OneByThreeSteps()
    ensures ScaleDividend(NoBits, 1, 3, 19) == Scaled(NoBits, 0, 10_000_000_000_000_000_000, 0)
    ensures Div64(0, 10_000_000_000_000_000_000, 3) == (3333333333333333333, 1)
  {
    Pow10At19();
    Mul64Product(1, TenPow(19));
    Div64Product(0, 10_000_000_000_000_000_000, 3);
    var qr := Div64(0, 10_000_000_000_000_000_000, 3);
    DivModUnique(10_000_000_000_000_000_000, 3, qr.0, qr.1);
  }

  /**
   * core.go:885 and 922 as written, on 1 / 3 with precision 30: the scale is
   * clamped at 10^19, the quotient 3333333333333333333 has exponent -19 and
   * the remainder 1 is given exponent -30 instead of -19.
   */
  lemma DivRemainderExponent()
    ensures DivRemDefined(Vme(NoBits, 1, 0), Vme(NoBits, 3, 0), 30)
    ensures VmeDivRemWith(Vme(NoBits, 1, 0), Vme(NoBits, 3, 0), 30, false) ==
            DivRem(Vme(NoBits, 3333333333333333333, -19), 1, -30)
  {
    var t1, t2 := Vme(NoBits, 1, 0), Vme(NoBits, 3, 0);
    assert MainScale(t1, t2, 30) == 19;
    assert V(t1.v.sign != t2.v.sign, t1.v.loss || t2.v.loss, 0) == NoBits;
    OneByThreeSteps();
    DivMain(t1, t2, 30, false);
  }

  /** A zero divisor gives NaN (core.go:865-870). */
  lemma DivByZero(t1: Vme, t2: Vme, precision: int32)
    requires KindOf(t2) == ExactZero
    ensures VmeDivRem(t1, t2, precision) == NaNDivRem
  {
  }

  /** A zero dividend over an ordinary divisor gives Zero (core.go:877-878). */
  lemma DivOfZero(t1: Vme, t2: Vme, precision: int32)
    requires KindOf(t1) == ExactZero && KindOf(t2) == Ordinary
    ensures VmeDivRem(t1, t2, precision) == DivRem(ZeroVme, 0, 0)
  {
  }

  /** NaN in, NaN out, and ~0 is no divisor at all (core.go:826-827, 860, 876). */
  lemma DivNaN(t1: Vme, t2: Vme, precision: int32)
    requires IsNaNVme(t1) || IsNaNVme(t2) || KindOf(t2) == NearZero
    ensures IsNaNVme(VmeDivRem(t1, t2, precision).q)
  {
  }

  /**
   * Dividing by ±~0 gives the infinity of the quotient's sign for an
   * ordinary or infinite dividend, and NaN for zeros and near-zeros
   * (core.go:828-841).
   */
  lemma DivByNear(t1: Vme, t2: Vme, precision: int32)
    requires KindOf(t2) in {NearPositive, NearNegative}
    ensures var r := VmeDivRem(t1, t2, precision).q;
              (KindOf(t1) == Ordinary || IsInfVme(t1) ==> r == InfVme(t1.v.sign != t2.v.sign)) &&
              (KindOf(t1) in {ExactZero, NearZero, NearPositive, NearNegative} ==> r == NaNVme)
  {
  }

  /**
   * Dividing by ±Inf gives ±~0 of the quotient's sign for an ordinary or
   * near-zero dividend, ~0 for zeros, and NaN for infinities (core.go:842-857).
   */
  lemma DivByInfinity(t1: Vme, t2: Vme, precision: int32)
    requires IsInfVme(t2)
    ensures var r := VmeDivRem(t1, t2, precision).q;
              (KindOf(t1) == Ordinary || KindOf(t1) in {NearPositive, NearNegative} ==> r == NearVme(t1.v.sign != t2.v.sign)) &&
              (KindOf(t1) in {ExactZero, NearZero} ==> r == NearZeroVme) &&
              (IsInfVme(t1) ==> r == NaNVme)
  {
  }

  /**
   * A magic dividend over an ordinary divisor keeps its kind, and the
   * quotient's sign for ±~0 and ±Inf (core.go:876).
   */
  lemma DivMagicDividend(t1: Vme, t2: Vme, precision: int32)
    requires t1.m == 0 && t1.v.loss && KindOf(t2) == Ordinary
    ensures var r := VmeDivRem(t1, t2, precision).q;
              (IsNaNVme(t1) <==> IsNaNVme(r)) && (IsInfVme(t1) ==> IsInfVme(r)) &&
              (t1.e == MinInt64 || t1.e == MaxInt64 ==> r.v.sign == (t1.v.sign != t2.v.sign))
  {
  }

  /** core.go:848 as written: -~0 / +Inf is +~0, where the corrected table gives -~0. */
  lemma DivNearByInfinitySign()
    ensures VmeDivRemWith(NearVme(true), InfVme(false), 0, false).q == NearVme(false)
    ensures VmeDivRem(NearVme(true), InfVme(false), 0).q == NearVme(true)
  {
  }
}
