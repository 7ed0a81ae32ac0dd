/**
 * The arithmetic and the comparisons of Weight (weight.go:210-254 and
 * 449-496). Add converts w2 into the unit of w1 through the factors of the
 * unit table (a shift of the exponent for the metric units, a product and
 * a quotient by a decimal factor for the others) and adds the tuples with
 * vmeAdd; Sub adds the negation; Mul multiplies by a Decimal; the
 * comparisons test the sign of the difference.
 */
module WeightOps {
  import opened Bits
  import opened Vmes
  import opened CoreAdd
  import opened CoreMul
  import opened CoreDivRem
  import opened Weights
  import opened CoreNormalize
  import D = Decimals
  import DecimalOps

  /**
   * The factors the table holds: a metric unit's is the integer power of
   * ten of the unit in kg, from -15 (pg) to 12 (Gt); the others are exact
   * positive decimals with an exponent from -12 to -8.
   */
  predicate Factor(c: int64) {
    if D.IsInteger(c) then -15 <= c <= 12
    else
      var t := D.DecodeVme(c);
      t.m != 0 && !t.v.sign && !t.v.loss && -12 <= t.e <= -8
  }

  /** The unit indices whose factor is an integer: the metric units and the two reserved entries. */
  predicate Metric(k: bv4) {
    k < 12
  }

  /** The power of ten of a metric unit: 0, 3, .., 12 for kg to Gt, -3, .., -15 for g to pg, 0 for the reserved entries. */
  function Shift(k: bv4): int {
    if k < 5 then 3 * k as int else if k < 10 then -3 * (k as int - 4) else 0
  }

  /** A decimal factor packed from a mantissa and a negative exponent decodes to them and is not an integer. */
  lemma PackedFactor(c: int64, m: nat, e: int)
    requires 0 < m <= D.MaxInt && -16 <= e < 0 && c == D.Pack(false, m, e)
    ensures !D.IsInteger(c) && D.DecodeVme(c) == Vme(NoBits, m, e)
  {
    D.Unpack(false, m, e);
  }

  /** Every entry of the table at a unit index holds a factor; the integer ones are the metric units, 10^Shift(k). */
  lemma TableFactors(k: bv4)
    ensures Factor(WeightUnits[k].c)
    ensures D.IsInteger(WeightUnits[k].c) <==> Metric(k)
    ensures Metric(k) ==> WeightUnits[k].c == Shift(k)
  {
    if k < 12 {
      MetricFactors(k);
    } else if k == 12 {
      PackedFactor(Pound, 45359237, -8);
    } else if k == 13 {
      PackedFactor(Ounce, 28349523125, -12);
    } else if k == 14 {
      PackedFactor(TroyPound, 3732417216, -10);
    } else if k == 15 {
      PackedFactor(TroyOunce, 311034768, -10);
    }
  }

  lemma MetricFactors(k: bv4)
    requires k < 12
    ensures D.IsInteger(WeightUnits[k].c) && -15 <= WeightUnits[k].c <= 12 && WeightUnits[k].c == Shift(k)
  {
  }

  /** A small integer word has an integer part. */
  lemma IntegerHasIntPart(c: int64)
    requires D.IsInteger(c) && -15 <= c <= 12
    ensures D.IntPartDefined(c)
  {
    if c == 0 {
      D.DecodeZero();
    } else {
      D.IntegerWord(c);
    }
  }

  /** t.c.Int64() (decimal.go:491-495) of an integer factor: the integer itself. */
  function IntFactor(c: int64): (i: int64)
    requires D.IsInteger(c) && -15 <= c <= 12
    ensures i == c
  {
    IntegerHasIntPart(c);
    D.IntPartErr(c).i
  }

  /** The tuples vmet returns: a 53-bit mantissa, and an exponent in [-16, 15] beside it. */
  predicate WeightTuple(t: Vme) {
    t.m <= WeightMaxInt && (t.m != 0 ==> WeightMinE <= t.e <= WeightMaxE)
  }

  /**
   * w2 in kg (weight.go:214-219): the exponent moved by an integer factor,
   * in wrapping int64 arithmetic, or the tuple multiplied by the decimal
   * factor. As written the exponent of a tuple without mantissa moves too,
   * which turns ±Inf and ±~0 into other magic states; the corrected
   * conversion (`fixed`) leaves them as they are.
   */
  function InKg(t2: Vme, c2: int64, fixed: bool): (s: Vme)
    requires Factor(c2) && WeightTuple(t2)
    ensures s.m != 0 ==> -31 <= s.e <= 27
  {
    if D.IsInteger(c2) then
      if fixed && t2.m == 0 then t2 else t2.(e := Wrap64(t2.e as int + IntFactor(c2)))
    else
      var tc := D.DecodeVme(c2);
      if t2.m != 0 then MulExponent(t2, tc); VmeMul(t2, tc) else VmeMul(t2, tc)
  }

  /**
   * s, in kg, in the unit of w1 (weight.go:220-236): the exponent moved
   * back by an integer factor, or s divided by the decimal factor at
   * DivisionPrecision, inexact and rounded to nearest when a remainder is
   * left.
   */
  function InUnit(s: Vme, c1: int64, fixed: bool): (r: Vme)
    requires Factor(c1) && (s.m != 0 ==> -31 <= s.e <= 27)
    ensures r.m != 0 ==> -43 <= r.e <= 42
  {
    if D.IsInteger(c1) then
      if fixed && s.m == 0 then s else s.(e := Wrap64(s.e as int - IntFactor(c1)))
    else
      var tc := D.DecodeVme(c1);
      assert DivRemDefined(s, tc, D.DivisionPrecision) by {
        if s.m != 0 {
          DivRemDefinedIff(s, tc, D.DivisionPrecision);
        }
      }
      if s.m != 0 then
        QuotientExponent(s, tc, D.DivisionPrecision);
        DecimalOps.DivRounded(VmeDivRem(s, tc, D.DivisionPrecision), tc.m)
      else DecimalOps.DivRounded(VmeDivRem(s, tc, D.DivisionPrecision), tc.m)
  }

  /**
   * w2's tuple t2 converted from the factor c2 of its unit to the factor
   * c1 of w1's unit. As written it keeps the unit bits the conversion
   * leaves in it (t2's own unit, or none after a division); the corrected
   * conversion gives it w1's unit, the unit the sum is meant to be in.
   */
  function Converted(t2: Vme, c2: int64, c1: int64, unit: bv4, fixed: bool): (r: Vme)
    requires Factor(c1) && Factor(c2) && WeightTuple(t2)
    ensures r.m != 0 ==> -43 <= r.e <= 42
    ensures fixed ==> r.v.unit == unit
  {
    var r := InUnit(InKg(t2, c2, fixed), c1, fixed);
    if fixed then r.(v := r.v.(unit := unit)) else r
  }

  /** The tuple w1.Add(w2) forms (weight.go:210-241): t2 converted into t1's unit and added to t1 with vmeAdd. */
  function SumTuple(t1: Vme, t2: Vme, fixed: bool): Vme
    requires WeightTuple(t1) && WeightTuple(t2)
  {
    TableFactors(t1.v.unit);
    TableFactors(t2.v.unit);
    VmeAdd(t1, Converted(t2, WeightUnits[t2.v.unit].c, WeightUnits[t1.v.unit].c, t1.v.unit, fixed))
  }

  /** w1.Add(w2) (weight.go:210-241): the word of the sum of the two tuples. */
  function AddWith(w1: int64, w2: int64, fixed: bool): int64 {
    VmeAsWeight(SumTuple(Vmet(w1), Vmet(w2), fixed))
  }

  /** The corrected Add; the rest of the model uses this one. */
  function Plus(w1: int64, w2: int64): int64 {
    AddWith(w1, w2, true)
  }

  /**
   * w1.Add(w2) as the source runs it, step by step on v2, m2 and e2, with
   * the two corrections of Plus: a tuple without mantissa is not shifted,
   * and the converted tuple takes w1's unit.
   */
  method Add(w1: int64, w2: int64) returns (w: int64)
    ensures w == Plus(w1, w2)
  {
    var t1, t2 := Vmet(w1), Vmet(w2);
    ghost var n, f1, f2 := SumTupleParts(t1, t2, true);
    var c1, c2 := WeightUnits[t1.v.unit].c, WeightUnits[t2.v.unit].c;
    var s := ToKg(t2, c2);
    var r := ToUnit(s, c1);
    r := r.(v := r.v.(unit := t1.v.unit));
    assert r == n;
    w := VmeAsWeight(VmeAdd(t1, r));
  }

  /** weight.go:214-219 on the variables v2, m2 and e2. */
  method ToKg(t2: Vme, c2: int64) returns (s: Vme)
    requires Factor(c2) && WeightTuple(t2)
    ensures s == InKg(t2, c2, true)
  {
    var v2, m2, e2 := t2.v, t2.m, t2.e;
    if D.IsInteger(c2) {
      if m2 != 0 {
        e2 := Wrap64(e2 as int + IntFactor(c2));
      }
    } else {
      var p := VmeMul(Vme(v2, m2, e2), D.DecodeVme(c2));
      v2, m2, e2 := p.v, p.m, p.e;
    }
    s := Vme(v2, m2, e2);
  }

  /** weight.go:220-236 on the variables v2, m2 and e2. */
  method ToUnit(s: Vme, c1: int64) returns (r: Vme)
    requires Factor(c1) && (s.m != 0 ==> -31 <= s.e <= 27)
    ensures r == InUnit(s, c1, true)
  {
    var v2, m2, e2 := s.v, s.m, s.e;
    if D.IsInteger(c1) {
      if m2 != 0 {
        e2 := Wrap64(e2 as int - IntFactor(c1));
      }
    } else {
      var tc := D.DecodeVme(c1);
      var mc := tc.m;
      assert DivRemDefined(s, tc, D.DivisionPrecision) by {
        if m2 != 0 {
          DivRemDefinedIff(s, tc, D.DivisionPrecision);
        }
      }
      var x := VmeDivRem(s, tc, D.DivisionPrecision);
      v2, m2, e2 := x.q.v, x.q.m, x.q.e;
      if x.r != 0 {
        v2 := v2.(loss := true);
        if Shl1(x.r) >= mc {
          m2 := Inc64(m2);
        }
      }
    }
    r := Vme(v2, m2, e2);
  }

  /** w1.Sub(w2) (weight.go:244-246): w1 plus -w2, with Go's wrapping negation. */
  function Sub(w1: int64, w2: int64): int64 {
    Plus(w1, Neg64(w2))
  }

  /** w.Mul(d) (weight.go:249-254): the tuple of w times the tuple of the decimal d, in w's unit. */
  function Mul(w: int64, d: int64): int64 {
    VmeAsWeight(VmeMul(Vmet(w), D.DecodeVme(d)))
  }

  /**
   * w1.Compare(w2) (weight.go:462-472): 0 when w1 - w2 is a zero, 1 when
   * it is positive, -1 otherwise, with the predicates as written or
   * corrected.
   */
  function CompareWith(w1: int64, w2: int64, fixed: bool): (c: int)
    ensures c in {-1, 0, 1}
  {
    var d := Sub(w1, w2);
    if IsZeroWith(d, fixed) then 0 else if IsPositiveWith(d, fixed) then 1 else -1
  }

  function Compare(w1: int64, w2: int64): (c: int)
    ensures c in {-1, 0, 1}
  {
    CompareWith(w1, w2, true)
  }

  /** w1.GreaterThan(w2) (weight.go:475-479). */
  predicate GreaterThanWith(w1: int64, w2: int64, fixed: bool) {
    IsPositiveWith(Sub(w1, w2), fixed)
  }

  predicate GreaterThan(w1: int64, w2: int64) {
    GreaterThanWith(w1, w2, true)
  }

  /** w1.GreaterThanOrEqual(w2) (weight.go:482-486). */
  predicate GreaterThanOrEqual(w1: int64, w2: int64) {
    var d := Sub(w1, w2);
    IsPositive(d) || IsZero(d)
  }

  /** w1.LessThan(w2) (weight.go:489-491). */
  predicate LessThan(w1: int64, w2: int64) {
    GreaterThan(w2, w1)
  }

  /** w1.LessThanOrEqual(w2) (weight.go:494-496). */
  predicate LessThanOrEqual(w1: int64, w2: int64) {
    GreaterThanOrEqual(w2, w1)
  }

  /** Negating a weight with a mantissa flips the sign of its tuple and keeps its loss, unit, mantissa and exponent. */
  lemma WeightNegFlips(w: int64)
    requires Vmet(w).m != 0
    ensures Vmet(Neg64(w)) == Vmet(w).(v := Vmet(w).v.(sign := !Vmet(w).v.sign))
  {
    if w == 0 || w == MinInt64 {
      NoMantissa(w);
      assert false;
    }
    var n := Neg64(w);
    assert D.Magnitude(n) == D.Magnitude(w) && (n < 0) == !(w < 0);
    TupleOfMagnitude(w);
    TupleOfMagnitude(n);
  }

  /** Zero and the most negative word have no mantissa: their magnitudes 0 and 2^63 are multiples of 2^53. */
  lemma NoMantissa(w: int64)
    requires w == 0 || w == MinInt64
    ensures Vmet(w).m == 0
  {
    DivModUnique(D.Two63, Two53, 1024, 0);
    TupleOfMagnitude(w);
  }

  /** The tuple of a weight with a sign and a magnitude. */
  function MagnitudeTuple(negative: bool, u: nat): Vme {
    var e := D.ExpOf(u);
    var m := u % Two53;
    Vme(V(negative, D.LossOf(u), UnitIndex(u)), m,
        if m == 0 && e == WeightMinE as int then MinInt64
        else if m == 0 && e == WeightMaxE as int then MaxInt64
        else e)
  }

  /** vmet reads the sign of w and everything else from its magnitude. */
  lemma TupleOfMagnitude(w: int64)
    ensures Vmet(w) == MagnitudeTuple(w < 0, D.Magnitude(w))
  {
  }

  /**
   * Between metric units the conversion of a tuple with a mantissa is
   * exact: the same sign, loss and mantissa in w1's unit, at the exponent
   * that keeps its value in kg (e + c1 is e2 + c2).
   */
  lemma MetricConversion(t2: Vme, c2: int64, c1: int64, unit: bv4)
    requires D.IsInteger(c1) && D.IsInteger(c2) && Factor(c1) && Factor(c2) && WeightTuple(t2) && t2.m != 0
    ensures var r := Converted(t2, c2, c1, unit, true);
            r.v == t2.v.(unit := unit) && r.m == t2.m && r.e + c1 == t2.e + c2
  {
  }

  /** w2's tuple in the metric unit of w1: its mantissa at the exponent e2 + c2 - c1. */
  function InUnitOf(w1: int64, w2: int64): (n: Vme)
    requires Vmet(w2).m != 0 && Metric(Vmet(w1).v.unit) && Metric(Vmet(w2).v.unit)
    ensures n.m == Vmet(w2).m && n.v == Vmet(w2).v && -43 <= n.e <= 42
  {
    var t1, t2 := Vmet(w1), Vmet(w2);
    Vme(t2.v, t2.m, t2.e + Shift(t2.v.unit) - Shift(t1.v.unit))
  }

  /** The tuple Plus adds to w1 for w2 in a metric unit: w2's tuple, in w1's unit, at the exponent of InUnitOf. */
  lemma MetricPlusParts(w1: int64, w2: int64) returns (n: Vme)
    requires Vmet(w1).m != 0 && Vmet(w2).m != 0 && Metric(Vmet(w1).v.unit) && Metric(Vmet(w2).v.unit)
    ensures n.v == Vmet(w2).v.(unit := Vmet(w1).v.unit) && n.m == Vmet(w2).m && n.e == InUnitOf(w1, w2).e
    ensures AddDefined(Vmet(w1), n) && Plus(w1, w2) == VmeAsWeight(VmeAdd(Vmet(w1), n))
  {
    var t1, t2 := Vmet(w1), Vmet(w2);
    TableFactors(t1.v.unit);
    TableFactors(t2.v.unit);
    var c1, c2 := WeightUnits[t1.v.unit].c, WeightUnits[t2.v.unit].c;
    n := Converted(t2, c2, c1, t1.v.unit, true);
    MetricConversion(t2, c2, c1, t1.v.unit);
  }

  /**
   * The tuple Plus encodes, for two weights with mantissas in metric
   * units: w1's unit, and without loss the sum of w1 and w2 in w1's unit,
   * counted at the lower of the two exponents.
   */
  lemma MetricSum(w1: int64, w2: int64) returns (r: Vme)
    requires Vmet(w1).m != 0 && Vmet(w2).m != 0 && Metric(Vmet(w1).v.unit) && Metric(Vmet(w2).v.unit)
    ensures var t1, n2 := Vmet(w1), InUnitOf(w1, w2);
            var lo := if t1.e <= n2.e then t1.e else n2.e;
            Plus(w1, w2) == VmeAsWeight(r) && r.v.unit == t1.v.unit &&
            (!r.v.loss ==> DenotesAt(r, lo, ScaledAt(t1, lo) + ScaledAt(n2, lo)) && (r.m != 0 ==> r.e <= lo + 40))
  {
    var n := MetricPlusParts(w1, w2);
    r := SumInUnit(Vmet(w1), n, InUnitOf(w1, w2));
  }

  /** The sum of two ordinary tuples of one unit, the second standing for n2 in that unit. */
  lemma SumInUnit(t1: Vme, n: Vme, n2: Vme) returns (r: Vme)
    requires t1.m != 0 && n.m != 0 && -43 <= t1.e <= 42 && -43 <= n.e <= 42
    requires n.v == n2.v.(unit := t1.v.unit) && n.m == n2.m && n.e == n2.e
    ensures var lo := if t1.e <= n2.e then t1.e else n2.e;
            AddDefined(t1, n) && r == VmeAdd(t1, n) && r.v.unit == t1.v.unit &&
            (!r.v.loss ==> DenotesAt(r, lo, ScaledAt(t1, lo) + ScaledAt(n2, lo)) && (r.m != 0 ==> r.e <= lo + 40))
  {
    r := VmeAdd(t1, n);
    var lo := if t1.e <= n2.e then t1.e else n2.e;
    assert ScaledAt(n, lo) == ScaledAt(n2, lo);
    AddExact(t1, n);
    AddOrdinaryUnit(t1, n);
  }

  /**
   * The weight w built from a tuple r that, without loss, denotes x at
   * the exponent lo keeps r's unit and reads as x.
   */
  lemma ExactWeightWord(r: Vme, w: int64, lo: int, x: int)
    requires w == VmeAsWeight(r)
    requires !r.v.loss ==> DenotesAt(r, lo, x) && (r.m != 0 ==> r.e <= MaxInt64 - 20)
    ensures Vmet(w).v.unit == r.v.unit && ReadsAs(w, lo, x)
  {
    var s := Vmet(w);
    WeightDecodeEncode(r);
    PredicatesOnFields(w);
    if !s.v.loss && r.m != 0 {
      NormalizeExact(r, WeightMaxInt, WeightMinE, WeightMaxE);
      MulMonotone(1, r.m, Pow10(r.e - lo));
      assert DecimalOps.AbsInt(x) == r.m * Pow10(r.e - lo);
      SameValueTransitive(s.m, s.e, r.m, r.e, DecimalOps.AbsInt(x), lo);
    }
  }

  /** The lower of the exponents of w1 and of w2 taken in w1's unit, at which their sum and difference are counted. */
  function Lower(w1: int64, w2: int64): (lo: int)
    requires Vmet(w2).m != 0 && Metric(Vmet(w1).v.unit) && Metric(Vmet(w2).v.unit)
    ensures lo <= Vmet(w1).e && lo <= InUnitOf(w1, w2).e
  {
    if Vmet(w1).e <= InUnitOf(w1, w2).e then Vmet(w1).e as int else InUnitOf(w1, w2).e
  }

  /**
   * Adding weights of metric units is exact whenever the word is: the
   * sum w is in w1's unit and reads as x, the sum of w1 and of w2 taken
   * in w1's unit, both counted at the lower of their exponents.
   */
  lemma PlusMetric(w1: int64, w2: int64, w: int64, x: int)
    requires Vmet(w1).m != 0 && Vmet(w2).m != 0 && Metric(Vmet(w1).v.unit) && Metric(Vmet(w2).v.unit)
    requires w == Plus(w1, w2)
    requires x == ScaledAt(Vmet(w1), Lower(w1, w2)) + ScaledAt(InUnitOf(w1, w2), Lower(w1, w2))
    ensures Vmet(w).v.unit == Vmet(w1).v.unit && ReadsAs(w, Lower(w1, w2), x)
  {
    var r := MetricSum(w1, w2);
    ExactWeightWord(r, w, Lower(w1, w2), x);
  }

  /**
   * Subtracting weights of metric units is exact whenever the word is:
   * the difference d reads as x, w1 minus w2 taken in w1's unit, both
   * counted at the lower of their exponents.
   */
  lemma SubMetric(w1: int64, w2: int64, d: int64, x: int)
    requires Vmet(w1).m != 0 && Vmet(w2).m != 0 && Metric(Vmet(w1).v.unit) && Metric(Vmet(w2).v.unit)
    requires d == Sub(w1, w2)
    requires x == ScaledAt(Vmet(w1), Lower(w1, w2)) - ScaledAt(InUnitOf(w1, w2), Lower(w1, w2))
    ensures ReadsAs(d, Lower(w1, w2), x)
  {
    var m2 := NegatedInUnit(w1, w2);
    assert Lower(w1, Neg64(w2)) == Lower(w1, w2);
    PlusMetric(w1, Neg64(w2), d, x);
  }

  /** -w2 in the unit of w1 is w2 in that unit with the sign flipped. */
  lemma NegatedInUnit(w1: int64, w2: int64) returns (m2: Vme)
    requires Vmet(w2).m != 0 && Metric(Vmet(w1).v.unit) && Metric(Vmet(w2).v.unit)
    ensures Vmet(Neg64(w2)).m != 0 && Metric(Vmet(Neg64(w2)).v.unit)
    ensures var n2 := InUnitOf(w1, w2);
            m2 == InUnitOf(w1, Neg64(w2)) && m2.e == n2.e &&
            forall lo :: lo <= n2.e ==> ScaledAt(m2, lo) == -ScaledAt(n2, lo)
  {
    WeightNegFlips(w2);
    m2 := InUnitOf(w1, Neg64(w2));
  }

  /**
   * Comparing weights of metric units is exact whenever their difference
   * is: Compare is the sign of w1 - w2 with w2 taken in w1's unit, and
   * GreaterThan and GreaterThanOrEqual agree with it.
   */
  lemma CompareMetric(w1: int64, w2: int64)
    requires Vmet(w1).m != 0 && Vmet(w2).m != 0 && Metric(Vmet(w1).v.unit) && Metric(Vmet(w2).v.unit)
    requires IsExact(Sub(w1, w2))
    ensures var lo := Lower(w1, w2);
            var x := ScaledAt(Vmet(w1), lo) - ScaledAt(InUnitOf(w1, w2), lo);
            Compare(w1, w2) == DecimalOps.SignOf(x) &&
            (GreaterThan(w1, w2) <==> x > 0) && (GreaterThanOrEqual(w1, w2) <==> x >= 0)
  {
    var d := Sub(w1, w2);
    PredicatesOnFields(d);
    SubMetric(w1, w2, d, ScaledAt(Vmet(w1), Lower(w1, w2)) - ScaledAt(InUnitOf(w1, w2), Lower(w1, w2)));
  }

  /** The mantissa of a unit's factor in kg: 1 for a metric unit, whose factor is a power of ten, the decimal's own otherwise. */
  function KgMantissa(c: int64): (m: nat)
    requires Factor(c)
    ensures m != 0
  {
    if D.IsInteger(c) then 1 else D.DecodeVme(c).m as nat
  }

  /** The exponent of a unit's factor in kg: the power of ten of a metric unit, the decimal's own otherwise. */
  function KgExponent(c: int64): (e: int)
    requires Factor(c)
    ensures -15 <= e <= 12
  {
    if D.IsInteger(c) then c as int else D.DecodeVme(c).e as int
  }

  /** The mantissa m in a unit of factor c, scaled to kg: m times the factor's mantissa. */
  function KgMass(m: nat, c: int64): (n: nat)
    requires Factor(c)
    ensures m != 0 ==> n != 0
  {
    MulMonotone(1, KgMantissa(c), m);
    m * KgMantissa(c)
  }

  /** The factor in kg of the unit of index k, from the unit table. */
  function UnitFactor(k: bv4): (c: int64)
    ensures Factor(c) && c == WeightUnits[k].c
  {
    TableFactors(k);
    WeightUnits[k].c
  }

  /**
   * t and r stand for the same mass: t's mantissa and exponent in t's
   * unit and r's in r's unit, both multiplied by the factor of their unit
   * in kg, are the same number.
   */
  predicate SameMass(t: Vme, r: Vme) {
    MassKept(t, UnitFactor(t.v.unit), r, UnitFactor(r.v.unit))
  }

  /**
   * w2 in kg (weight.go:214-219) keeps its sign and, whenever it is
   * exact, its mass: the mantissa of the tuple times the factor, at the
   * sum of the exponents, for a decimal factor as for a metric one.
   */
  lemma InKgValue(t2: Vme, c2: int64)
    requires Factor(c2) && WeightTuple(t2) && t2.m != 0
    ensures var s := InKg(t2, c2, true);
            s.m != 0 && s.v.sign == t2.v.sign && t2.e + KgExponent(c2) <= s.e &&
            (!s.v.loss ==> SameValue(KgMass(t2.m, c2), t2.e + KgExponent(c2), s.m, s.e))
  {
    if !D.IsInteger(c2) {
      var tc := D.DecodeVme(c2);
      MulExponent(t2, tc);
      MulExact(t2, tc);
    }
  }

  /**
   * s, in kg, in a unit of factor c1 (weight.go:220-236) keeps its sign
   * and, whenever it is exact, its mass: the result times the factor is s.
   * For a decimal factor the quotient must not fall more than
   * DivisionPrecision places below the factor's exponent.
   */
  lemma InUnitValue(s: Vme, c1: int64)
    requires Factor(c1) && s.m != 0 && -31 <= s.e <= 27
    requires D.IsInteger(c1) || s.e - KgExponent(c1) + D.DivisionPrecision >= 0
    ensures var r := InUnit(s, c1, true);
            r.v.sign == s.v.sign && (s.v.loss ==> r.v.loss) &&
            (!r.v.loss ==> r.m != 0 && SameValue(s.m, s.e, KgMass(r.m, c1), r.e + KgExponent(c1)))
  {
    if !D.IsInteger(c1) {
      var tc := D.DecodeVme(c1);
      RoundedQuotient(s, tc);
      assert InUnit(s, c1, true) == DecimalOps.DivRounded(VmeDivRem(s, tc, D.DivisionPrecision), tc.m);
    }
  }

  /**
   * s divided by a positive decimal tc at DivisionPrecision and rounded
   * as weight.go:226-235 does: s's sign, s's loss, and without loss the
   * quotient times tc is s.
   */
  lemma RoundedQuotient(s: Vme, tc: Vme)
    requires s.m != 0 && tc.m != 0 && !tc.v.sign && -31 <= s.e <= 27 && -12 <= tc.e <= -8
    requires s.e - tc.e + D.DivisionPrecision >= 0
    ensures DivRemDefined(s, tc, D.DivisionPrecision)
    ensures var r := DecimalOps.DivRounded(VmeDivRem(s, tc, D.DivisionPrecision), tc.m);
            r.v.sign == s.v.sign && (s.v.loss ==> r.v.loss) &&
            (!r.v.loss ==> r.m != 0 && SameValue(s.m, s.e, r.m * tc.m, r.e + tc.e))
  {
    DivBounds(s, tc, D.DivisionPrecision);
    DivExact(s, tc, D.DivisionPrecision);
    var x := VmeDivRem(s, tc, D.DivisionPrecision);
    if x.r == 0 && !x.q.v.loss {
      DecimalOps.QuotientNotZero(s.m, s.e, x.q.m, tc.m, x.re);
    }
  }

  /**
   * The corrected conversion of w2's tuple into the unit of factor c1
   * keeps its sign and, whenever the converted tuple is exact, its mass in
   * kg, for decimal factors (lb, oz, troy) as for metric ones.
   */
  lemma ConvertedValue(t2: Vme, c2: int64, c1: int64, unit: bv4)
    requires Factor(c1) && Factor(c2) && WeightTuple(t2) && t2.m != 0
    requires D.IsInteger(c1) || t2.e + KgExponent(c2) - KgExponent(c1) + D.DivisionPrecision >= 0
    ensures var r := Converted(t2, c2, c1, unit, true);
            r.v.unit == unit && r.v.sign == t2.v.sign && (!r.v.loss ==> r.m != 0 && MassKept(t2, c2, r, c1))
  {
    var s := InKg(t2, c2, true);
    InKgValue(t2, c2);
    var r := InUnit(s, c1, true);
    InUnitValue(s, c1);
    ConvertedIs(t2, c2, c1, unit);
    ConvertedStep(s, c1, t2, c2, r, unit);
  }

  /** The corrected Converted is InUnit after InKg, labelled with the new unit. */
  lemma ConvertedIs(t2: Vme, c2: int64, c1: int64, unit: bv4)
    requires Factor(c1) && Factor(c2) && WeightTuple(t2)
    ensures var r := InUnit(InKg(t2, c2, true), c1, true);
            Converted(t2, c2, c1, unit, true) == r.(v := r.v.(unit := unit))
  {
  }

  /** The second half of Converted: r, s (t2 in kg) in the unit of c1 as InUnitValue describes it, keeps t2's mass once labelled with unit. */
  lemma ConvertedStep(s: Vme, c1: int64, t2: Vme, c2: int64, r: Vme, unit: bv4)
    requires Factor(c1) && Factor(c2)
    requires !s.v.loss ==> SameValue(KgMass(t2.m, c2), t2.e + KgExponent(c2), s.m, s.e)
    requires (s.v.loss ==> r.v.loss) && (!r.v.loss ==> r.m != 0 && SameValue(s.m, s.e, KgMass(r.m, c1), r.e + KgExponent(c1)))
    ensures !r.v.loss ==> r.m != 0 && MassKept(t2, c2, r.(v := r.v.(unit := unit)), c1)
  {
    if !r.v.loss {
      MassTransitive(t2, c2, s, r.(v := r.v.(unit := unit)), c1);
    }
  }

  /** t2 of factor c2 and r of factor c1 have the same mass in kg. */
  predicate MassKept(t2: Vme, c2: int64, r: Vme, c1: int64)
    requires Factor(c1) && Factor(c2)
  {
    SameValue(KgMass(t2.m, c2), t2.e + KgExponent(c2), KgMass(r.m, c1), r.e + KgExponent(c1))
  }

  /** The mass is kept through s in kg. */
  lemma MassTransitive(t2: Vme, c2: int64, s: Vme, r: Vme, c1: int64)
    requires Factor(c1) && Factor(c2)
    requires SameValue(KgMass(t2.m, c2), t2.e + KgExponent(c2), s.m, s.e)
    requires SameValue(s.m, s.e, KgMass(r.m, c1), r.e + KgExponent(c1))
    ensures MassKept(t2, c2, r, c1)
  {
    SameValueTransitive(KgMass(t2.m, c2), t2.e + KgExponent(c2), s.m, s.e, KgMass(r.m, c1), r.e + KgExponent(c1));
  }

  /** w2's tuple can be divided into w1's unit without leaving the main division of vmeDivRem. */
  predicate Convertible(w1: int64, w2: int64) {
    TableFactors(Vmet(w1).v.unit);
    TableFactors(Vmet(w2).v.unit);
    var c1, c2 := WeightUnits[Vmet(w1).v.unit].c, WeightUnits[Vmet(w2).v.unit].c;
    D.IsInteger(c1) || Vmet(w2).e + KgExponent(c2) - KgExponent(c1) + D.DivisionPrecision >= 0
  }

  /**
   * Adding weights of any two units: Plus adds to w1 a tuple n in w1's
   * unit with w2's sign, and whenever the sum is exact, n has w2's mass
   * and the sum w reads as w1 plus n, both counted at the lower of their
   * exponents.
   */
  lemma PlusValue(w1: int64, w2: int64, w: int64) returns (n: Vme, lo: int)
    requires Vmet(w1).m != 0 && Vmet(w2).m != 0 && Convertible(w1, w2)
    requires w == Plus(w1, w2)
    ensures n.v.unit == Vmet(w1).v.unit && n.v.sign == Vmet(w2).v.sign && (n.m != 0 ==> -43 <= n.e <= 42)
    ensures !Vmet(w).v.loss ==> n.m != 0 && SameMass(Vmet(w2), n)
    ensures lo == if n.m != 0 && n.e < Vmet(w1).e then n.e else Vmet(w1).e as int
    ensures n.m != 0 ==> ReadsAs(w, lo, ScaledAt(Vmet(w1), lo) + ScaledAt(n, lo))
  {
    n := ConvertedPart(w1, w2);
    lo := if n.m != 0 && n.e < Vmet(w1).e then n.e else Vmet(w1).e as int;
    SumReads(Vmet(w1), n, w, lo);
  }

  /** The tuple Plus adds to w1: w2 in w1's unit, with w2's sign and, when exact, w2's mass. */
  lemma ConvertedPart(w1: int64, w2: int64) returns (n: Vme)
    requires Vmet(w1).m != 0 && Vmet(w2).m != 0 && Convertible(w1, w2)
    ensures AddDefined(Vmet(w1), n) && Plus(w1, w2) == VmeAsWeight(VmeAdd(Vmet(w1), n))
    ensures n.v.unit == Vmet(w1).v.unit && n.v.sign == Vmet(w2).v.sign && (n.m != 0 ==> -43 <= n.e <= 42)
    ensures !n.v.loss ==> n.m != 0 && SameMass(Vmet(w2), n)
  {
    var t1, t2 := Vmet(w1), Vmet(w2);
    var c1, c2;
    n, c1, c2 := SumTupleParts(t1, t2, true);
    ConvertedValue(t2, c2, c1, t1.v.unit);
  }

  /**
   * The weight w of the sum of an ordinary t1 and a tuple n of its unit:
   * when w is exact, so is n, and w reads as t1 plus n counted at the
   * lower of their exponents.
   */
  lemma SumReads(t1: Vme, n: Vme, w: int64, lo: int)
    requires t1.m != 0 && WeightTuple(t1) && n.v.unit == t1.v.unit && (n.m != 0 ==> -43 <= n.e <= 42)
    requires AddDefined(t1, n) && w == VmeAsWeight(VmeAdd(t1, n))
    requires lo == if n.m != 0 && n.e < t1.e then n.e else t1.e as int
    ensures !Vmet(w).v.loss ==> !n.v.loss
    ensures n.m != 0 ==> ReadsAs(w, lo, ScaledAt(t1, lo) + ScaledAt(n, lo))
  {
    var r := VmeAdd(t1, n);
    WeightDecodeEncode(r);
    if n.m != 0 {
      r := SumInUnit(t1, n, n);
      ExactWeightWord(r, w, lo, ScaledAt(t1, lo) + ScaledAt(n, lo));
    }
  }

  /**
   * Comparing weights of any two units is exact whenever their difference
   * is: Compare is the sign of w1 plus n, where n is -w2 in w1's unit and
   * has w2's mass, and GreaterThan and GreaterThanOrEqual agree with it.
   */
  lemma CompareValue(w1: int64, w2: int64) returns (n: Vme)
    requires Vmet(w1).m != 0 && Vmet(w2).m != 0 && Convertible(w1, w2)
    requires IsExact(Sub(w1, w2))
    ensures n.m != 0 && n.v.sign != Vmet(w2).v.sign && SameMass(Vmet(w2), n)
    ensures var t1 := Vmet(w1);
            var lo := if n.e < t1.e then n.e else t1.e as int;
            var x := ScaledAt(t1, lo) + ScaledAt(n, lo);
            Compare(w1, w2) == DecimalOps.SignOf(x) &&
            (GreaterThan(w1, w2) <==> x > 0) && (GreaterThanOrEqual(w1, w2) <==> x >= 0)
  {
    NegConvertible(w1, w2);
    var d := Sub(w1, w2);
    var lo;
    n, lo := PlusValue(w1, Neg64(w2), d);
    PredicatesOnFields(d);
    assert n.m != 0;
    MassOfNegation(Vmet(w2), Vmet(Neg64(w2)), n);
    var t1 := Vmet(w1);
    ComparedByDifference(w1, w2, d, lo, ScaledAt(t1, lo) + ScaledAt(n, lo));
  }

  /** -w2 has w2's mantissa, exponent and unit, and so converts into w1's unit as w2 does. */
  lemma NegConvertible(w1: int64, w2: int64)
    requires Vmet(w2).m != 0 && Convertible(w1, w2)
    ensures Vmet(Neg64(w2)) == Vmet(w2).(v := Vmet(w2).v.(sign := !Vmet(w2).v.sign))
    ensures Vmet(Neg64(w2)).m != 0 && Convertible(w1, Neg64(w2))
  {
    WeightNegFlips(w2);
  }

  /** The mass does not depend on the sign. */
  lemma MassOfNegation(t: Vme, t': Vme, n: Vme)
    requires t' == t.(v := t.v.(sign := !t.v.sign)) && SameMass(t', n)
    ensures SameMass(t, n)
  {
  }

  /** Compare, GreaterThan and GreaterThanOrEqual read the sign of an exact difference d that reads as x. */
  lemma ComparedByDifference(w1: int64, w2: int64, d: int64, lo: int, x: int)
    requires d == Sub(w1, w2) && IsExact(d) && ReadsAs(d, lo, x)
    ensures Compare(w1, w2) == DecimalOps.SignOf(x) && (GreaterThan(w1, w2) <==> x > 0) && (GreaterThanOrEqual(w1, w2) <==> x >= 0)
  {
    PredicatesOnFields(d);
  }

  /** w - w, for a weight with a mantissa in a metric unit, is the exact zero (sign, 0, 0) of w's unit and loss. */
  lemma SubSelf(w: int64)
    requires Vmet(w).m != 0 && Metric(Vmet(w).v.unit)
    ensures Sub(w, w) == VmeAsWeight(Vme(V(true, Vmet(w).v.loss, Vmet(w).v.unit), 0, 0))
  {
    var t := Vmet(w);
    WeightNegFlips(w);
    var n := MetricPlusParts(w, Neg64(w));
    AddCancels(t, n);
  }

  /** The zero of a unit with or without loss is a zero and not positive. */
  lemma CancelledIsZero(loss: bool, unit: bv4)
    ensures var w := VmeAsWeight(Vme(V(true, loss, unit), 0, 0)); IsZero(w) && !IsPositive(w)
  {
    var w := VmeAsWeight(Vme(V(true, loss, unit), 0, 0));
    WeightDecodeEncode(Vme(V(true, loss, unit), 0, 0));
    PredicatesOnFields(w);
  }

  /**
   * Every weight with a mantissa in a metric unit compares equal to itself,
   * exact or not: Compare is 0, GreaterThan and LessThan are false,
   * GreaterThanOrEqual and LessThanOrEqual true.
   */
  lemma CompareSelf(w: int64)
    requires Vmet(w).m != 0 && Metric(Vmet(w).v.unit)
    ensures Compare(w, w) == 0
    ensures !GreaterThan(w, w) && GreaterThanOrEqual(w, w)
    ensures !LessThan(w, w) && LessThanOrEqual(w, w)
  {
    SubSelf(w);
    CancelledIsZero(Vmet(w).v.loss, Vmet(w).v.unit);
  }

  /** The tuple Plus adds to w1: w2's tuple converted into w1's unit. */
  lemma PlusParts(w1: int64, w2: int64) returns (n: Vme)
    ensures n.v.unit == Vmet(w1).v.unit && AddDefined(Vmet(w1), n)
    ensures Plus(w1, w2) == VmeAsWeight(VmeAdd(Vmet(w1), n))
    ensures IsInfVme(Vmet(w2)) ==> n == Vme(V(Vmet(w2).v.sign, true, Vmet(w1).v.unit), 0, MaxInt64)
  {
    var c1, c2;
    n, c1, c2 := SumTupleParts(Vmet(w1), Vmet(w2), true);
    if IsInfVme(Vmet(w2)) {
      InfinityConverted(Vmet(w2), c2, c1, Vmet(w1).v.unit);
    }
  }

  /** The parts of SumTuple: the factors of the two units, and t2 converted between them. */
  lemma SumTupleParts(t1: Vme, t2: Vme, fixed: bool) returns (n: Vme, c1: int64, c2: int64)
    requires WeightTuple(t1) && WeightTuple(t2)
    ensures c1 == WeightUnits[t1.v.unit].c && c2 == WeightUnits[t2.v.unit].c && Factor(c1) && Factor(c2)
    ensures n == Converted(t2, c2, c1, t1.v.unit, fixed) && AddDefined(t1, n) && SumTuple(t1, t2, fixed) == VmeAdd(t1, n)
  {
    TableFactors(t1.v.unit);
    TableFactors(t2.v.unit);
    c1, c2 := WeightUnits[t1.v.unit].c, WeightUnits[t2.v.unit].c;
    n := Converted(t2, c2, c1, t1.v.unit, fixed);
  }

  /** The corrected conversion leaves an infinity as it is, in the new unit. */
  lemma InfinityConverted(t2: Vme, c2: int64, c1: int64, unit: bv4)
    requires Factor(c1) && Factor(c2) && WeightTuple(t2) && IsInfVme(t2)
    ensures Converted(t2, c2, c1, unit, true) == Vme(V(t2.v.sign, true, unit), 0, MaxInt64)
  {
  }

  /**
   * The corrected Add keeps w1's unit: the result is in w1's unit unless
   * it is the ~0 or the NaN vmeAdd returns without a unit.
   */
  lemma PlusKeepsUnit(w1: int64, w2: int64)
    ensures var w := Plus(w1, w2);
            w == VmeAsWeight(NearZeroVme) || w == VmeAsWeight(NaNVme) || Vmet(w).v.unit == Vmet(w1).v.unit
  {
    var n := PlusParts(w1, w2);
    AddKeepsUnit(Vmet(w1), n);
    UnitKept(VmeAdd(Vmet(w1), n));
  }

  /** An infinity of the unit of an ordinary t1, added to it, is kept as it is. */
  lemma InfinityAbsorbs(t1: Vme, n: Vme)
    requires t1.m != 0 && WeightTuple(t1) && IsInfVme(n) && n.v.unit == t1.v.unit
    ensures var s := Vmet(VmeAsWeight(VmeAdd(t1, n))); KindOf(s) == KindOf(n) && s.v.unit == t1.v.unit
  {
    var r := VmeAdd(t1, n);
    assert r == n;
    WeightDecodeEncode(r);
  }

  /**
   * An infinity added to a weight with a mantissa gives the infinity, of
   * the same sign, in the unit of w1, whatever the units.
   */
  lemma PlusInfinity(w1: int64, w2: int64)
    requires Vmet(w1).m != 0 && IsInfVme(Vmet(w2))
    ensures var s := Vmet(Plus(w1, w2)); KindOf(s) == KindOf(Vmet(w2)) && s.v.unit == Vmet(w1).v.unit
  {
    var n := PlusParts(w1, w2);
    InfinityAbsorbs(Vmet(w1), n);
  }

  /** m1 * m2 as a nat. */
  function MantissaProduct(t: Vme, c: Vme): (p: nat) {
    MulMonotone(0, t.m, c.m);
    t.m * c.m
  }

  /**
   * Multiplying a weight by a decimal, both with a mantissa, keeps the
   * weight's unit, is inexact when an operand is, and otherwise is the
   * product of the mantissas at the sum of the exponents, signed by the
   * XOR of the signs.
   */
  lemma MulValue(w: int64, d: int64)
    requires Vmet(w).m != 0 && D.DecodeVme(d).m != 0
    ensures var t, c, s := Vmet(w), D.DecodeVme(d), Vmet(Mul(w, d));
            s.v.unit == t.v.unit && (t.v.loss || c.v.loss ==> s.v.loss) &&
            (!s.v.loss ==> s.m != 0 && s.v.sign == (t.v.sign != c.v.sign) && SameValue(s.m, s.e, MantissaProduct(t, c), t.e + c.e))
  {
    ProductWeight(Vmet(w), D.DecodeVme(d));
  }

  /** The weight of the product of two ordinary tuples, t a weight tuple. */
  lemma ProductWeight(t: Vme, c: Vme)
    requires t.m != 0 && c.m != 0 && -16 <= t.e <= 15 && -16 <= c.e <= 15
    ensures var s := Vmet(VmeAsWeight(VmeMul(t, c)));
            s.v.unit == t.v.unit && (t.v.loss || c.v.loss ==> s.v.loss) &&
            (!s.v.loss ==> s.m != 0 && s.v.sign == (t.v.sign != c.v.sign) && SameValue(s.m, s.e, MantissaProduct(t, c), t.e + c.e))
  {
    var r := ProductTuple(t, c);
    TupleWord(r);
    var s := Vmet(VmeAsWeight(r));
    if !s.v.loss {
      SameValueTransitive(s.m, s.e, r.m, r.e, MantissaProduct(t, c), t.e + c.e);
    }
  }

  /** The product of two ordinary tuples t and c with small exponents, without loss, is t.m * c.m at t.e + c.e. */
  lemma ProductTuple(t: Vme, c: Vme) returns (r: Vme)
    requires t.m != 0 && c.m != 0 && -16 <= t.e <= 15 && -16 <= c.e <= 15
    ensures r == VmeMul(t, c) && r.m != 0 && r.e <= 50
    ensures r.v.unit == t.v.unit && r.v.sign == (t.v.sign != c.v.sign) && (t.v.loss || c.v.loss ==> r.v.loss)
    ensures !r.v.loss ==> SameValue(r.m, r.e, MantissaProduct(t, c), t.e + c.e)
  {
    r := VmeMul(t, c);
    MulExact(t, c);
    MulExponent(t, c);
    assert VmeMulWith(t, c, true).v.loss <== t.v.loss || c.v.loss;
  }

  /** The word of an ordinary tuple keeps its unit, its loss and its sign, and its value when exact. */
  lemma TupleWord(r: Vme)
    requires r.m != 0 && r.e <= MaxInt64 - 20
    ensures var s := Vmet(VmeAsWeight(r));
            s.v.unit == r.v.unit && (r.v.loss ==> s.v.loss) &&
            (!s.v.loss ==> s.m != 0 && s.v.sign == r.v.sign && SameValue(s.m, s.e, r.m, r.e))
  {
    WeightDecodeEncode(r);
    NormalizeExact(r, WeightMaxInt, WeightMinE, WeightMaxE);
  }

  /** 11 mg, the word 6 << 53 | 11, times the decimal 11 is 121 mg, the word 6 << 53 | 121. */
  lemma MulMilligrams()
    ensures Mul(6 * Two53 + 11, 11) == 6 * Two53 + 121
  {
    var t := Vme(V(false, false, 6), 11, 0);
    var r := Vme(V(false, false, 6), 121, 0);
    MilligramWords();
    D.IntegerWord(11);
    MulSmall(t, D.DecodeVme(11));
    assert VmeAsWeight(r) == 6 * Two53 + 121;
  }

  /** The unit of both words 6 << 53 | 11 and 6 << 53 | 121 is named "mg". */
  lemma MilligramNames()
    ensures UnitName(6 * Two53 + 11) == [0x6d, 0x67] && UnitName(6 * Two53 + 121) == [0x6d, 0x67]
  {
    MilligramWords();
  }

  /** The words of 11 mg and 121 mg. */
  lemma MilligramWords()
    ensures Vmet(6 * Two53 + 11) == Vme(V(false, false, 6), 11, 0)
    ensures Vmet(6 * Two53 + 121) == Vme(V(false, false, 6), 121, 0)
  {
    UnpackWeight(false, 6, 11, 0);
    UnpackWeight(false, 6, 121, 0);
  }

  /** Two exact tuples at exponent 0 whose mantissas multiply below 2^64 multiply exactly. */
  lemma MulSmall(t: Vme, c: Vme)
    requires t.m != 0 && c.m != 0 && t.e == 0 && c.e == 0 && !t.v.loss && !c.v.loss && t.m * c.m < D.Two64
    ensures VmeMul(t, c) == Vme(V(t.v.sign != c.v.sign, false, t.v.unit), t.m * c.m, 0)
  {
    Mul64Product(t.m, c.m);
  }

  /** The word of ~1 g: loss, unit 5, mantissa 1. */
  lemma NearGramWord()
    ensures Vmet(D.Two62 + 5 * Two53 + 1) == Vme(V(false, true, 5), 1, 0)
  {
    UnpackWeight(true, 5, 1, 0);
  }

  /** The ~0 of unit 5 with the sign bit set is the word -(2^62 + 5 << 53). */
  lemma NegativeNearZeroOfGrams()
    ensures VmeAsWeight(Vme(V(true, true, 5), 0, 0)) == -(D.Two62 + 5 * Two53)
  {
  }

  /** As written, IsZero and IsPositive read the word -(2^62 + 5 << 53) as neither; corrected, it is a zero. */
  lemma NegativeNearZeroRead()
    ensures var d := -(D.Two62 + 5 * Two53);
            !IsZeroWith(d, false) && !IsPositiveWith(d, false) && IsZero(d)
  {
    var d := -(D.Two62 + 5 * Two53);
    assert D.Bits64(d) % D.Two63 == D.Two62 - 5 * Two53;
    assert D.Magnitude(d) % D.Two63 == D.Two62 + 5 * Two53;
  }

  /**
   * As written, w - w of an inexact weight such as ~1 g is the negative
   * ~0 of its unit, whose two's-complement bits IsZero and IsPositive
   * read: Compare gives -1. Reading the magnitude gives 0.
   */
  lemma NearSelfComparedAsWritten()
    ensures var w := D.Two62 + 5 * Two53 + 1;
            Vmet(w) == Vme(V(false, true, 5), 1, 0) &&
            CompareWith(w, w, false) == -1 && Compare(w, w) == 0
  {
    var w := D.Two62 + 5 * Two53 + 1;
    NearGramWord();
    SubSelf(w);
    NegativeNearZeroOfGrams();
    NegativeNearZeroRead();
  }

  /** The word of 1 g, and the exact zero of unit 5, the positive word 5 << 53. */
  lemma GramWords()
    ensures Vmet(5 * Two53 + 1) == Vme(V(false, false, 5), 1, 0)
    ensures VmeAsWeight(Vme(V(true, false, 5), 0, 0)) == 5 * Two53
    ensures Vmet(5 * Two53) == Vme(V(false, false, 5), 0, 0)
  {
    UnpackWeight(false, 5, 1, 0);
    UnpackWeight(false, 5, 0, 0);
  }

  /**
   * As written, w - w of an exact weight in a unit other than kg, such as
   * 1 g, is the positive word holding only the unit, which IsPositive
   * accepts: GreaterThan(w, w) holds. The corrected IsPositive, which
   * leaves out the zeros, rejects it.
   */
  lemma SelfGreaterAsWritten()
    ensures var w := 5 * Two53 + 1;
            Vmet(w) == Vme(V(false, false, 5), 1, 0) &&
            GreaterThanWith(w, w, false) && !GreaterThan(w, w)
  {
    var w := 5 * Two53 + 1;
    GramWords();
    SubSelf(w);
    CancelledIsZero(false, 5);
  }

  /** The words of 1e-16 kg and of 1e5 Mt. */
  lemma LeakWords()
    ensures Vmet(D.Pack(false, 1, -16)) == Vme(NoBits, 1, -16)
    ensures Vmet(3 * Two53 + 100000) == Vme(V(false, false, 3), 100000, 0)
  {
    UnpackWeight(false, 0, 1, -16);
    UnpackWeight(false, 3, 100000, 0);
  }

  /** Operands 25 places apart: vmeAdd returns the larger one, inexact, with its own unit bits. */
  lemma FarApartSum(t1: Vme, n: Vme)
    requires t1 == Vme(NoBits, 1, -16) && n.m == 100000 && n.e == 9
    ensures VmeAdd(t1, n) == Vme(n.v.(loss := true), 100000, 9)
  {
  }

  /** As written, 1e-16 kg + 1e5 Mt is 1e5 Mt, inexact: the sum keeps the unit of w2. */
  lemma LeakedTuple()
    ensures SumTuple(Vme(NoBits, 1, -16), Vme(V(false, false, 3), 100000, 0), false) == Vme(V(false, true, 3), 100000, 9)
  {
    var n, c1, c2 := SumTupleParts(Vme(NoBits, 1, -16), Vme(V(false, false, 3), 100000, 0), false);
    SmallFactors();
    MegatonneConversion();
    FarApartSum(Vme(NoBits, 1, -16), n);
  }

  /** Corrected, 1e-16 kg + 1e5 Mt is 1e5 Mt written in kg, inexact. */
  lemma KeptTuple()
    ensures SumTuple(Vme(NoBits, 1, -16), Vme(V(false, false, 3), 100000, 0), true) == Vme(V(false, true, 0), 100000, 9)
  {
    var n, c1, c2 := SumTupleParts(Vme(NoBits, 1, -16), Vme(V(false, false, 3), 100000, 0), true);
    SmallFactors();
    MegatonneConversion();
    FarApartSum(Vme(NoBits, 1, -16), n);
  }

  /** 1e5 Mt in kg is 1e5 at the exponent 9: tagged Mt as written, kg corrected. */
  lemma MegatonneConversion()
    ensures Factor(9) && Factor(0)
    ensures Converted(Vme(V(false, false, 3), 100000, 0), 9, 0, 0, false) == Vme(V(false, false, 3), 100000, 9)
    ensures Converted(Vme(V(false, false, 3), 100000, 0), 9, 0, 0, true) == Vme(NoBits, 100000, 9)
  {
    SmallFactors();
    IntegerConversion(Vme(V(false, false, 3), 100000, 0), 9, 0, 0);
    MetricConversion(Vme(V(false, false, 3), 100000, 0), 9, 0, 0);
  }

  /** The factors of kg, t and Mt: 10^0, 10^3 and 10^9, as integer factors. */
  lemma SmallFactors()
    ensures WeightUnits[0].c == 0 && WeightUnits[1].c == 3 && WeightUnits[3].c == 9
    ensures D.IsInteger(0) && D.IsInteger(3) && D.IsInteger(9) && Factor(0) && Factor(3) && Factor(9)
  {
  }

  /** As written, a conversion between metric units moves the exponent twice, wrapping at 64 bits, even for a tuple without a mantissa. */
  lemma IntegerConversion(t2: Vme, c2: int64, c1: int64, unit: bv4)
    requires D.IsInteger(c1) && D.IsInteger(c2) && Factor(c1) && Factor(c2) && WeightTuple(t2)
    ensures Converted(t2, c2, c1, unit, false) == t2.(e := Wrap64(Wrap64(t2.e as int + c2) as int - c1))
  {
  }

  /**
   * As written, 1e-16 kg + 1e5 Mt is tagged Mt, the unit of w2: the
   * operands are 25 decimal places apart and vmeAdd returns w2's tuple
   * with its unit bits, so the sum reads 10^9 times too large. The
   * corrected sum is in kg.
   */
  lemma UnitLeakAsWritten()
    ensures var w1, w2 := D.Pack(false, 1, -16), 3 * Two53 + 100000;
            Vmet(w1) == Vme(NoBits, 1, -16) && Vmet(w2) == Vme(V(false, false, 3), 100000, 0) &&
            Vmet(AddWith(w1, w2, false)).v.unit == 3 && Vmet(Plus(w1, w2)).v.unit == 0
  {
    LeakWords();
    LeakedTuple();
    UnitKept(Vme(V(false, true, 3), 100000, 9));
    KeptTuple();
    UnitKept(Vme(V(false, true, 0), 100000, 9));
  }

  /** The word of +Inf t: loss, unit 1, exponent field 15, no mantissa. */
  lemma InfinityOfTonnes()
    ensures Vmet(D.Pack(true, Two53, 15)) == Vme(V(false, true, 1), 0, MaxInt64)
  {
    UnpackWeight(true, 1, 0, 15);
  }

  /** The tuple in t without a mantissa and with the exponent MinInt64 + 2 is the word of +~0 t. */
  lemma ShiftedWord()
    ensures var s := Vmet(VmeAsWeight(Vme(V(false, true, 1), 0, MinInt64 + 2))); KindOf(s) == NearPositive && s.v.unit == 1
  {
    WeightDecodeEncode(Vme(V(false, true, 1), 0, MinInt64 + 2));
  }

  /** As written, 1 kg + Inf t is a tuple in t without a mantissa and with the exponent MinInt64 + 2. */
  lemma ShiftedInfinity()
    ensures SumTuple(Vme(NoBits, 1, 0), Vme(V(false, true, 1), 0, MaxInt64), false) == Vme(V(false, true, 1), 0, MinInt64 + 2)
  {
    var n, c1, c2 := SumTupleParts(Vme(NoBits, 1, 0), Vme(V(false, true, 1), 0, MaxInt64), false);
    SmallFactors();
    ShiftedConversion();
    NearZeroKept(Vme(NoBits, 1, 0), n);
  }

  /** As written, the exponent MaxInt64 of Inf t moved by the factor 3 of t wraps to MinInt64 + 2. */
  lemma ShiftedConversion()
    ensures Factor(3) && Factor(0) && Converted(Vme(V(false, true, 1), 0, MaxInt64), 3, 0, 0, false) == Vme(V(false, true, 1), 0, MinInt64 + 2)
  {
    SmallFactors();
    Wrap64Shift(MaxInt64 as int + 3);
    IntegerConversion(Vme(V(false, true, 1), 0, MaxInt64), 3, 0, 0);
  }

  /** An inexact tuple without a mantissa and with a smaller exponent, added to an ordinary t1 of its unit, gives itself. */
  lemma NearZeroKept(t1: Vme, n: Vme)
    requires t1 == Vme(NoBits, 1, 0) && n == Vme(V(false, true, 1), 0, MinInt64 + 2)
    ensures VmeAdd(t1, n) == n
  {
  }

  /**
   * As written, 1 kg + Inf t is +~0 t: the exponent MaxInt64 of the
   * infinity is moved by the factor 3 of t and wraps into the range of
   * the near-zeros. The corrected sum is +Inf kg.
   */
  lemma MagicShiftedAsWritten()
    ensures var w2 := D.Pack(true, Two53, 15);
            Vmet(w2) == Vme(V(false, true, 1), 0, MaxInt64) &&
            KindOf(Vmet(AddWith(1, w2, false))) == NearPositive && Vmet(AddWith(1, w2, false)).v.unit == 1 &&
            KindOf(Vmet(Plus(1, w2))) == PosInf && Vmet(Plus(1, w2)).v.unit == 0
  {
    InfinityOfTonnes();
    IntegerWeight(1);
    ShiftedInfinity();
    ShiftedWord();
    PlusInfinity(1, D.Pack(true, Two53, 15));
  }
}
