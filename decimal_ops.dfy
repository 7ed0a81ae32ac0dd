/**
 * The arithmetic, comparison and rounding methods of Decimal
 * (decimal.go:179-365): each decodes its operands with d.vme(), runs the
 * core operation on the (v, m, e) tuples and packs the result with
 * vmeAsDecimal.
 */
module DecimalOps {
  import opened Bits
  import opened Vmes
  import opened CoreAdd
  import opened CoreMul
  import opened CoreDivRem
  import opened TenPowSearch
  import opened Decimals

  /**
   * vmeAsDecimal, except that an exact zero is always Zero and never Null:
   * decimal.go:35 promises that no operation returns Null, while
   * vmeAsDecimal packs the tuple (0, 0, 0) as Null.
   */
  function NonNullDecimal(t: Vme): (d: int64)
    ensures d != Null
    ensures t != NullVme ==> d == VmeAsDecimal(t)
  {
    if t == NullVme then Zero else VmeAsDecimal(t)
  }

  /** The packing of a result: as written (fixed == false) or never Null. */
  function Packed(t: Vme, fixed: bool): (d: int64)
    ensures fixed ==> d != Null
  {
    if fixed then NonNullDecimal(t) else VmeAsDecimal(t)
  }

  /** The correction changes a packed result only where the source returns Null, and then to Zero. */
  lemma PackedDiffersOnlyAtNull(t: Vme)
    ensures Packed(t, true) == Packed(t, false) || (Packed(t, false) == Null && Packed(t, true) == Zero)
  {
    if t == NullVme {
      DecodeZero();
      assert VmeAsDecimal(NullVme) == Null;
    }
  }

  /** d1.Add(d2) (decimal.go:179-184); fixed selects the packing that never returns Null. */
  function AddWith(d1: int64, d2: int64, fixed: bool): int64 {
    Packed(VmeAdd(DecodeVme(d1), DecodeVme(d2)), fixed)
  }

  /** d1.Add(d2), corrected. */
  function Add(d1: int64, d2: int64): (r: int64)
    ensures r != Null
  {
    AddWith(d1, d2, true)
  }

  /** d1.Sub(d2) (decimal.go:187-189): d1.Add(-d2), with Go's wrapping int64 negation. */
  function Sub(d1: int64, d2: int64): (r: int64)
    ensures r != Null
  {
    Add(d1, Neg64(d2))
  }

  /** d1.Mul(d2) (decimal.go:192-197); fixed selects the packing that never returns Null. */
  function MulWith(d1: int64, d2: int64, fixed: bool): int64 {
    Packed(VmeMul(DecodeVme(d1), DecodeVme(d2)), fixed)
  }

  /** d1.Mul(d2), corrected. */
  function Mul(d1: int64, d2: int64): (r: int64)
    ensures r != Null
  {
    MulWith(d1, d2, true)
  }

  /**
   * As written, Null + Null and Null - Null are Null, although Null is seen
   * as 0 and no operation should return it; corrected, they are Zero.
   */
  lemma NullSumIsNull()
    ensures AddWith(Null, Null, false) == Null && Add(Null, Null) == Zero
    ensures AddWith(Null, Neg64(Null), false) == Null && Sub(Null, Null) == Zero
  {
    DecodeZero();
    NullTupleSum();
    assert VmeAsDecimal(NullVme) == Null;
  }

  lemma NullTupleSum()
    ensures VmeAdd(NullVme, NullVme) == NullVme
  {
  }

  /** The sign of an integer: -1, 0 or 1. */
  function SignOf(x: int): int {
    if x > 0 then 1 else if x < 0 then -1 else 0
  }

  /** The integers a word may hold as itself: 1..MaxInt in magnitude, and 0 as Zero. */
  predicate SmallInt(n: int) {
    -(MaxInt as int) <= n <= MaxInt
  }

  /** The word of a small integer, as NewFromInt builds it. */
  lemma SmallIntWord(n: int64)
    requires SmallInt(n)
    ensures NewFromInt(n) == if n == 0 then Zero else n
    ensures DecodeVme(NewFromInt(n)) == if n == 0 then ZeroVme else Vme(V(n < 0, false, 0), Magnitude(n), 0)
    ensures VmeAsDecimal(DecodeVme(NewFromInt(n))) == NewFromInt(n)
  {
    DecodeZero();
    if n != 0 {
      IntegerWord(n);
    }
  }

  /** Negating the word of a small integer gives the word of its opposite. */
  lemma NegSmallInt(n: int64)
    requires SmallInt(n)
    ensures Neg64(NewFromInt(n)) == NewFromInt(-(n as int))
  {
  }

  /** Two small integers at exponent 0 add exactly (core.go:704-725). */
  lemma AddSmallTuples(a: int64, b: int64)
    requires a != 0 && b != 0 && SmallInt(a) && SmallInt(b) && SmallInt(a as int + b) && a as int + b != 0
    ensures VmeAdd(DecodeVme(a), DecodeVme(b)) == DecodeVme(a as int + b)
  {
    IntegerWord(a);
    IntegerWord(b);
    IntegerWord(a as int + b);
  }

  /**
   * Integers stay integers: the sum of two small integer words is the word
   * of their sum whenever that sum is small too.
   */
  lemma AddIntegers(a: int64, b: int64)
    requires SmallInt(a) && SmallInt(b) && SmallInt(a as int + b)
    ensures Add(NewFromInt(a), NewFromInt(b)) == NewFromInt(a as int + b)
  {
    SmallIntWord(a);
    SmallIntWord(b);
    SmallIntWord(a as int + b);
    var ta, tb := DecodeVme(NewFromInt(a)), DecodeVme(NewFromInt(b));
    if a == 0 && b != 0 {
      AddZeroLeft(ta, tb);
    } else if a != 0 && b == 0 {
      AddZeroRight(ta, tb);
    } else if a != 0 && b != 0 {
      if a as int + b == 0 {
        AddCancels(ta, tb);
      } else {
        AddSmallTuples(a, b);
      }
    }
  }

  lemma SubIntegers(a: int64, b: int64)
    requires SmallInt(a) && SmallInt(b) && SmallInt(a as int - b)
    ensures Sub(NewFromInt(a), NewFromInt(b)) == NewFromInt(a as int - b)
  {
    NegSmallInt(b);
    AddIntegers(a, -(b as int));
  }

  /** The product of two small integer words is the word of their product whenever that product is small. */
  lemma MulIntegers(a: int64, b: int64)
    requires SmallInt(a) && SmallInt(b) && SmallInt(a as int * b)
    ensures Mul(NewFromInt(a), NewFromInt(b)) == NewFromInt(a as int * b)
  {
    SmallIntWord(a);
    SmallIntWord(b);
    if a == 0 || b == 0 {
      assert a as int * b == 0;
      SmallIntWord(0);
      if a == 0 {
        MulByZero(ZeroVme, DecodeVme(NewFromInt(b)));
      } else {
        MulByZero(ZeroVme, DecodeVme(NewFromInt(a)));
      }
    } else {
      MagnitudeOfProduct(a, b);
      SmallIntWord(a as int * b);
      MulSmallTuples(a, b);
    }
  }

  lemma MulSmallTuples(a: int64, b: int64)
    requires a != 0 && b != 0 && SmallInt(a) && SmallInt(b) && SmallInt(a as int * b)
    ensures VmeMul(DecodeVme(a), DecodeVme(b)) == DecodeVme(a as int * b)
  {
    IntegerWord(a);
    IntegerWord(b);
    MagnitudeOfProduct(a, b);
    IntegerWord(a as int * b);
    var ma, mb := Magnitude(a), Magnitude(b);
    Mul64Product(ma, mb);
    assert Wrap64(0 + 0) == 0;
  }

  /** |a * b| == |a| * |b|, and the product of non-zero integers is not zero. */
  lemma MagnitudeOfProduct(a: int64, b: int64)
    requires a != 0 && b != 0 && SmallInt(a as int * b)
    ensures a as int * b != 0 && Magnitude(a as int * b) == Magnitude(a) * Magnitude(b)
  {
    if a < 0 && b < 0 {
      assert a as int * b == (-(a as int)) * (-(b as int));
    } else if a < 0 {
      assert -(a as int * b) == (-(a as int)) * b;
    } else if b < 0 {
      assert -(a as int * b) == a * (-(b as int));
    }
  }

  /** d1.Compare(d2) (decimal.go:263-273): the sign of d1 - d2, with every zero state counting as 0. */
  function Compare(d1: int64, d2: int64): (c: int)
    ensures c in {-1, 0, 1}
  {
    var d := Sub(d1, d2);
    if IsZero(d) then 0 else if IsPositive(d) then 1 else -1
  }

  /** d1.Equal(d2) (decimal.go:252-256): d1 - d2 is one of the zero states. */
  predicate Equal(d1: int64, d2: int64) {
    IsZero(Sub(d1, d2))
  }

  /** d1.GreatherThan(d2) (decimal.go:281-285). */
  predicate GreaterThan(d1: int64, d2: int64) {
    IsPositive(Sub(d1, d2))
  }

  /** d1.GreatherThanOrEqual(d2) (decimal.go:288-292). */
  predicate GreaterThanOrEqual(d1: int64, d2: int64) {
    var d := Sub(d1, d2);
    IsPositive(d) || IsZero(d)
  }

  /** d1.LessThan(d2) (decimal.go:295-297). */
  predicate LessThan(d1: int64, d2: int64) {
    GreaterThan(d2, d1)
  }

  /** d1.LessThanOrEqual(d2) (decimal.go:300-302). */
  predicate LessThanOrEqual(d1: int64, d2: int64) {
    GreaterThanOrEqual(d2, d1)
  }

  /** The word of a small integer is a zero state exactly for 0, and positive exactly for n > 0. */
  lemma IntegerWordTests(n: int64)
    requires SmallInt(n)
    ensures IsZero(NewFromInt(n)) <==> n == 0
    ensures IsPositive(NewFromInt(n)) <==> n > 0
  {
    SmallIntWord(n);
    ExactlyZeroIff(NewFromInt(n));
    if n != 0 {
      assert Magnitude(n) % Two57 == Magnitude(n) != 0;
    }
  }

  /** On small integers every comparison agrees with the comparison of the integers. */
  lemma ComparisonsOnIntegers(a: int64, b: int64)
    requires SmallInt(a) && SmallInt(b) && SmallInt(a as int - b)
    ensures Compare(NewFromInt(a), NewFromInt(b)) == SignOf(a as int - b)
    ensures Equal(NewFromInt(a), NewFromInt(b)) <==> a == b
    ensures GreaterThan(NewFromInt(a), NewFromInt(b)) <==> a > b
    ensures GreaterThanOrEqual(NewFromInt(a), NewFromInt(b)) <==> a >= b
    ensures LessThan(NewFromInt(a), NewFromInt(b)) <==> a < b
    ensures LessThanOrEqual(NewFromInt(a), NewFromInt(b)) <==> a <= b
  {
    OrderedIntegers(a, b);
    OrderedIntegers(b, a);
  }

  /** Compare, Equal, GreaterThan and GreaterThanOrEqual of two small integers read the sign of a - b. */
  lemma OrderedIntegers(a: int64, b: int64)
    requires SmallInt(a) && SmallInt(b) && SmallInt(a as int - b)
    ensures Compare(NewFromInt(a), NewFromInt(b)) == SignOf(a as int - b)
    ensures Equal(NewFromInt(a), NewFromInt(b)) <==> a == b
    ensures GreaterThan(NewFromInt(a), NewFromInt(b)) <==> a > b
    ensures GreaterThanOrEqual(NewFromInt(a), NewFromInt(b)) <==> a >= b
  {
    var n: int64 := a as int - b;
    SubIntegers(a, b);
    IntegerWordTests(n);
    ComparedBySign(NewFromInt(a), NewFromInt(b), n as int);
  }

  /** The comparisons read the difference word: when it tests like x, they give the sign of x. */
  lemma ComparedBySign(d1: int64, d2: int64, x: int)
    requires IsZero(Sub(d1, d2)) <==> x == 0
    requires IsPositive(Sub(d1, d2)) <==> x > 0
    ensures Compare(d1, d2) == SignOf(x)
    ensures Equal(d1, d2) <==> x == 0
    ensures GreaterThan(d1, d2) <==> x > 0
    ensures GreaterThanOrEqual(d1, d2) <==> x >= 0
  {
  }

  /**
   * Comparing two ordinary words is exact whenever their difference is:
   * the result is the sign of d1 - d2 counted at the lower exponent.
   */
  lemma CompareExact(d1: int64, d2: int64)
    requires DecodeVme(d1).m != 0 && DecodeVme(d2).m != 0 && IsExact(Sub(d1, d2))
    ensures var t1, t2 := DecodeVme(d1), DecodeVme(d2);
            var lo := if t1.e <= t2.e then t1.e else t2.e;
            Compare(d1, d2) == SignOf(ScaledAt(t1, lo) - ScaledAt(t2, lo)) &&
            (Equal(d1, d2) <==> ScaledAt(t1, lo) == ScaledAt(t2, lo)) &&
            (GreaterThan(d1, d2) <==> ScaledAt(t1, lo) > ScaledAt(t2, lo))
  {
    var t1, t2 := DecodeVme(d1), DecodeVme(d2);
    var lo := if t1.e <= t2.e then t1.e else t2.e;
    NegOrdinary(d2);
    var n2 := DecodeVme(Neg64(d2));
    var r := VmeAdd(t1, n2);
    assert Sub(d1, d2) == VmeAsDecimal(r);
    DifferenceDenotes(t1, t2, n2);
    ExactWordSign(r, lo, ScaledAt(t1, lo) - ScaledAt(t2, lo));
  }

  /** Adding the negation of t2 to t1 without loss denotes their difference. */
  lemma DifferenceDenotes(t1: Vme, t2: Vme, n2: Vme)
    requires t1.m != 0 && t2.m != 0 && MinE <= t1.e <= MaxE && MinE <= t2.e <= MaxE
    requires n2 == t2.(v := t2.v.(sign := !t2.v.sign))
    ensures var r := VmeAdd(t1, n2);
            var lo := if t1.e <= t2.e then t1.e else t2.e;
            !r.v.loss ==> DenotesAt(r, lo, ScaledAt(t1, lo) - ScaledAt(t2, lo)) && r.e <= MaxInt64 - 20
  {
    var lo := if t1.e <= t2.e then t1.e else t2.e;
    assert ScaledAt(n2, lo) == -ScaledAt(t2, lo);
    AddExact(t1, n2);
  }

  /** Negating an ordinary word flips the sign of its tuple and nothing else. */
  lemma NegOrdinary(d: int64)
    requires DecodeVme(d).m != 0
    ensures DecodeVme(Neg64(d)) == DecodeVme(d).(v := DecodeVme(d).v.(sign := !DecodeVme(d).v.sign))
  {
    ExactlyZeroIff(d);
    assert d != Zero && d != Decimals.NearZero;
    NegFlips(d);
  }

  /** An exact result that denotes x encodes to a word that is a zero state iff x == 0, and positive iff x > 0. */
  lemma ExactWordSign(r: Vme, lo: int, x: int)
    requires !r.v.loss ==> DenotesAt(r, lo, x) && r.e <= MaxInt64 - 20
    requires IsExact(VmeAsDecimal(r))
    ensures IsZero(VmeAsDecimal(r)) <==> x == 0
    ensures IsPositive(VmeAsDecimal(r)) <==> x > 0
  {
    var s := DecodeVme(VmeAsDecimal(r));
    EncodedPredicates(r);
    DecodeEncode(r);
    assert !r.v.loss;
    if r.m == 0 {
      assert KindOf(s) == ExactZero;
    } else {
      EncodeKeepsValue(r);
      assert KindOf(s) == Ordinary;
      MulMonotone(1, r.m, Pow10(r.e - lo));
    }
  }

  /** Any two words can be divided at DivisionPrecision: their exponents are at most 31 apart. */
  lemma DivisionDefined(d1: int64, d2: int64)
    ensures DivRemDefined(DecodeVme(d1), DecodeVme(d2), DivisionPrecision)
  {
    var t1, t2 := DecodeVme(d1), DecodeVme(d2);
    if t1.m != 0 && t2.m != 0 {
      DivRemDefinedIff(t1, t2, DivisionPrecision);
    }
  }

  /**
   * The end of d1.Div(d2) (decimal.go:205-212): a non-zero remainder sets
   * the loss bit, and the quotient goes up by one when twice the remainder
   * reaches the divisor's mantissa m2.
   */
  function DivRounded(x: DivRem, m2: uint64): Vme {
    if x.r == 0 then x.q
    else Vme(x.q.v.(loss := true), if Shl1(x.r) >= m2 then Inc64(x.q.m) else x.q.m, x.q.e)
  }

  /** d1.Div(d2) (decimal.go:200-216); fixed selects the packing that never returns Null. */
  function DivWith(d1: int64, d2: int64, fixed: bool): int64 {
    DivisionDefined(d1, d2);
    var t2 := DecodeVme(d2);
    Packed(DivRounded(VmeDivRem(DecodeVme(d1), t2, DivisionPrecision), t2.m), fixed)
  }

  /** d1.Div(d2), corrected. */
  function Div(d1: int64, d2: int64): (r: int64)
    ensures r != Null
  {
    DivWith(d1, d2, true)
  }

  /**
   * When the remainder is below the divisor, the rounded quotient is the
   * nearest to the true one: n * m2 is within m2 / 2 of q * m2 + r.
   */
  lemma DivRoundsToNearest(x: DivRem, m2: uint64)
    requires 0 < m2 <= MaxInt && x.r < m2 && x.q.m < 0xffff_ffff_ffff_ffff
    ensures var n := DivRounded(x, m2).m;
            var exact := x.q.m * m2 + x.r;
            2 * (exact - n * m2) <= m2 && 2 * (n * m2 - exact) <= m2
  {
    if x.r != 0 && 2 * x.r >= m2 {
      assert DivRounded(x, m2).m == x.q.m + 1;
      assert (x.q.m + 1) * m2 == x.q.m * m2 + m2;
    }
  }

  /**
   * An exact quotient is the true one: when d1.Div(d2) has no loss, its
   * mantissa times m2 at exponent e + e2 is the dividend, and its sign is
   * the XOR of the operands' signs.
   */
  lemma DivExactValue(d1: int64, d2: int64)
    requires DecodeVme(d1).m != 0 && DecodeVme(d2).m != 0
    requires DecodeVme(d1).e - DecodeVme(d2).e + DivisionPrecision >= 0
    requires IsExact(Div(d1, d2))
    ensures var t1, t2, s := DecodeVme(d1), DecodeVme(d2), DecodeVme(Div(d1, d2));
            s.m != 0 && s.v.sign == (t1.v.sign != t2.v.sign) && IsQuotient(t1, t2, s)
  {
    var t1, t2 := DecodeVme(d1), DecodeVme(d2);
    DivisionDefined(d1, d2);
    var x := VmeDivRem(t1, t2, DivisionPrecision);
    DivisionParts(t1, t2);
    var r := DivRounded(x, t2.m);
    assert r.v.loss || r.m != 0;
    assert Div(d1, d2) == VmeAsDecimal(r);
    ExactEncoded(r);
    QuotientEncoded(t1, t2, x.q);
  }

  /** The main division at DivisionPrecision: without loss and remainder, the quotient is the true one. */
  lemma DivisionParts(t1: Vme, t2: Vme)
    requires t1.m != 0 && t2.m != 0 && MinE <= t1.e <= MaxE && MinE <= t2.e <= MaxE
    requires t1.e - t2.e + DivisionPrecision >= 0
    ensures DivRemDefined(t1, t2, DivisionPrecision)
    ensures var x := VmeDivRem(t1, t2, DivisionPrecision);
            x.q.v.sign == (t1.v.sign != t2.v.sign) && x.q.e <= 31 &&
            (x.r == 0 && !x.q.v.loss ==> x.q.m != 0 && IsQuotient(t1, t2, x.q))
  {
    DivBounds(t1, t2, DivisionPrecision);
    DivExact(t1, t2, DivisionPrecision);
    var x := VmeDivRem(t1, t2, DivisionPrecision);
    if x.r == 0 && !x.q.v.loss {
      QuotientNotZero(t1.m, t1.e, x.q.m, t2.m, x.re);
    }
  }

  /** A quotient keeps being one once it is encoded, whenever the word is exact. */
  lemma QuotientEncoded(t1: Vme, t2: Vme, q: Vme)
    requires q.m != 0 && q.e <= 31 && IsQuotient(t1, t2, q)
    ensures var s := DecodeVme(VmeAsDecimal(q));
            !s.v.loss ==> s.m != 0 && s.v.sign == q.v.sign && IsQuotient(t1, t2, s)
  {
    var s := DecodeVme(VmeAsDecimal(q));
    EncodeKeepsValue(q);
    if !s.v.loss {
      QuotientMoved(t1.m, t1.e, q.m, q.e, s.m, s.e, t2.m, t2.e);
    }
  }

  /** If m1 * 10^e1 is q * m2 * 10^(qe + e2) and n * 10^ne is q * 10^qe, then it is n * m2 * 10^(ne + e2). */
  lemma QuotientMoved(m1: nat, e1: int, q: nat, qe: int, n: nat, ne: int, m2: nat, e2: int)
    requires SameValue(m1, e1, q * m2, qe + e2) && SameValue(n, ne, q, qe)
    ensures SameValue(m1, e1, n * m2, ne + e2)
  {
    SameValueTimes(n, ne, q, qe, m2, e2);
    SameValueSymmetric(n * m2, ne + e2, q * m2, qe + e2);
    SameValueTransitive(m1, e1, q * m2, qe + e2, n * m2, ne + e2);
  }

  /** q times t2 is t1 in magnitude: m1 * 10^e1 == (q.m * m2) * 10^(q.e + e2). */
  predicate IsQuotient(t1: Vme, t2: Vme, q: Vme) {
    SameValue(t1.m, t1.e, q.m * t2.m, q.e + t2.e)
  }

  /** A non-zero dividend recombined from quotient and divisor has a non-zero quotient. */
  lemma QuotientNotZero(m1: nat, e1: int, q: nat, m2: nat, re: int)
    requires m1 != 0 && SameValue(m1, e1, q * m2, re)
    ensures q != 0
  {
    if q == 0 {
      if e1 > re {
        MulMonotone(1, m1, Pow10(e1 - re));
      }
    }
  }

  /** The loss bit survives encoding: a word that is exact comes from a tuple without loss. */
  lemma ExactEncoded(t: Vme)
    ensures IsExact(VmeAsDecimal(t)) ==> !t.v.loss
  {
    DecodeEncode(t);
  }

  /** d1.QuoRem(d2, precision) indexes tenPow out of range, and panics, unless this holds. */
  predicate QuoRemDefined(d1: int64, d2: int64, precision: int32) {
    DivRemDefined(DecodeVme(d1), DecodeVme(d2), precision)
  }

  /**
   * d1.QuoRem(d2, precision) (decimal.go:226-233). decimal.go:233 builds the
   * remainder with the quotient's v, so the remainder has the sign of the
   * quotient, and a quotient or remainder that is an exact zero of sign +
   * at exponent 0 comes out as Null. `fixed` selects the corrected pair:
   * the remainder has the sign of d1, as the doc comment of
   * decimal.go:218-224 promises, and neither part is ever Null, as
   * decimal.go:35 promises for every operation.
   */
  function QuoRemWith(d1: int64, d2: int64, precision: int32, fixed: bool): (qr: (int64, int64))
    requires QuoRemDefined(d1, d2, precision)
  {
    var t1 := DecodeVme(d1);
    var x := VmeDivRem(t1, DecodeVme(d2), precision);
    if fixed then (NonNullDecimal(x.q), NonNullDecimal(Vme(x.q.v.(sign := t1.v.sign), x.r, x.re)))
    else (VmeAsDecimal(x.q), VmeAsDecimal(Vme(x.q.v, x.r, x.re)))
  }

  /** d1.QuoRem(d2, precision), corrected. */
  function QuoRem(d1: int64, d2: int64, precision: int32): (qr: (int64, int64))
    requires QuoRemDefined(d1, d2, precision)
    ensures qr.0 != Null && qr.1 != Null
  {
    QuoRemWith(d1, d2, precision, true)
  }

  /** d1.Mod(d2) (decimal.go:236-240): the remainder of QuoRem at precision 0. */
  function Mod(d1: int64, d2: int64): int64
    requires QuoRemDefined(d1, d2, 0)
  {
    QuoRem(d1, d2, 0).1
  }

  function AbsInt(x: int): nat {
    if x < 0 then -x else x
  }

  /**
   * The promise of decimal.go:218-224 at precision 0 on integers:
   * a == b * q + r with |r| < |b| and r of the sign of a. It pins q and r
   * down to Go's truncated a / b and a % b.
   */
  predicate IsQuoRem(a: int, b: int, q: int, r: int) {
    a == Product(b, q) + r && AbsInt(r) < AbsInt(b) && (r == 0 || (r < 0 <==> a < 0))
  }

  /** The product x * y, written with Times (see ProductIsMul). */
  function Product(x: int, y: int): int {
    if y < 0 then -Times(-y, x) else Times(y, x)
  }

  lemma ProductIsMul(x: int, y: int)
    ensures Product(x, y) == x * y
  {
    TimesIsProduct(AbsInt(y), x);
  }

  /** A product of two positive numbers is at least each of them. */
  lemma TimesBounds(q: nat, b: nat)
    requires 1 <= q && 1 <= b
    ensures q <= Times(q, b) && b <= Times(q, b)
  {
    TimesIsProduct(q, b);
    MulMonotone(1, q, b);
    MulMonotone(1, b, q);
  }

  /** The magnitudes of a quotient and remainder are those of the magnitudes, and q has the sign of a / b. */
  lemma QuoRemMagnitudes(a: int, b: int, q: int, r: int)
    requires IsQuoRem(a, b, q, r)
    ensures AbsInt(a) == Times(AbsInt(q), AbsInt(b)) + AbsInt(r)
    ensures q != 0 ==> (q < 0 <==> (a < 0) != (b < 0))
    ensures AbsInt(q) <= AbsInt(a)
    ensures Sgn((a < 0) != (b < 0), AbsInt(q)) == q && Sgn(a < 0, AbsInt(r)) == r
  {
    var B, Q := AbsInt(b), AbsInt(q);
    var negative := (b < 0) != (q < 0);
    ProductIsMul(b, q);
    TimesIsProduct(Q, B);
    ProductSign(b, q);
    if q != 0 {
      MulMonotone(1, Q, B);
      if a >= 0 {
        assert !negative;
      } else {
        assert negative;
      }
    }
    MulMonotone(1, B, Q);
  }

  /** b * q is |b| * |q| with the XOR of the signs. */
  lemma ProductSign(b: int, q: int)
    ensures b * q == Sgn((b < 0) != (q < 0), AbsInt(b) * AbsInt(q))
  {
    if b < 0 && q < 0 {
      assert b * q == (-b) * (-q);
    } else if b < 0 {
      assert b * q == -((-b) * q);
    } else if q < 0 {
      assert b * q == -(b * (-q));
    }
  }

  /** Two exact integer tuples (exponent 0) divide as integers at precision 0. */
  lemma IntegerDivision(t1: Vme, t2: Vme, q: uint64, r: uint64)
    requires t1.m != 0 && t2.m != 0 && !t1.v.loss && !t2.v.loss && t1.e == 0 && t2.e == 0
    requires t1.m as int == Times(q as int, t2.m as int) + r && r < t2.m
    ensures DivRemDefined(t1, t2, 0)
    ensures VmeDivRem(t1, t2, 0) == DivRem(Vme(V(t1.v.sign != t2.v.sign, false, 0), q, 0), r, 0)
  {
    Div64Small(t1.m, t2.m, q, r);
    ExactDivision(t1, t2, 0);
  }

  /** Two exact tuples at the same exponent e, at precision 0: vmeDivRem is Div64 of the mantissas, at exponent 0 with the remainder at e. */
  lemma ExactDivision(t1: Vme, t2: Vme, e: int64)
    requires t1.m != 0 && t2.m != 0 && !t1.v.loss && !t2.v.loss && t1.e == e && t2.e == e
    requires -0x2000_0000_0000_0000 <= e <= 0x2000_0000_0000_0000
    ensures DivRemDefined(t1, t2, 0)
    ensures VmeDivRem(t1, t2, 0) == DivRem(Vme(V(t1.v.sign != t2.v.sign, false, 0), Div64(0, t1.m, t2.m).0, 0), Div64(0, t1.m, t2.m).1, e)
  {
    var v := V(t1.v.sign != t2.v.sign, false, 0);
    assert MainScale(t1, t2, 0) == 0;
    Unscaled(v, t1.m, t2.m);
    DivMain(t1, t2, 0, true);
  }

  /** With the scale 10^0 the dividend is m1 itself. */
  lemma Unscaled(v: V, m1: uint64, m2: uint64)
    requires 1 <= m2
    ensures ScaleDividend(v, m1, m2, 0) == Scaled(v, 0, m1, 0)
  {
    Mul64Product(m1, TenPow(0));
    DivModUnique(m1, 1, m1, 0);
  }

  /** A 64-bit dividend: Div64 is the quotient and remainder of the integers. */
  lemma Div64Small(a: uint64, b: uint64, q: uint64, r: uint64)
    requires 1 <= b && a as int == Times(q as int, b as int) + r && r < b
    ensures Div64(0, a, b) == (q, r)
  {
    TimesIsProduct(q as int, b as int);
    Div64Product(0, a, b);
    DivModUnique(a, b, Div64(0, a, b).0, Div64(0, a, b).1);
    DivModUnique(a, b, q, r);
  }

  /** The exact integer tuple of sign s and magnitude n is the word of that integer once Null is ruled out. */
  lemma SignedWord(s: bool, n: uint64)
    requires n <= MaxInt
    ensures NonNullDecimal(Vme(V(s, false, 0), n, 0)) == if n == 0 then Zero else Sgn(s, n)
  {
    if n != 0 {
      IntegerWord(Sgn(s, n));
    }
  }

  /**
   * On integers, QuoRem at precision 0 keeps the promise of its doc
   * comment: it returns the q and r with a == b * q + r, |r| < |b| and r
   * of the sign of a (Go's truncated a / b and a % b).
   */
  lemma QuoRemIntegers(a: int64, b: int64, q: int64, r: int64)
    requires SmallInt(a) && SmallInt(b) && b != 0 && IsQuoRem(a, b, q, r)
    ensures QuoRemDefined(NewFromInt(a), NewFromInt(b), 0)
    ensures QuoRem(NewFromInt(a), NewFromInt(b), 0) == (NewFromInt(q), NewFromInt(r))
  {
    QuoRemMagnitudes(a, b, q, r);
    SmallIntWord(a);
    SmallIntWord(b);
    SmallIntWord(q);
    SmallIntWord(r);
    if a == 0 {
      QuoRemOfZero(b);
    } else {
      QuoRemNonZero(a, b, q, r);
    }
  }

  /** On integers, Mod is Go's a % b: the r of a == b * q + r with |r| < |b| and r of the sign of a. */
  lemma ModIntegers(a: int64, b: int64, q: int64, r: int64)
    requires SmallInt(a) && SmallInt(b) && b != 0 && IsQuoRem(a, b, q, r)
    ensures QuoRemDefined(NewFromInt(a), NewFromInt(b), 0)
    ensures Mod(NewFromInt(a), NewFromInt(b)) == NewFromInt(r)
  {
    QuoRemIntegers(a, b, q, r);
  }

  /** Zero divided by a non-zero integer is Zero with the remainder Zero. */
  lemma QuoRemOfZero(b: int64)
    requires SmallInt(b) && b != 0
    ensures QuoRemDefined(Zero, b, 0)
    ensures QuoRem(Zero, b, 0) == (Zero, Zero)
  {
    DecodeZero();
    IntegerTuple(b, AbsInt(b) as uint64);
    DivOfZero(ZeroVme, DecodeVme(b), 0);
    SignedWord(true, 0);
  }

  lemma QuoRemNonZero(a: int64, b: int64, q: int64, r: int64)
    requires SmallInt(a) && SmallInt(b) && a != 0 && b != 0 && IsQuoRem(a, b, q, r)
    ensures QuoRemDefined(a, b, 0)
    ensures QuoRem(a, b, 0) == (if q == 0 then Zero else q, if r == 0 then Zero else r)
  {
    QuoRemMagnitudes(a, b, q, r);
    var mq, mr := AbsInt(q) as uint64, AbsInt(r) as uint64;
    DecodedDivision(a, b, mq, mr);
    QuoRemOfDecoded(a, b, (a < 0) != (b < 0), mq, mr);
    SignedWord((a < 0) != (b < 0), mq);
    SignedWord(a < 0, mr);
  }

  /** vmeDivRem divides the tuples of two integer words as integers. */
  lemma DecodedDivision(a: int64, b: int64, mq: uint64, mr: uint64)
    requires SmallInt(a) && SmallInt(b) && a != 0 && b != 0
    requires AbsInt(a) == Times(mq as int, AbsInt(b)) + mr && mr as int < AbsInt(b)
    ensures QuoRemDefined(a, b, 0)
    ensures VmeDivRem(DecodeVme(a), DecodeVme(b), 0) == DivRem(Vme(V((a < 0) != (b < 0), false, 0), mq, 0), mr, 0)
  {
    var ma, mb := AbsInt(a) as uint64, AbsInt(b) as uint64;
    IntegerTuple(a, ma);
    IntegerTuple(b, mb);
    IntegerDivision(DecodeVme(a), DecodeVme(b), mq, mr);
  }

  /** QuoRem packs the quotient and, with the dividend's sign, the remainder of vmeDivRem. */
  lemma QuoRemOfDecoded(d1: int64, d2: int64, s: bool, mq: uint64, mr: uint64)
    requires QuoRemDefined(d1, d2, 0)
    requires VmeDivRem(DecodeVme(d1), DecodeVme(d2), 0) == DivRem(Vme(V(s, false, 0), mq, 0), mr, 0)
    ensures QuoRem(d1, d2, 0) == (NonNullDecimal(Vme(V(s, false, 0), mq, 0)), NonNullDecimal(Vme(V(d1 < 0, false, 0), mr, 0)))
  {
    RemainderWord(d1, d2, DecodeVme(d1), DecodeVme(d2));
  }

  /**
   * As written, QuoRem on integers gives the quotient and the remainder
   * both the sign of a / b.
   */
  lemma WrittenQuoRemNonZero(a: int64, b: int64, q: int64, r: int64)
    requires SmallInt(a) && SmallInt(b) && a != 0 && b != 0 && IsQuoRem(a, b, q, r)
    ensures QuoRemDefined(a, b, 0)
    ensures QuoRemWith(a, b, 0, false) == (VmeAsDecimal(Vme(V((a < 0) != (b < 0), false, 0), AbsInt(q) as uint64, 0)),
                                           VmeAsDecimal(Vme(V((a < 0) != (b < 0), false, 0), AbsInt(r) as uint64, 0)))
  {
    QuoRemMagnitudes(a, b, q, r);
    var mq, mr := AbsInt(q) as uint64, AbsInt(r) as uint64;
    DecodedDivision(a, b, mq, mr);
    WrittenOfDecoded(a, b, (a < 0) != (b < 0), mq, mr);
  }

  /** An integer word decodes to its sign and magnitude at exponent 0. */
  lemma IntegerTuple(a: int64, ma: uint64)
    requires SmallInt(a) && a != 0 && ma as int == AbsInt(a)
    ensures DecodeVme(a) == Vme(V(a < 0, false, 0), ma, 0)
  {
    IntegerDecodes(a);
  }

  /** The remainder of QuoRem is the remainder of vmeDivRem with the sign of d1. */
  lemma RemainderWord(d1: int64, d2: int64, t1: Vme, t2: Vme)
    requires DecodeVme(d1) == t1 && DecodeVme(d2) == t2 && DivRemDefined(t1, t2, 0)
    ensures QuoRemDefined(d1, d2, 0)
    ensures var x := VmeDivRem(t1, t2, 0);
            QuoRem(d1, d2, 0).1 == NonNullDecimal(Vme(x.q.v.(sign := d1 < 0), x.r, x.re))
  {
  }

  /** As written, QuoRem packs both parts of vmeDivRem with the v of the quotient. */
  lemma WrittenOfDecoded(d1: int64, d2: int64, s: bool, mq: uint64, mr: uint64)
    requires QuoRemDefined(d1, d2, 0)
    requires VmeDivRem(DecodeVme(d1), DecodeVme(d2), 0) == DivRem(Vme(V(s, false, 0), mq, 0), mr, 0)
    ensures QuoRemWith(d1, d2, 0, false) == (VmeAsDecimal(Vme(V(s, false, 0), mq, 0)), VmeAsDecimal(Vme(V(s, false, 0), mr, 0)))
  {
  }

  /**
   * As written, 4.QuoRem(-3, 0) returns the remainder -1: decimal.go:233
   * gives the remainder the quotient's sign. The corrected QuoRem returns
   * 1, the sign of the dividend.
   */
  lemma RemainderTakesQuotientSign()
    ensures QuoRemDefined(4, -3, 0)
    ensures QuoRemWith(4, -3, 0, false) == (-1, -1)
    ensures QuoRem(4, -3, 0) == (-1, 1)
  {
    assert IsQuoRem(4, -3, -1, 1);
    QuoRemNonZero(4, -3, -1, 1);
    WrittenQuoRemNonZero(4, -3, -1, 1);
    SignedWord(true, 1);
    SignedWord(false, 1);
  }

  /**
   * As written, an exact remainder comes out as Null when the quotient is
   * positive: 4.QuoRem(2, 0) has the remainder Null. The corrected QuoRem
   * returns Zero.
   */
  lemma ExactRemainderIsNull(a: int64, b: int64, q: int64)
    requires 0 < a <= MaxInt && 0 < b && 0 < q && a as int == Times(q as int, b as int)
    ensures QuoRemDefined(a, b, 0)
    ensures QuoRemWith(a, b, 0, false) == (q, Null)
    ensures QuoRem(a, b, 0) == (q, Zero)
  {
    TimesBounds(q as int, b as int);
    QuoRemNonZero(a, b, q, 0);
    WrittenQuoRemNonZero(a, b, q, 0);
    SignedWord(false, q as uint64);
  }

  /**
   * As written, a positive quotient below one comes out as Null:
   * 1.QuoRem(3, 0) has the quotient Null. The corrected QuoRem returns Zero.
   */
  lemma ZeroQuotientIsNull(a: int64, b: int64)
    requires 0 < a < b <= MaxInt
    ensures QuoRemDefined(a, b, 0)
    ensures QuoRemWith(a, b, 0, false) == (Null, a)
    ensures QuoRem(a, b, 0) == (Zero, a)
  {
    QuoRemNonZero(a, b, 0, a);
    WrittenQuoRemNonZero(a, b, 0, a);
    SignedWord(false, a as uint64);
  }
}
