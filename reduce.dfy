/**
 * vmhmeReduce (core.go:183-230): bring a 128-bit mantissa (mh, m) back to
 * 64 bits by dividing by a power of ten and raising the exponent, setting
 * the loss bit when the division is inexact.
 */
module CoreReduce {
  import opened Bits
  import opened Vmes
  import opened TenPowSearch

  /** 2^64 / 10 rounded to the nearest integer. */
  const RoundedTwo64Tenth: uint64 := 1844674407370955162

  /**
   * vmhmeReduce. With mh != 0 and mh < 10^19 the quotient by 10^i, i the
   * first index with mh < 10^i, is rounded to nearest (core.go:185-199);
   * otherwise mh is reduced in two steps by 10 and 10^19 (core.go:203-227).
   * `fixed` selects what happens when rounding up the quotient 2^64 - 1:
   * core.go:194 lets `q++` wrap to 0, the corrected version divides once
   * more by ten instead.
   */
  function VmhmeReduceWith(v: V, mh: uint64, m: uint64, e: int64, fixed: bool): (r: Vme)
    ensures mh == 0 ==> r == Vme(v, m, e)
    ensures r.v.sign == v.sign && r.v.unit == v.unit && (v.loss ==> r.v.loss)
  {
    Pow10Limits();
    if mh == 0 then Vme(v, m, e)
    else if mh < 10_000_000_000_000_000_000 then ReduceBelow(v, mh, m, e, fixed)
    else ReduceAbove(v, mh, m, e)
  }

  /** The first step of vmhmeReduce (core.go:184-200), for 1 <= mh < 10^19. */
  function ReduceBelow(v: V, mh: uint64, m: uint64, e: int64, fixed: bool): (r: Vme)
    requires 1 <= mh < 10_000_000_000_000_000_000
    ensures r.v.sign == v.sign && r.v.unit == v.unit && (v.loss ==> r.v.loss)
  {
    DigitsOfWord(mh);
    var i := Digits(mh);
    var p := TenPow(i);
    var qr := Div64(mh, m, p);
    RoundQuotient(v, qr.0, qr.1, p, e, i, fixed)
  }

  /**
   * The rounding of core.go:188-198: quotient q and remainder rem of a
   * division by p = 10^i, rounded to nearest with ties up, at exponent e + i.
   */
  function RoundQuotient(v: V, q: uint64, rem: uint64, p: uint64, e: int64, i: nat, fixed: bool): (r: Vme)
    requires rem < p
    ensures r.v.sign == v.sign && r.v.unit == v.unit && (v.loss ==> r.v.loss)
    ensures r.v.loss <==> v.loss || rem != 0
  {
    var v1 := if rem != 0 then v.(loss := true) else v;
    if Shl1(rem) >= p then
      if q == 0x1_0000_0000_0000_0000 - 1 then
        if fixed then Vme(v1, RoundedTwo64Tenth, Wrap64(e as int + i + 1))
        else Vme(v1, 0, Wrap64(e as int + i))
      else Vme(v1, q + 1, Wrap64(e as int + i))
    else Vme(v1, q, Wrap64(e as int + i))
  }

  /** The second step of vmhmeReduce (core.go:203-227), for mh >= 10^19. */
  function ReduceAbove(v: V, mh: uint64, m: uint64, e: int64): (r: Vme)
    requires mh >= 10_000_000_000_000_000_000
    ensures r.v.sign == v.sign && r.v.unit == v.unit && (v.loss ==> r.v.loss)
  {
    Pow10Limits();
    var hq := Div64(0, mh, 10);
    Div64Product(0, mh, 10);
    var mq := Div64(hq.1, m, 10);
    var v1 := if mq.1 != 0 then v.(loss := true) else v;
    var qm := if mq.1 >= 5 then Inc64(mq.0) else mq.0;
    var qr := Div64(hq.0, qm, 10_000_000_000_000_000_000);
    var v2 := if qr.1 != 0 then v1.(loss := true) else v1;
    Vme(v2, qr.0, Wrap64(e as int + 20))
  }

  /** vmhmeReduce with the rounding overflow corrected; the rest of the model uses this one. */
  function VmhmeReduce(v: V, mh: uint64, m: uint64, e: int64): (r: Vme)
    ensures mh == 0 ==> r == Vme(v, m, e)
    ensures mh != 0 ==> r.m != 0
    ensures r.v.sign == v.sign && r.v.unit == v.unit && (v.loss ==> r.v.loss)
  {
    ReduceNonZero(v, mh, m, e);
    VmhmeReduceWith(v, mh, m, e, true)
  }

  lemma ReduceNonZero(v: V, mh: uint64, m: uint64, e: int64)
    ensures mh != 0 ==> VmhmeReduceWith(v, mh, m, e, true).m != 0
  {
    if mh != 0 && mh < 10_000_000_000_000_000_000 {
      DigitsOfWord(mh);
      var p := TenPow(Digits(mh));
      var qr := Div64(mh, m, p);
      Div64Product(mh, m, p);
      QuotientPositive(mh, m, p, qr.0, qr.1);
      assert ReduceBelow(v, mh, m, e, true).m != 0;
    } else if mh != 0 {
      var hq := Div64(0, mh, 10);
      Div64Product(0, mh, 10);
      var mq := Div64(hq.1, m, 10);
      var qm := if mq.1 >= 5 then Inc64(mq.0) else mq.0;
      var qr := Div64(hq.0, qm, 10_000_000_000_000_000_000);
      Div64Product(hq.0, qm, 10_000_000_000_000_000_000);
      QuotientPositive(hq.0, qm, 10_000_000_000_000_000_000, qr.0, qr.1);
      assert ReduceAbove(v, mh, m, e).m != 0;
    }
  }

  /** vmhmeReduce raises the exponent by at most 20, whatever the loss. */
  lemma ReduceRaises(v: V, mh: uint64, m: uint64, e: int64)
    requires e as int + 20 <= MaxInt64
    ensures var r := VmhmeReduce(v, mh, m, e); e <= r.e <= e as int + 20
  {
    if mh != 0 && mh < 10_000_000_000_000_000_000 {
      DigitsOfWord(mh);
    }
  }

  /** A 128-bit number with a high word of at least p / 2^64 + 1 has a positive quotient by p. */
  lemma QuotientPositive(h: nat, l: nat, p: nat, q: nat, rem: nat)
    requires 1 <= p <= 10_000_000_000_000_000_000 && h >= 1 && rem < p && q * p + rem == h * 0x1_0000_0000_0000_0000 + l
    ensures q >= 1
  {
    Pow10Limits();
    MulMonotone(1, h, 0x1_0000_0000_0000_0000);
  }

  /**
   * A result without loss is exact: (mh, m) == r.m * 10^(r.e - e), and the
   * exponent grew by at most 20.
   */
  lemma ReduceExact(v: V, mh: uint64, m: uint64, e: int64)
    requires e as int + 20 <= MaxInt64
    ensures var r := VmhmeReduce(v, mh, m, e);
              !r.v.loss ==> e <= r.e <= e as int + 20 && r.m * Pow10(r.e - e) == mh * 0x1_0000_0000_0000_0000 + m
  {
    if mh != 0 && mh < 10_000_000_000_000_000_000 {
      ReduceBelowExact(v, mh, m, e);
    } else if mh != 0 {
      ReduceAboveExact(v, mh, m, e);
    }
  }

  lemma ReduceBelowExact(v: V, mh: uint64, m: uint64, e: int64)
    requires 1 <= mh < 10_000_000_000_000_000_000 && e as int + 20 <= MaxInt64
    ensures var r := ReduceBelow(v, mh, m, e, true);
              !r.v.loss ==> e <= r.e <= e as int + 20 && r.m * Pow10(r.e - e) == mh * 0x1_0000_0000_0000_0000 + m
  {
    DigitsOfWord(mh);
    var i := Digits(mh);
    var qr := Div64(mh, m, TenPow(i));
    Div64Product(mh, m, TenPow(i));
    assert Wrap64(e as int + i) == e as int + i;
  }

  lemma ReduceAboveExact(v: V, mh: uint64, m: uint64, e: int64)
    requires mh >= 10_000_000_000_000_000_000 && e as int + 20 <= MaxInt64
    ensures var r := ReduceAbove(v, mh, m, e);
              !r.v.loss ==> e <= r.e <= e as int + 20 && r.m * Pow10(r.e - e) == mh * 0x1_0000_0000_0000_0000 + m
  {
    Pow10At19();
    var hq := Div64(0, mh, 10);
    Div64Product(0, mh, 10);
    var mq := Div64(hq.1, m, 10);
    Div64Product(hq.1, m, 10);
    var qr := Div64(hq.0, mq.0, 10_000_000_000_000_000_000);
    Div64Product(hq.0, mq.0, 10_000_000_000_000_000_000);
    if mq.1 == 0 && qr.1 == 0 {
      TwoStepExact(mh, m, hq.0, hq.1, mq.0, qr.0);
    }
    assert Wrap64(e as int + 20) == e as int + 20;
  }

  lemma TwoStepExact(mh: nat, m: nat, qh: nat, rh: nat, qm: nat, q: nat)
    requires mh == qh * 10 + rh && rh * 0x1_0000_0000_0000_0000 + m == qm * 10 && qh * 0x1_0000_0000_0000_0000 + qm == q * Pow10(19)
    ensures q * Pow10(20) == mh * 0x1_0000_0000_0000_0000 + m
  {
    Pow10Limits();
  }

  /** m * 10^k is within half of 10^k of n: m is n / 10^k rounded to nearest. */
  predicate NearestAt(m: nat, k: int, n: int) {
    k >= 0 && -(Pow10(k) as int) <= 2 * (Times(m, Pow10(k)) - n) <= Pow10(k)
  }

  /**
   * Below 10^18 the reduction rounds to the nearest: the result differs from
   * (mh, m) / 10^(r.e - e) by at most half a unit.
   */
  lemma ReduceRoundsToNearest(v: V, mh: uint64, m: uint64, e: int64)
    requires 1 <= mh < 1_000_000_000_000_000_000 && e as int + 20 <= MaxInt64
    ensures var r := VmhmeReduce(v, mh, m, e);
              e < r.e <= e as int + 20 && NearestAt(r.m, r.e - e, mh * 0x1_0000_0000_0000_0000 + m)
  {
    assert VmhmeReduce(v, mh, m, e) == ReduceBelow(v, mh, m, e, true);
    ReduceBelowNearest(v, mh, m, e);
  }

  lemma ReduceBelowNearest(v: V, mh: uint64, m: uint64, e: int64)
    requires 1 <= mh < 1_000_000_000_000_000_000 && e as int + 20 <= MaxInt64
    ensures var r := ReduceBelow(v, mh, m, e, true);
              e < r.e <= e as int + 20 && NearestAt(r.m, r.e - e, mh * 0x1_0000_0000_0000_0000 + m)
  {
    DigitsBelow18(mh);
    var i := Digits(mh);
    var p := TenPow(i);
    var qr := Div64(mh, m, p);
    RoundQuotientNearest(v, mh * 0x1_0000_0000_0000_0000 + m, qr.0, qr.1, p, e, i);
  }

  lemma RoundQuotientNearest(v: V, n: int, q: uint64, rem: uint64, p: uint64, e: int64, i: nat)
    requires rem < p && p == Pow10(i) && n == Times(q, p) + rem
    requires 1 <= i <= 18 && e as int + 20 <= MaxInt64
    ensures var r := RoundQuotient(v, q, rem, p, e, i, true);
              e < r.e <= e as int + 20 && NearestAt(r.m, r.e - e, n)
  {
    TimesIsProduct(q, p);
    Pow10AtMost18(i);
    NearestQuotient(n, p, q, rem);
    assert Shl1(rem) == 2 * rem;
    assert Wrap64(e as int + i) == e as int + i;
    assert Wrap64(e as int + i + 1) == e as int + i + 1;
    var r := RoundQuotient(v, q, rem, p, e, i, true);
    if 2 * rem >= p && q == 0x1_0000_0000_0000_0000 - 1 {
      assert r.m == RoundedTwo64Tenth && r.e - e == i + 1;
      assert Pow10(i + 1) == 10 * (p as int);
      OverflowRounding(n, p, rem);
      NearestAtFrom(r.m, i + 1, n, 10 * (p as int));
    } else if 2 * rem >= p {
      assert r.m == q + 1 && r.e - e == i;
      NearestAtFrom(r.m, i, n, p);
    } else {
      assert r.m == q && r.e - e == i;
      NearestAtFrom(r.m, i, n, p);
    }
  }

  lemma NearestAtFrom(m: nat, k: nat, n: int, d: int)
    requires d == Pow10(k) && -d <= 2 * (m * d - n) <= d
    ensures NearestAt(m, k, n)
  {
    TimesIsProduct(m, d);
  }

  /** The quotient, rounded up when twice the remainder reaches p, is within half a unit. */
  lemma NearestQuotient(n: int, p: int, q: int, rem: int)
    requires n == q * p + rem && 0 <= rem < p
    ensures 2 * rem < p ==> -p <= 2 * (q * p - n) <= p
    ensures 2 * rem >= p ==> -p <= 2 * ((q + 1) * p - n) <= p
  {
  }

  lemma OverflowRounding(n: int, p: int, rem: int)
    requires n == (0x1_0000_0000_0000_0000 - 1) * p + rem && 0 <= rem < p && 2 * rem >= p
    ensures -(10 * p) <= 2 * (RoundedTwo64Tenth * (10 * p) - n) <= 10 * p
  {
  }

  /**
   * core.go:194 as written: the product 144115188075844613 * 12800000000001,
   * whose magnitude fits any Decimal, reduces to mantissa 0 with the loss
   * bit, i.e. a NaN, because rounding 2^64 - 1 up wraps; the corrected
   * reduction gives the rounded mantissa 1844674407370955162 at exponent 12.
   */
  lemma ReduceRoundingOverflow()
    ensures Mul64(144115188075844613, 12800000000001) == (99999999999, 18446744061785396229)
    ensures VmhmeReduceWith(NoBits, 99999999999, 18446744061785396229, 0, false) == Vme(LossBit, 0, 11)
    ensures VmhmeReduce(NoBits, 99999999999, 18446744061785396229, 0) == Vme(LossBit, RoundedTwo64Tenth, 12)
  {
    Pow10Limits();
    var hl := Mul64(144115188075844613, 12800000000001);
    Mul64Product(144115188075844613, 12800000000001);
    DivModUnique(144115188075844613 * 12800000000001, 0x1_0000_0000_0000_0000, hl.0, hl.1);
    DigitsUnique(99999999999, 11);
    var qr := Div64(99999999999, 18446744061785396229, TenPow(11));
    Div64Product(99999999999, 18446744061785396229, TenPow(11));
    DivModUnique(99999999999 * 0x1_0000_0000_0000_0000 + 18446744061785396229, 100_000_000_000, qr.0, qr.1);
    assert qr == (18446744073709551615, 88075844613);
  }

  /** vmhmeReduce as the source runs it, with the tenPow scan of core.go:185-199. */
  method Reduce(v: V, mh: uint64, m: uint64, e: int64) returns (r: Vme)
    ensures r == VmhmeReduce(v, mh, m, e)
  {
    if mh == 0 {
      return Vme(v, m, e);
    }
    var found, i := ScanTenPow(mh);
    if found {
      r := RoundDivided(v, mh, m, e, i);
    } else {
      r := ReduceTwoSteps(v, mh, m, e);
    }
  }

  /** core.go:186-198: divide by 10^i, i = Digits(mh), and round to nearest. */
  method RoundDivided(v: V, mh: uint64, m: uint64, e: int64, i: nat) returns (r: Vme)
    requires 1 <= mh < 10_000_000_000_000_000_000 && i == Digits(mh)
    ensures r == ReduceBelow(v, mh, m, e, true)
  {
    DigitsOfWord(mh);
    var p := TenPow(i);
    var q, rem := Div64(mh, m, p).0, Div64(mh, m, p).1;
    var v1 := v;
    if rem != 0 {
      v1 := v1.(loss := true);
    }
    if Shl1(rem) >= p {
      if q == 0x1_0000_0000_0000_0000 - 1 {
        return Vme(v1, RoundedTwo64Tenth, Wrap64(e as int + i + 1));
      }
      q := q + 1;
    }
    return Vme(v1, q, Wrap64(e as int + i));
  }

  /** core.go:203-227: divide by ten twice-over 128 bits, rounding half up, then by 10^19. */
  method ReduceTwoSteps(v: V, mh: uint64, m: uint64, e: int64) returns (r: Vme)
    requires mh >= 10_000_000_000_000_000_000
    ensures r == ReduceAbove(v, mh, m, e)
  {
    var qh, rh := Div64(0, mh, 10).0, Div64(0, mh, 10).1;
    Div64Product(0, mh, 10);
    var qm, rm := Div64(rh, m, 10).0, Div64(rh, m, 10).1;
    var v1 := v;
    if rm != 0 {
      v1 := v1.(loss := true);
      if rm >= 5 {
        qm := Inc64(qm);
      }
    }
    var q, rem := Div64(qh, qm, 10_000_000_000_000_000_000).0, Div64(qh, qm, 10_000_000_000_000_000_000).1;
    if rem != 0 {
      v1 := v1.(loss := true);
    }
    r := Vme(v1, q, Wrap64(e as int + 20));
  }
}
