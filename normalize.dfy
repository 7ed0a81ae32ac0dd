/**
 * The normalizer of core.go:59-181: vmeNormalize, vmeNormalizeExponent and
 * veNormalizeMagic. Normalization keeps a tuple's value, or sets the loss
 * bit, and brings it to the canonical form of Vmes.Canonical: an integer
 * with exponent 0 when it fits, otherwise a mantissa without trailing zeros
 * and an exponent clamped into [minE, maxE].
 */
module CoreNormalize {
  import opened Bits
  import opened Vmes

  /** veNormalizeMagic (core.go:166-181): the tuples whose mantissa is 0. */
  function VeNormalizeMagic(v: V, e: int64, minE: int64, maxE: int64): (r: Vme)
    requires minE < 0 <= maxE
    ensures r.m == 0 && minE <= r.e <= maxE && r.v.unit == v.unit
    ensures !v.loss ==> r == Vme(v, 0, 0)
    ensures v.loss ==> r.v.loss && (e != 0 ==> r.v == v)
    ensures v.loss && e == 0 ==> r == Vme(v.(sign := true), 0, 0)
    ensures v.loss && minE <= e <= maxE ==> r.e == e
  {
    if !v.loss then Vme(v, 0, 0)
    else if e < minE then Vme(v, 0, minE)
    else if e > maxE then Vme(v, 0, maxE)
    else if e == 0 then Vme(v.(sign := true), 0, e)
    else Vme(v, 0, e)
  }

  /**
   * The integer shortcut of core.go:63-87: an exact tuple whose value is an
   * integer no larger than maxM is returned as that integer with exponent 0.
   */
  function IntegerShortcut(v: V, m: uint64, e: int64, maxM: uint64): (r: Option<uint64>)
    ensures r.Some? ==> !v.loss && r.value <= maxM && SameValue(r.value, 0, m, e)
    ensures r.Some? && m != 0 ==> r.value != 0
  {
    if v.loss then None
    else if e == 0 then (if m <= maxM then Some(m) else None)
    else if e > 0 then
      if e < TenPowLen as int then
        var hl := Mul64(m, TenPow(e as nat));
        Mul64Product(m, TenPow(e as nat));
        if hl.0 == 0 && hl.1 <= maxM then Some(hl.1) else None
      else None
    else if m % 2 == 0 then
      if e > -(TenPowLen as int) then
        var qr := Div64(0, m, TenPow(-(e as int) as nat));
        Div64Product(0, m, TenPow(-(e as int) as nat));
        if qr.1 == 0 && qr.0 <= maxM then Some(qr.0) else None
      else None
    else None
  }

  /**
   * The loop of core.go:89-108: divide by 10 while m exceeds maxM or still has
   * a trailing zero with room in the exponent. A non-zero remainder sets the
   * loss bit and rounds half to even; once m fits, such a division is skipped.
   */
  function NormalizeLoop(v: V, m: uint64, e: int64, maxM: uint64, maxE: int64): (r: Vme)
    ensures r.m <= maxM
    ensures r.m == 0 || r.m % 10 != 0 || r.e > maxE
    ensures r.v.sign == v.sign && r.v.unit == v.unit && (v.loss ==> r.v.loss)
    ensures r.m == 0 ==> m == 0 || r.v.loss
    ensures m != 0 && maxM >= 9 ==> r.m != 0
    decreases m
  {
    if m > maxM || (e <= maxE && m > 9 && m % 2 == 0) then
      var q, rem := m / 10, m % 10;
      if rem != 0 && m <= maxM then
        Vme(v, m, e)
      else
        var v' := if rem != 0 then v.(loss := true) else v;
        var q' := if rem > 5 || (rem == 5 && q % 2 == 1) then q + 1 else q;
        NormalizeLoop(v', q', Wrap64(e as int + 1), maxM, maxE)
    else
      Vme(v, m, e)
  }

  /**
   * vmeNormalizeExponent (core.go:114-164) with the overflow test that the
   * comment at core.go:149 describes: a mantissa that no longer fits after
   * scaling becomes infinity.
   */
  function VmeNormalizeExponent(v: V, m: uint64, e: int64, maxM: uint64, minE: int64, maxE: int64): (r: Vme)
    requires minE < 0 <= maxE
    ensures minE <= r.e <= maxE
    ensures m <= maxM ==> r.m <= maxM
    ensures r.v.sign == v.sign && r.v.unit == v.unit && (v.loss ==> r.v.loss)
    ensures r.m == 0 ==> m == 0 || r.v.loss
    ensures !r.v.loss ==> SameValue(r.m, r.e, m, e)
    ensures r.m == 0 && m != 0 ==> r.e == minE || r.e == maxE
  {
    var low := ClampBelow(v, m, e, minE);
    ScaleAbove(low.v, low.m, low.e, maxM, maxE, true)
  }

  /** The first half of vmeNormalizeExponent (core.go:115-137). */
  function ClampBelow(v: V, m: uint64, e: int64, minE: int64): (r: Vme)
    requires minE < 0
    ensures r.e == (if e < minE then minE else e)
    ensures e >= minE ==> r == Vme(v, m, e)
    ensures r.m <= m
    ensures r.v.sign == v.sign && r.v.unit == v.unit && (v.loss ==> r.v.loss)
    ensures r.m == 0 ==> m == 0 || r.v.loss
    ensures r.m == 0 && m != 0 ==> r.e == minE
    ensures !r.v.loss ==> SameValue(r.m, r.e, m, e)
  {
    if e < minE then
      if minE - e < TenPowLen as int then
        var p := TenPow((minE - e) as nat);
        var qr := Div64(0, m, p);
        Div64Product(0, m, p);
        var q, rem := qr.0, qr.1;
        QuotientFacts(m, p, q, rem);
        if rem != 0 then
          Vme(v.(loss := true), if Shl1(rem) >= p then q + 1 else q, minE)
        else
          assert m == p * q;
          Vme(v, q, minE)
      else Vme(v.(loss := true), 0, minE)
    else Vme(v, m, e)
  }

  /** The arithmetic facts ClampBelow needs about m / p and m % p. */
  lemma QuotientFacts(m: nat, p: nat, q: nat, rem: nat)
    requires p >= 10 && rem < p && m == q * p + rem
    ensures rem == 0 ==> m == p * q
    ensures q + 1 <= m || (q == 0 && m <= 1) || rem * 2 < p
    ensures q <= m
    ensures q == 0 && rem == 0 ==> m == 0
  {
    if q >= 1 {
      MulMonotone(2, p, q);
    }
  }

  /** The arithmetic facts ScaleAbove needs about the product h * 2^64 + l == m * p. */
  lemma ProductFacts(m: nat, p: nat, h: nat, l: nat)
    requires p >= 1 && h * 0x1_0000_0000_0000_0000 + l == m * p
    ensures h == 0 ==> l == m * p
    ensures h == 0 && l == 0 ==> m == 0
  {
    if m != 0 {
      MulMonotone(1, m, p);
    }
  }

  /**
   * The second half of vmeNormalizeExponent (core.go:139-161). `fixed`
   * selects the overflow test: the intended `h == 0 && l <= maxM`, or the
   * `h == 0 || l < maxM` of core.go:144.
   */
  function ScaleAbove(v: V, m: uint64, e: int64, maxM: uint64, maxE: int64, fixed: bool): (r: Vme)
    requires 0 <= maxE
    ensures r.e == (if e > maxE then maxE else e)
    ensures e <= maxE ==> r == Vme(v, m, e)
    ensures fixed && m <= maxM ==> r.m <= maxM
    ensures r.v.sign == v.sign && r.v.unit == v.unit && (v.loss ==> r.v.loss)
    ensures r.m == 0 ==> m == 0 || r.v.loss || !fixed
    ensures fixed && r.m == 0 && m != 0 ==> r.e == maxE
    ensures !r.v.loss ==> SameValue(r.m, r.e, m, e) || !fixed
  {
    if e > maxE then
      if e - maxE < TenPowLen as int then
        var p := TenPow((e - maxE) as nat);
        var hl := Mul64(m, p);
        Mul64Product(m, p);
        ProductFacts(m, p, hl.0, hl.1);
        if (fixed && hl.0 == 0 && hl.1 <= maxM) || (!fixed && (hl.0 == 0 || hl.1 < maxM)) then
          Vme(v, hl.1, maxE)
        else Vme(v.(loss := true), 0, maxE)
      else Vme(v.(loss := true), 0, maxE)
    else Vme(v, m, e)
  }

  /** vmeNormalizeExponent exactly as core.go:114-164 writes it. */
  function VmeNormalizeExponentAsWritten(v: V, m: uint64, e: int64, maxM: uint64, minE: int64, maxE: int64): (r: Vme)
    requires minE < 0 <= maxE
    ensures minE <= r.e <= maxE
    ensures r.v.sign == v.sign && r.v.unit == v.unit && (v.loss ==> r.v.loss)
  {
    var low := ClampBelow(v, m, e, minE);
    ScaleAbove(low.v, low.m, low.e, maxM, maxE, false)
  }

  /**
   * vmeNormalize (core.go:59-112). The exponent bounds of both callers,
   * -16 and 15, satisfy the precondition, under which no int64 subtraction
   * of the source overflows.
   */
  function VmeNormalize(t: Vme, maxM: uint64, minE: int64, maxE: int64): (r: Vme)
    requires minE < 0 <= maxE
    ensures t.m == 0 && !t.v.loss ==> r == Vme(t.v, 0, 0)
    ensures t.v.loss ==> r.v.loss
    ensures !t.v.loss && t.e == 0 && 1 <= t.m <= maxM ==> r == t
    ensures minE <= r.e <= maxE && r.m <= maxM
    ensures r.v.unit == t.v.unit && (t.m != 0 ==> r.v.sign == t.v.sign)
    ensures r.m == 0 ==> t.m == 0 || r.v.loss
    ensures 9 <= maxM && 0 < maxE && r.m == 0 && r.e == 0 && r.v.loss ==> r.v.sign
    ensures 9 <= maxM && t.m != 0 && r.m == 0 ==> r.e == minE || r.e == maxE
  {
    if t.m == 0 then VeNormalizeMagic(t.v, t.e, minE, maxE)
    else
      var s := IntegerShortcut(t.v, t.m, t.e, maxM);
      if s.Some? then Vme(t.v, s.value, 0)
      else
        var l := NormalizeLoop(t.v, t.m, t.e, maxM, maxE);
        VmeNormalizeExponent(l.v, l.m, l.e, maxM, minE, maxE)
  }

  /** vmeNormalize with the exponent step exactly as core.go:144 writes it. */
  function VmeNormalizeAsWritten(t: Vme, maxM: uint64, minE: int64, maxE: int64): (r: Vme)
    requires minE < 0 <= maxE
    ensures minE <= r.e <= maxE
    ensures t.v.loss ==> r.v.loss
  {
    if t.m == 0 then VeNormalizeMagic(t.v, t.e, minE, maxE)
    else
      var s := IntegerShortcut(t.v, t.m, t.e, maxM);
      if s.Some? then Vme(t.v, s.value, 0)
      else
        var l := NormalizeLoop(t.v, t.m, t.e, maxM, maxE);
        VmeNormalizeExponentAsWritten(l.v, l.m, l.e, maxM, minE, maxE)
  }

  /**
   * vmeNormalize as the source runs it, with the loop of core.go:89-108
   * updating v, m and e in place.
   */
  method Normalize(t: Vme, maxM: uint64, minE: int64, maxE: int64) returns (r: Vme)
    requires minE < 0 <= maxE
    ensures r == VmeNormalize(t, maxM, minE, maxE)
  {
    if t.m == 0 {
      return VeNormalizeMagic(t.v, t.e, minE, maxE);
    }
    var s := IntegerShortcut(t.v, t.m, t.e, maxM);
    if s.Some? {
      return Vme(t.v, s.value, 0);
    }
    var v: V, m: uint64, e: int64 := t.v, t.m, t.e;
    while m > maxM || (e <= maxE && m > 9 && m % 2 == 0)
      invariant NormalizeLoop(v, m, e, maxM, maxE) == NormalizeLoop(t.v, t.m, t.e, maxM, maxE)
      decreases m
    {
      var q, rem := m / 10, m % 10;
      if rem != 0 {
        if m <= maxM {
          break;
        }
        v := v.(loss := true);
        if rem > 5 || (rem == 5 && q % 2 == 1) {
          q := q + 1;
        }
      }
      m := q;
      e := Wrap64(e as int + 1);
    }
    r := VmeNormalizeExponent(v, m, e, maxM, minE, maxE);
  }

  /** The integer shortcut fires exactly for the values that are integers no larger than maxM. */
  lemma ShortcutIffFits(v: V, m: uint64, e: int64, maxM: uint64)
    requires !v.loss && m >= 1
    ensures IntegerShortcut(v, m, e, maxM).Some? <==> FitsInt(m, e, maxM)
  {
    if e > 0 && e < TenPowLen as int {
      var hl := Mul64(m, TenPow(e as nat));
      Mul64Product(m, TenPow(e as nat));
      ProductFacts(m, Pow10(e as nat), hl.0, hl.1);
      if hl.0 != 0 {
        MulMonotone(1, hl.0, 0x1_0000_0000_0000_0000);
      }
    } else if e >= TenPowLen as int {
      Pow10Above64(e as nat);
      MulMonotone(1, m, Pow10(e as nat));
    } else if e < 0 && m % 2 == 1 {
      OddNotMultipleOfPow10(m, -(e as int) as nat);
    } else if e < 0 && e > -(TenPowLen as int) {
      var qr := Div64(0, m, TenPow(-(e as int) as nat));
      Div64Product(0, m, TenPow(-(e as int) as nat));
      DivModUnique(m, Pow10(-(e as int) as nat), qr.0, qr.1);
    } else if e < 0 {
      Pow10Above64(-(e as int) as nat);
      DivModUnique(m, Pow10(-(e as int) as nat), 0, m);
    }
  }

  /** Every step of the loop that sets no loss bit keeps m * 10^e. */
  lemma {:induction false} NormalizeLoopExact(v: V, m: uint64, e: int64, maxM: uint64, maxE: int64)
    requires e as int + Digits(m) <= MaxInt64
    ensures var r := NormalizeLoop(v, m, e, maxM, maxE);
              !r.v.loss ==> SameValue(r.m, r.e, m, e) && e <= r.e <= e as int + Digits(m)
    decreases m
  {
    if (m > maxM || (e <= maxE && m > 9 && m % 2 == 0)) && m % 10 == 0 {
      var q := m / 10;
      LoopDropsZero(v, m, e, maxM, maxE);
      NormalizeLoopExact(v, q, e + 1, maxM, maxE);
      var r := NormalizeLoop(v, q, e + 1, maxM, maxE);
      if !r.v.loss {
        SameValueTenth(m, e as int);
        SameValueTransitive(r.m, r.e, q, e + 1, m, e);
      }
    } else {
      LoopStops(v, m, e, maxM, maxE);
    }
  }

  /** One turn of the loop on a mantissa with a trailing zero: m / 10, e + 1, and one digit less. */
  lemma LoopDropsZero(v: V, m: uint64, e: int64, maxM: uint64, maxE: int64)
    requires e as int + Digits(m) <= MaxInt64
    requires (m > maxM || (e <= maxE && m > 9 && m % 2 == 0)) && m % 10 == 0
    ensures m >= 10 && Digits(m / 10) == Digits(m) - 1 && e as int + 1 <= MaxInt64
    ensures NormalizeLoop(v, m, e, maxM, maxE) == NormalizeLoop(v, m / 10, e + 1, maxM, maxE)
  {
    assert m >= 10 && Digits(m / 10) == Digits(m) - 1;
    assert Wrap64(e as int + 1) == e + 1;
  }

  /** Without a trailing zero to drop, the loop stops at once or sets the loss bit. */
  lemma LoopStops(v: V, m: uint64, e: int64, maxM: uint64, maxE: int64)
    requires !((m > maxM || (e <= maxE && m > 9 && m % 2 == 0)) && m % 10 == 0)
    ensures var r := NormalizeLoop(v, m, e, maxM, maxE);
              r.v.loss || r == Vme(v, m, e)
  {
  }

  /**
   * Normalization never changes the value behind the loss bit's back: a
   * result without loss denotes the input's m * 10^e. The exponent bound
   * keeps the loop's e++ clear of int64 overflow.
   */
  lemma NormalizeExact(t: Vme, maxM: uint64, minE: int64, maxE: int64)
    requires minE < 0 <= maxE && t.e <= MaxInt64 - 20
    ensures var r := VmeNormalize(t, maxM, minE, maxE);
              !r.v.loss ==> SameValue(r.m, r.e, t.m, t.e)
  {
    if t.m != 0 && IntegerShortcut(t.v, t.m, t.e, maxM).None? {
      Pow10Limits();
      DigitsBound(t.m, 20);
      NormalizeLoopExact(t.v, t.m, t.e, maxM, maxE);
      var l := NormalizeLoop(t.v, t.m, t.e, maxM, maxE);
      var r := VmeNormalizeExponent(l.v, l.m, l.e, maxM, minE, maxE);
      if !r.v.loss {
        SameValueTransitive(r.m, r.e, l.m, l.e, t.m, t.e);
      }
    }
  }

  /**
   * An exact non-zero value normalizes, without loss, to its canonical form
   * (core.go:34-37): reused as an integer when it fits, otherwise with no
   * trailing zero unless the exponent is already maxE.
   */
  lemma NormalizeCanonical(t: Vme, maxM: uint64, minE: int64, maxE: int64)
    requires minE < 0 <= maxE && t.e <= MaxInt64 - 20 && t.m != 0 && !t.v.loss
    ensures var r := VmeNormalize(t, maxM, minE, maxE);
              !r.v.loss ==> Canonical(r.m, r.e, maxM, minE, maxE)
  {
    var r := VmeNormalize(t, maxM, minE, maxE);
    if IntegerShortcut(t.v, t.m, t.e, maxM).None? && !r.v.loss {
      NormalizeExact(t, maxM, minE, maxE);
      ShortcutIffFits(t.v, t.m, t.e, maxM);
      FitsIntByValue(r.m, r.e, t.m, t.e, maxM);
      var l := NormalizeLoop(t.v, t.m, t.e, maxM, maxE);
      if l.e < minE && minE - l.e < TenPowLen as int {
        var p := TenPow((minE - l.e) as nat);
        var qr := Div64(0, l.m, p);
        Div64Product(0, l.m, p);
        DivModUnique(l.m, p, qr.0, qr.1);
        NotMultipleOfTenPow(l.m, (minE - l.e) as nat);
      }
    }
  }

  /**
   * Two exact tuples of the same value and the same sign and unit normalize
   * to the same tuple, when no loss occurs.
   */
  lemma NormalizeUnique(t1: Vme, t2: Vme, maxM: uint64, minE: int64, maxE: int64)
    requires minE < 0 <= maxE && t1.e <= MaxInt64 - 20 && t2.e <= MaxInt64 - 20
    requires t1.m != 0 && t2.m != 0 && t1.v == t2.v && !t1.v.loss
    requires SameValue(t1.m, t1.e, t2.m, t2.e)
    ensures var r1, r2 := VmeNormalize(t1, maxM, minE, maxE), VmeNormalize(t2, maxM, minE, maxE);
              !r1.v.loss && !r2.v.loss ==> r1 == r2
  {
    var r1, r2 := VmeNormalize(t1, maxM, minE, maxE), VmeNormalize(t2, maxM, minE, maxE);
    if !r1.v.loss && !r2.v.loss {
      NormalizeExact(t1, maxM, minE, maxE);
      NormalizeExact(t2, maxM, minE, maxE);
      NormalizeCanonical(t1, maxM, minE, maxE);
      NormalizeCanonical(t2, maxM, minE, maxE);
      SameValueTransitive(r1.m, r1.e, t1.m, t1.e, t2.m, t2.e);
      SameValueSymmetric(r2.m, r2.e, t2.m, t2.e);
      SameValueTransitive(r1.m, r1.e, t2.m, t2.e, r2.m, r2.e);
      CanonicalUnique(r1.m, r1.e, r2.m, r2.e, maxM, minE, maxE);
    }
  }

  /**
   * A value that the bounds can hold exactly, as some m0 * 10^e0 with
   * 1 <= m0 <= maxM and minE <= e0 <= maxE, normalizes without a rounding
   * step: the sign and the loss bit stay as they were, the mantissa is not
   * 0 and the value is kept.
   */
  lemma NormalizeRepresentable(t: Vme, maxM: uint64, minE: int64, maxE: int64, m0: nat, e0: int)
    requires minE < 0 <= maxE && t.e <= MaxInt64 - 20 && t.m != 0
    requires 1 <= m0 <= maxM && minE as int <= e0 <= maxE as int && SameValue(t.m, t.e, m0, e0)
    ensures var r := VmeNormalize(t, maxM, minE, maxE);
              r.v == t.v && r.m != 0 && SameValue(r.m, r.e, t.m, t.e)
  {
    if IntegerShortcut(t.v, t.m, t.e, maxM).None? {
      Pow10Limits();
      DigitsBound(t.m, 20);
      LoopRepresentable(t.v, t.m, t.e, maxM, maxE, m0, e0);
      var l := NormalizeLoop(t.v, t.m, t.e, maxM, maxE);
      ClampRepresentable(l.v, l.m, l.e, minE, m0, e0);
      var low := ClampBelow(l.v, l.m, l.e, minE);
      ScaleRepresentable(low.v, low.m, low.e, maxM, maxE, m0, e0);
      var r := ScaleAbove(low.v, low.m, low.e, maxM, maxE, true);
      SameValueTransitive(r.m, r.e, low.m, low.e, m0, e0);
      SameValueSymmetric(t.m, t.e, m0, e0);
      SameValueTransitive(r.m, r.e, m0, e0, t.m, t.e);
    }
  }

  /**
   * The loop on such a value only drops trailing zeros: a mantissa above
   * maxM has a lower exponent than e0, hence a trailing zero, and one at
   * most maxM stops at its first non-zero remainder.
   */
  lemma {:induction false} LoopRepresentable(v: V, m: uint64, e: int64, maxM: uint64, maxE: int64, m0: nat, e0: int)
    requires m >= 1 && e as int + Digits(m) <= MaxInt64
    requires 1 <= m0 <= maxM && e0 <= maxE as int && SameValue(m, e, m0, e0)
    ensures var r := NormalizeLoop(v, m, e, maxM, maxE);
              r.v == v && r.m >= 1 && SameValue(r.m, r.e, m0, e0)
    decreases m
  {
    if m > maxM {
      AboveHasZero(m, e, m0, e0);
    }
    if (m > maxM || (e <= maxE && m > 9 && m % 2 == 0)) && m % 10 == 0 {
      LoopDropsZero(v, m, e, maxM, maxE);
      SameValueTenth(m, e as int);
      SameValueTransitive(m / 10, e + 1, m, e, m0, e0);
      LoopRepresentable(v, m / 10, e + 1, maxM, maxE, m0, e0);
    }
  }

  /** A mantissa above m0 for the same value has a lower exponent, so it ends in 0. */
  lemma AboveHasZero(m: nat, e: int, m0: nat, e0: int)
    requires m > m0 >= 1 && SameValue(m, e, m0, e0)
    ensures e < e0 && m % 10 == 0
  {
    if e >= e0 {
      MulMonotone(1, Pow10(e - e0), m);
    } else {
      TrailingZero(m0, e0 - e);
    }
  }

  /**
   * ClampBelow keeps such a value as it is: raising the exponent to minE
   * divides m by a power of ten it is a multiple of.
   */
  lemma ClampRepresentable(v: V, m: uint64, e: int64, minE: int64, m0: nat, e0: int)
    requires minE < 0 && m >= 1 && m0 >= 1 && minE as int <= e0 && SameValue(m, e, m0, e0)
    ensures var r := ClampBelow(v, m, e, minE);
              r.v == v && r.m >= 1 && SameValue(r.m, r.e, m0, e0)
  {
    if e < minE {
      var j := (minE - e) as nat;
      var c := ClampQuotient(m, m0, (e0 - e) as nat, j);
      var qr := Div64(0, m, TenPow(j));
      Div64Product(0, m, TenPow(j));
      DivModUnique(m, Pow10(j), qr.0, qr.1);
      DivModUnique(m, Pow10(j), c, 0);
    }
  }

  /** Below minE, m is 10^(minE - e) times the mantissa c of the value at minE. */
  lemma ClampQuotient(m: nat, m0: nat, k: nat, j: nat) returns (c: nat)
    requires m < 0x1_0000_0000_0000_0000 && m0 >= 1 && j <= k && m == m0 * Pow10(k)
    ensures j < TenPowLen && m == Pow10(j) * c && c == m0 * Pow10(k - j) && c >= 1
  {
    var pk, pj, pc := Pow10(k), Pow10(j), Pow10(k - j);
    MulMonotone(1, m0, pk);
    if k >= TenPowLen {
      Pow10Above64(k);
    }
    Pow10Add(k - j, j);
    c := m0 * pc;
    MulRegroup(m0, pc, pj);
    MulMonotone(1, m0, pc);
  }

  /** Multiplication regrouped. */
  lemma MulRegroup(a: nat, b: nat, c: nat)
    ensures a * (b * c) == c * (a * b)
  {
  }

  /**
   * ScaleAbove keeps such a value as it is: lowering the exponent to maxE
   * multiplies m into a mantissa no larger than m0.
   */
  lemma ScaleRepresentable(v: V, m: uint64, e: int64, maxM: uint64, maxE: int64, m0: nat, e0: int)
    requires 0 <= maxE && m >= 1 && 1 <= m0 <= maxM && e0 <= maxE as int && SameValue(m, e, m0, e0)
    ensures var r := ScaleAbove(v, m, e, maxM, maxE, true);
              r.v == v && r.m >= 1 && SameValue(r.m, r.e, m, e)
  {
    if e > maxE {
      var j := (e - maxE) as nat;
      ScaleProduct(m, m0, (e - e0) as nat, j);
      Mul64Product(m, TenPow(j));
    }
  }

  /** Above maxE, m times 10^(e - maxE) is no larger than m0 and stays below 2^64. */
  lemma ScaleProduct(m: nat, m0: nat, k: nat, j: nat)
    requires m >= 1 && m0 < 0x1_0000_0000_0000_0000 && j <= k && m0 == m * Pow10(k)
    ensures j < TenPowLen && 1 <= m * Pow10(j) <= m0
  {
    Pow10Monotone(j, k);
    MulMonotone(Pow10(j), Pow10(k), m);
    MulMonotone(1, m, Pow10(j));
    if j >= TenPowLen {
      Pow10Above64(j);
    }
  }

  /**
   * core.go:144 keeps a scaled mantissa above maxM: 144115188075855871e16
   * normalized with the decimal bounds yields mantissa 1441151880758558710,
   * more than the 57 bits a decimal holds, where the corrected test yields
   * positive infinity.
   */
  lemma NormalizeExponentOverflow()
    ensures VmeNormalizeAsWritten(Vme(NoBits, 144115188075855871, 16), 0x1ff_ffff_ffff_ffff, -16, 15)
              == Vme(NoBits, 1441151880758558710, 15)
    ensures VmeNormalize(Vme(NoBits, 144115188075855871, 16), 0x1ff_ffff_ffff_ffff, -16, 15)
              == Vme(LossBit, 0, 15)
  {
    Pow10Limits();
    var hl := Mul64(144115188075855871, TenPow(16));
    Mul64Product(144115188075855871, TenPow(16));
    DivModUnique(144115188075855871 * 10_000_000_000_000_000, 0x1_0000_0000_0000_0000, hl.0, hl.1);
    assert hl.0 != 0;
    var hl1 := Mul64(144115188075855871, 10);
    Mul64Product(144115188075855871, 10);
    DivModUnique(1441151880758558710, 0x1_0000_0000_0000_0000, hl1.0, hl1.1);
  }
}
