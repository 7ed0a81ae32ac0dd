/**
 * Rounding of a tuple to a number of decimal places (core.go:927-1089):
 * vmeRound, vmeRoundBank, vmeRoundCeil and vmeRoundFloor share one shape
 * and differ only in when the quotient by 10^-(e + places) is incremented,
 * so the four are one function with a Mode.
 */
module CoreRound {
  import opened Bits
  import opened Vmes

  /**
   * vmeRound (ties toward +infinity: the magnitude of a positive value is
   * raised on a tie, that of a negative value is not), vmeRoundBank (ties to
   * the even quotient), vmeRoundCeil and vmeRoundFloor.
   */
  datatype Mode = HalfUp | HalfEven | Ceiling | Floor

  /**
   * Go indexes tenPow[-i] with i == e + places wrapped to int64; when i is
   * MinInt64, -i wraps to MinInt64 as well and the index panics.
   */
  predicate RoundDefined(t: Vme, places: int32) {
    t.m == 0 || Wrap64(t.e as int + places as int) != MinInt64
  }

  /** Whether the quotient q (remainder r of the division by p) is incremented. */
  predicate RoundsUp(mode: Mode, negative: bool, q: uint64, r: uint64, p: uint64) {
    match mode
    case HalfUp => Shl1(r) > p || (Shl1(r) == p && !negative)
    case HalfEven => Shl1(r) > p || (Shl1(r) == p && q % 2 == 1)
    case Ceiling => r > 0 && !negative
    case Floor => r > 0 && negative
  }

  /**
   * The result for a value smaller than half a unit of the last place kept:
   * Zero, except that the ceiling of a positive value is one unit and the
   * floor of a negative value is minus one unit.
   */
  function BelowHalfUnit(v: V, places: int32, mode: Mode): (r: Vme)
    ensures r.m <= 1 && !r.v.loss
    ensures r.m == 1 <==> (mode == Ceiling && !v.sign) || (mode == Floor && v.sign)
  {
    if mode == Ceiling && !v.sign then Vme(NoBits, 1, -(places as int))
    else if mode == Floor && v.sign then Vme(SignBit, 1, -(places as int))
    else ZeroVme
  }

  /**
   * The four rounding functions. With fixed == false the definition is the
   * source's; with fixed == true it corrects two slips:
   *  - a value more than 19 places below the kept precision is always
   *    rounded to Zero (core.go:1035-1037, 1082-1084), where the ceiling of a positive
   *    value and the floor of a negative value are one unit;
   *  - vmeRoundBank leaves the tuple (0, 0, 0), the Null decimal, when a
   *    positive tie rounds down to zero at places 0; vmeRoundFloor guards
   *    the same case (core.go:1078-1080) and the fix extends the guard.
   */
  function VmeRoundWith(t: Vme, places: int32, mode: Mode, fixed: bool): (r: Vme)
    requires RoundDefined(t, places)
  {
    if t.m == 0 then
      if t.e == 0 || t.e == MinInt64 then ZeroVme else t
    else
      var v := t.v.(loss := false);
      var i := Wrap64(t.e as int + places as int);
      if i >= 0 then Vme(v, t.m, t.e)
      else if -i >= TenPowLen as int then
        if fixed then BelowHalfUnit(v, places, mode) else ZeroVme
      else
        var p := TenPow(-i);
        if Shl1(t.m) < p then BelowHalfUnit(v, places, mode)
        else
          var qr := Div64(0, t.m, p);
          var m := if RoundsUp(mode, v.sign, qr.0, qr.1, p) then Inc64(qr.0) else qr.0;
          var guarded := mode == Floor || (fixed && mode == HalfEven);
          if guarded && m == 0 && places == 0 then Vme(SignBit, 0, 0)
          else Vme(v, m, -(places as int))
  }

  function VmeRound(t: Vme, places: int32): (r: Vme)
    requires RoundDefined(t, places)
  {
    VmeRoundWith(t, places, HalfUp, true)
  }

  function VmeRoundBank(t: Vme, places: int32): (r: Vme)
    requires RoundDefined(t, places)
  {
    VmeRoundWith(t, places, HalfEven, true)
  }

  function VmeRoundCeil(t: Vme, places: int32): (r: Vme)
    requires RoundDefined(t, places)
  {
    VmeRoundWith(t, places, Ceiling, true)
  }

  function VmeRoundFloor(t: Vme, places: int32): (r: Vme)
    requires RoundDefined(t, places)
  {
    VmeRoundWith(t, places, Floor, true)
  }

  /**
   * The rounding relation between a signed mantissa x (in units of 10^e)
   * and the signed result y (in units of p * 10^e): y * p is the multiple of
   * p nearest to x, ties upward or to an even y, or the smallest multiple
   * not below x, or the largest not above it.
   */
  predicate RoundedBy(mode: Mode, x: int, y: int, p: int) {
    var yp := y * p;
    match mode
    case HalfUp => 2 * x - p < 2 * yp <= 2 * x + p
    case HalfEven =>
      2 * x - p <= 2 * yp <= 2 * x + p &&
      (2 * yp == 2 * x - p || 2 * yp == 2 * x + p ==> y % 2 == 0)
    case Ceiling => x <= yp < x + p
    case Floor => x - p < yp <= x
  }

  /** The signed mantissa of a tuple. */
  function Signed(t: Vme): int {
    Sgn(t.v.sign, t.m)
  }

  /** Where rounding is needed: e + places < 0, with p == 10^-(e + places). */
  predicate RoundsAt(t: Vme, places: int32, r: Vme, mode: Mode) {
    t.e as int + places as int < 0 &&
    !r.v.loss && (r.m == 0 || r.e == -(places as int)) &&
    RoundedBy(mode, Signed(t), Signed(r), Pow10(-(t.e as int + places as int)))
  }

  /** A value already within the precision only loses its loss bit. */
  predicate KeptAt(t: Vme, places: int32, r: Vme) {
    t.e as int + places as int >= 0 && r == Vme(t.v.(loss := false), t.m, t.e)
  }

  lemma RoundedByTail(mode: Mode, m: nat, p: nat, neg: bool, r: Vme)
    requires 0 < 2 * m < p && r.m <= 1
    requires r.m == 1 <==> (mode == Ceiling && !neg) || (mode == Floor && neg)
    requires r.m == 1 ==> r.v.sign == neg
    ensures RoundedBy(mode, Sgn(neg, m), Signed(r), p)
  {
  }

  lemma SgnTimes(neg: bool, y: int, p: int)
    ensures Sgn(neg, y) * p == Sgn(neg, y * p)
  {
  }

  lemma TimesZero(q: int, p: int)
    ensures q == 0 ==> q * p == 0
  {
  }

  lemma SuccTimes(q: int, p: int)
    ensures (q + 1) * p == q * p + p
  {
  }

  /** The quotient step: m == q * p + rem and the increment decided by RoundsUp. */
  lemma RoundedByQuotient(mode: Mode, m: nat, p: uint64, q: uint64, rem: uint64, neg: bool)
    requires 0 < p && m == q * p + rem && rem < p && q < 0x1_0000_0000_0000_0000 - 1
    requires 2 * rem < 0x1_0000_0000_0000_0000
    ensures var y := if RoundsUp(mode, neg, q, rem, p) then q + 1 else q;
            RoundedBy(mode, Sgn(neg, m), Sgn(neg, y), p)
  {
    var up := RoundsUp(mode, neg, q, rem, p);
    var y := if up then q + 1 else q;
    var qp := q * p;
    SuccTimes(q, p);
    var yp := if up then qp + p else qp;
    assert y * p == yp;
    SgnTimes(neg, y, p);
    RoundedByLinear(mode, p, q, rem, neg, m, qp, Sgn(neg, y) * p);
  }

  lemma RoundedByLinear(mode: Mode, p: uint64, q: uint64, rem: uint64, neg: bool,
                        m: int, qp: int, syp: int)
    requires 0 < p && m == qp + rem && rem < p && 2 * rem < 0x1_0000_0000_0000_0000
    requires q < 0x1_0000_0000_0000_0000 - 1
    requires var up := RoundsUp(mode, neg, q, rem, p);
             syp == Sgn(neg, if up then qp + p else qp) &&
             syp == Sgn(neg, if up then q + 1 else q) * p
    ensures RoundedBy(mode, Sgn(neg, m), Sgn(neg, if RoundsUp(mode, neg, q, rem, p) then q + 1 else q), p)
  {
  }

  /**
   * Every mode rounds correctly: when places cut digits the result's signed
   * mantissa at exponent -places is the rounding of the input's value
   * selected by the mode, otherwise the value is kept. The bound on m holds
   * for every decimal (57 bits) and keeps Go's m << 1 from wrapping.
   */
  lemma {:induction false} RoundCorrect(t: Vme, places: int32, mode: Mode)
    requires 0 < t.m < 0x8000_0000_0000_0000
    requires MinInt64 < t.e as int + places as int <= MaxInt64
    ensures RoundDefined(t, places)
    ensures var r := VmeRoundWith(t, places, mode, true);
            KeptAt(t, places, r) || RoundsAt(t, places, r, mode)
  {
    var i := t.e as int + places as int;
    assert Wrap64(i) == i;
    var r := VmeRoundWith(t, places, mode, true);
    var v := t.v.(loss := false);
    if i < 0 {
      if -i >= TenPowLen as int {
        Pow10Above64(-i);
        RoundedByTail(mode, t.m, Pow10(-i), v.sign, r);
      } else if Shl1(t.m) < TenPow(-i) {
        RoundedByTail(mode, t.m, TenPow(-i), v.sign, r);
      } else {
        RoundCorrectQuotient(t, places, mode, -i);
      }
    }
  }

  lemma RoundCorrectQuotient(t: Vme, places: int32, mode: Mode, k: nat)
    requires 0 < t.m < 0x8000_0000_0000_0000
    requires k == -(t.e as int + places as int) && 0 < k < TenPowLen
    requires Shl1(t.m) >= TenPow(k)
    ensures RoundDefined(t, places)
    ensures RoundsAt(t, places, VmeRoundWith(t, places, mode, true), mode)
  {
    var p := TenPow(k);
    var qr := Div64(0, t.m, p);
    QuotientResult(t, places, mode, k);
    RoundedByQuotient(mode, t.m, p, qr.0, qr.1, t.v.sign);
    assert Signed(t) == Sgn(t.v.sign, t.m);
  }

  /** The shape of the result in the quotient branch: q, or q + 1 when the mode rounds up, at 10^-places. */
  lemma QuotientResult(t: Vme, places: int32, mode: Mode, k: nat)
    requires 0 < t.m < 0x8000_0000_0000_0000
    requires k == -(t.e as int + places as int) && 0 < k < TenPowLen
    requires Shl1(t.m) >= TenPow(k)
    ensures RoundDefined(t, places)
    ensures var qr := Div64(0, t.m, TenPow(k));
            t.m == qr.0 * TenPow(k) + qr.1 && qr.1 < TenPow(k) &&
            qr.0 < 0x1_0000_0000_0000_0000 - 1 && 2 * qr.1 < 0x1_0000_0000_0000_0000
    ensures var qr := Div64(0, t.m, TenPow(k));
            var y := if RoundsUp(mode, t.v.sign, qr.0, qr.1, TenPow(k)) then qr.0 + 1 else qr.0;
            var r := VmeRoundWith(t, places, mode, true);
            !r.v.loss && (r.m == 0 || r.e == -(places as int)) && Signed(r) == Sgn(t.v.sign, y)
  {
    assert Wrap64(t.e as int + places as int) == t.e as int + places as int;
    var qr := Div64(0, t.m, TenPow(k));
    Div64Product(0, t.m, TenPow(k));
    assert qr.0 <= t.m by {
      MulMonotone(1, TenPow(k), qr.0);
    }
    Pow10At19();
    Pow10Monotone(k, 19);
  }

  /** vmeRound (core.go:927-962): nearest, ties toward +infinity. */
  lemma RoundNearest(t: Vme, places: int32)
    requires 0 < t.m < 0x8000_0000_0000_0000
    requires MinInt64 < t.e as int + places as int <= MaxInt64
    ensures RoundDefined(t, places)
    ensures var r := VmeRound(t, places);
            KeptAt(t, places, r) || RoundsAt(t, places, r, HalfUp)
  {
    RoundCorrect(t, places, HalfUp);
  }

  /** vmeRoundBank (core.go:964-999): nearest, ties to even. */
  lemma RoundBankNearest(t: Vme, places: int32)
    requires 0 < t.m < 0x8000_0000_0000_0000
    requires MinInt64 < t.e as int + places as int <= MaxInt64
    ensures RoundDefined(t, places)
    ensures var r := VmeRoundBank(t, places);
            KeptAt(t, places, r) || RoundsAt(t, places, r, HalfEven)
  {
    RoundCorrect(t, places, HalfEven);
  }

  /** vmeRoundCeil (core.go:1001-1042): the least multiple not below the value. */
  lemma RoundCeilBound(t: Vme, places: int32)
    requires 0 < t.m < 0x8000_0000_0000_0000
    requires MinInt64 < t.e as int + places as int <= MaxInt64
    ensures RoundDefined(t, places)
    ensures var r := VmeRoundCeil(t, places);
            KeptAt(t, places, r) || RoundsAt(t, places, r, Ceiling)
  {
    RoundCorrect(t, places, Ceiling);
  }

  /** vmeRoundFloor (core.go:1044-1089): the greatest multiple not above the value. */
  lemma RoundFloorBound(t: Vme, places: int32)
    requires 0 < t.m < 0x8000_0000_0000_0000
    requires MinInt64 < t.e as int + places as int <= MaxInt64
    ensures RoundDefined(t, places)
    ensures var r := VmeRoundFloor(t, places);
            KeptAt(t, places, r) || RoundsAt(t, places, r, Floor)
  {
    RoundCorrect(t, places, Floor);
  }

  /**
   * No rounding of NaN or infinity: an exact zero, ~0 and ±~0 become Zero,
   * every other tuple with m == 0 comes back unchanged, in every mode.
   */
  lemma RoundMagic(t: Vme, places: int32, mode: Mode)
    requires t.m == 0
    ensures var r := VmeRoundWith(t, places, mode, true);
            (KindOf(t) in {ExactZero, NearZero, NearPositive, NearNegative} && t.e in {0, MinInt64} ==> r == ZeroVme) &&
            (IsNaNVme(t) || IsInfVme(t) ==> r == t)
  {
  }

  /** Rounding twice to the same places is rounding once. */
  lemma RoundIdempotent(t: Vme, places: int32, mode: Mode)
    requires RoundDefined(t, places) && t.v.unit == 0 && t.m < 0x8000_0000_0000_0000
    ensures var r := VmeRoundWith(t, places, mode, true);
            RoundDefined(r, places) && VmeRoundWith(r, places, mode, true) == r
  {
    RoundLandsStable(t, places, mode);
    RoundStable(VmeRoundWith(t, places, mode, true), places, mode);
  }

  /**
   * The tuples rounding leaves alone: Zero, a zero mantissa with an exponent
   * that is neither 0 nor a sentinel, and an exact value already at or above
   * the kept precision.
   */
  predicate StableAt(r: Vme, places: int32) {
    if r.m == 0 then r == ZeroVme || (r.e != 0 && r.e != MinInt64)
    else !r.v.loss && Wrap64(r.e as int + places as int) >= 0
  }

  lemma RoundStable(r: Vme, places: int32, mode: Mode)
    requires StableAt(r, places)
    ensures RoundDefined(r, places) && VmeRoundWith(r, places, mode, true) == r
  {
  }

  /** Every result of rounding a tuple without unit is stable at the same places. */
  lemma RoundLandsStable(t: Vme, places: int32, mode: Mode)
    requires RoundDefined(t, places) && t.v.unit == 0 && t.m < 0x8000_0000_0000_0000
    ensures StableAt(VmeRoundWith(t, places, mode, true), places)
  {
    if t.m != 0 {
      var i := Wrap64(t.e as int + places as int);
      if i < 0 && -i < TenPowLen as int && Shl1(t.m) >= TenPow(-i) {
        RoundQuotientStable(t, places, mode);
      } else if i < 0 {
        RoundBelowStable(t, places, mode);
      }
    }
  }

  /** A value less than half a unit of 10^-places rounds to Zero or to one unit. */
  lemma RoundBelowStable(t: Vme, places: int32, mode: Mode)
    requires RoundDefined(t, places) && 0 < t.m < 0x8000_0000_0000_0000
    requires var i := Wrap64(t.e as int + places as int);
             i < 0 && (-i >= TenPowLen as int || Shl1(t.m) < TenPow(-i))
    ensures StableAt(VmeRoundWith(t, places, mode, true), places)
  {
    assert Wrap64(-(places as int) + places as int) == 0;
  }

  /** The quotient branch: the result is exact at 10^-places, or Zero. */
  lemma RoundQuotientStable(t: Vme, places: int32, mode: Mode)
    requires RoundDefined(t, places) && t.v.unit == 0 && 0 < t.m < 0x8000_0000_0000_0000
    requires var i := Wrap64(t.e as int + places as int);
             i < 0 && -i < TenPowLen as int && Shl1(t.m) >= TenPow(-i)
    ensures StableAt(VmeRoundWith(t, places, mode, true), places)
  {
    var i := Wrap64(t.e as int + places as int);
    assert Wrap64(-(places as int) + places as int) == 0;
    Div64Product(0, t.m, TenPow(-i));
    TimesZero(Div64(0, t.m, TenPow(-i)).0, TenPow(-i));
  }

  /**
   * With the guard extended, no mode ever leaves the tuple (0, 0, 0) that a
   * decimal stores as Null: a quotient rounded down to zero keeps the sign
   * of a negative value, and a positive one is either rounded up or caught
   * by the guard.
   */
  lemma RoundNeverNull(t: Vme, places: int32, mode: Mode)
    requires RoundDefined(t, places) && t.m < 0x8000_0000_0000_0000
    ensures VmeRoundWith(t, places, mode, true) != NullVme
  {
    var i := Wrap64(t.e as int + places as int);
    if t.m != 0 && i < 0 && -i < TenPowLen as int && Shl1(t.m) >= TenPow(-i) {
      var p := TenPow(-i);
      var qr := Div64(0, t.m, p);
      Div64Product(0, t.m, p);
      if qr.0 == 0 && !t.v.sign {
        assert qr.1 == t.m;
      }
    }
  }

  /**
   * 2.5 and -2.5 at places 0: vmeRound gives 3 and -2, vmeRoundBank 2 and
   * -2, vmeRoundCeil 3 and -2, vmeRoundFloor 2 and -3.
   */
  lemma RoundTies()
    ensures VmeRound(Vme(NoBits, 25, -1), 0) == Vme(NoBits, 3, 0)
    ensures VmeRound(Vme(SignBit, 25, -1), 0) == Vme(SignBit, 2, 0)
    ensures VmeRoundBank(Vme(NoBits, 25, -1), 0) == Vme(NoBits, 2, 0)
    ensures VmeRoundBank(Vme(SignBit, 25, -1), 0) == Vme(SignBit, 2, 0)
    ensures VmeRoundCeil(Vme(NoBits, 25, -1), 0) == Vme(NoBits, 3, 0)
    ensures VmeRoundCeil(Vme(SignBit, 25, -1), 0) == Vme(SignBit, 2, 0)
    ensures VmeRoundFloor(Vme(NoBits, 25, -1), 0) == Vme(NoBits, 2, 0)
    ensures VmeRoundFloor(Vme(SignBit, 25, -1), 0) == Vme(SignBit, 3, 0)
  {
    assert Wrap64(-1 + 0) == -1;
    assert TenPow(1) == 10;
    Div64Product(0, 25, 10);
    DivModUnique(25, 10, 2, 5);
  }

  /**
   * The two slips, as written: 0.5 rounded to even at places 0 gives the
   * tuple (0, 0, 0), which a decimal stores as Null; 1e-16 rounded up to
   * a multiple of 10^4 gives Zero, where 1e-16 rounded up to a multiple of
   * 10^3 gives 1000 (places -3 and -4); -1e-16 rounded down to a multiple
   * of 10^4 gives Zero as well, where -1e4 is meant.
   */
  lemma RoundSlips()
    ensures VmeRoundWith(Vme(NoBits, 5, -1), 0, HalfEven, false) == NullVme
    ensures VmeRoundBank(Vme(NoBits, 5, -1), 0) == ZeroVme
    ensures VmeRoundWith(Vme(NoBits, 1, -16), -3, Ceiling, false) == Vme(NoBits, 1, 3)
    ensures VmeRoundWith(Vme(NoBits, 1, -16), -4, Ceiling, false) == ZeroVme
    ensures VmeRoundCeil(Vme(NoBits, 1, -16), -4) == Vme(NoBits, 1, 4)
    ensures VmeRoundWith(Vme(SignBit, 1, -16), -4, Floor, false) == ZeroVme
    ensures VmeRoundFloor(Vme(SignBit, 1, -16), -4) == Vme(SignBit, 1, 4)
  {
    assert Wrap64(-1 + 0) == -1;
    assert TenPow(1) == 10;
    Div64Product(0, 5, 10);
    DivModUnique(5, 10, 0, 5);
    assert Wrap64(-16 + -3) == -19;
    assert Wrap64(-16 + -4) == -20;
    Pow10At19();
  }
}
