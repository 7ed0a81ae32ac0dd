/**
 * The rounding methods of Decimal (decimal.go:304-359): each decodes the
 * word, rounds the tuple with one of the four modes of core.go and encodes
 * the result again.
 */
module DecimalRounding {
  import opened Bits
  import opened Vmes
  import opened CoreRound
  import opened Decimals
  import opened DecimalOps

  /**
   * A decoded word carries a sentinel exponent only with m == 0, so the
   * index tenPow[-(e + places)] never sees the wrapped MinInt64.
   */
  lemma WordRoundDefined(d: int64, places: int32)
    ensures RoundDefined(DecodeVme(d), places)
  {
  }

  /** vmeAsDecimal(vmeRound*(v, m, e, places)); fixed == false is the source's rounding. */
  function RoundWith(d: int64, places: int32, mode: Mode, fixed: bool): (r: int64)
    ensures fixed ==> r != Null
  {
    WordRoundDefined(d, places);
    var t := DecodeVme(d);
    if fixed then RoundNeverNull(t, places, mode); VmeAsDecimal(VmeRoundWith(t, places, mode, fixed))
    else VmeAsDecimal(VmeRoundWith(t, places, mode, fixed))
  }

  /** d.Round(places) (decimal.go:305-309): nearest, ties toward +infinity. */
  function Round(d: int64, places: int32): (r: int64)
    ensures r != Null
  {
    RoundWith(d, places, HalfUp, true)
  }

  /** d.RoundBank(places) (decimal.go:356-360): nearest, ties to even. */
  function RoundBank(d: int64, places: int32): (r: int64)
    ensures r != Null
  {
    RoundWith(d, places, HalfEven, true)
  }

  /** d.RoundCeil(places) (decimal.go:317-321): toward +infinity. */
  function RoundCeil(d: int64, places: int32): (r: int64)
    ensures r != Null
  {
    RoundWith(d, places, Ceiling, true)
  }

  /** d.RoundFloor(places) (decimal.go:336-340): toward -infinity. */
  function RoundFloor(d: int64, places: int32): (r: int64)
    ensures r != Null
  {
    RoundWith(d, places, Mode.Floor, true)
  }

  /** d.Ceil() (decimal.go:312-314). */
  function Ceil(d: int64): (r: int64)
    ensures r != Null
  {
    RoundCeil(d, 0)
  }

  /** d.Floor() (decimal.go:324-326). */
  function Floor(d: int64): (r: int64)
    ensures r != Null
  {
    RoundFloor(d, 0)
  }

  /**
   * Every word with a mantissa is rounded correctly: the rounded tuple keeps
   * the value when places cut no digit, and otherwise is the multiple of
   * 10^-places the mode selects; the decimal returned is that tuple encoded.
   */
  lemma RoundWordCorrect(d: int64, places: int32, mode: Mode)
    requires Mantissa(d) != 0
    ensures var t := DecodeVme(d);
            var r := VmeRoundWith(t, places, mode, true);
            RoundWith(d, places, mode, true) == VmeAsDecimal(r) &&
            (KeptAt(t, places, r) || RoundsAt(t, places, r, mode))
  {
    RoundCorrect(DecodeVme(d), places, mode);
  }

  /**
   * NaN and the infinities pass through every rounding unchanged; Null,
   * Zero and the three near-zero words all round to Zero.
   */
  lemma RoundMagicWords(d: int64, places: int32, mode: Mode)
    requires d == Null || d == Zero || d == Decimals.NearZero || d == NearPositiveZero || d == NearNegativeZero ||
             d == Decimals.NaN || d == Decimals.PositiveInfinity || d == Decimals.NegativeInfinity
    ensures RoundWith(d, places, mode, true) ==
              if d == Decimals.NaN || d == Decimals.PositiveInfinity || d == Decimals.NegativeInfinity then d else Zero
  {
    Constants();
    RoundMagic(DecodeVme(d), places, mode);
  }

  /** An integer word is kept by every rounding to places >= 0. */
  lemma RoundKeepsIntegers(n: int64, places: int32, mode: Mode)
    requires SmallInt(n) && places >= 0
    ensures RoundWith(NewFromInt(n), places, mode, true) == NewFromInt(n)
  {
    SmallIntWord(n);
    if n != 0 {
      assert Wrap64(0 + places as int) == places as int;
    }
  }

  /**
   * As written, 0.5 rounded to even at places 0 gives Null, although Null
   * stands for a missing value; the corrected RoundBank gives Zero.
   */
  lemma RoundBankHalfIsNull()
    ensures RoundWith(0x3e00_0000_0000_0005, 0, HalfEven, false) == Null
    ensures RoundBank(0x3e00_0000_0000_0005, 0) == Zero
  {
    Unpack(false, 5, -1);
    assert DecodeVme(0x3e00_0000_0000_0005) == Vme(NoBits, 5, -1);
    RoundSlips();
  }
}
