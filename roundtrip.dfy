/**
 * The formatter and the parser together: the text vmetBytes writes for a
 * tuple with a mantissa reads back through vmeFromBytes as the same
 * tuple, or as the same value written with exponent 0 when the exponent
 * was positive; the magic texts read back as the magic states.
 */
module TextRoundTrip {
  import opened Bits
  import opened Vmes
  import opened Runes
  import opened Units
  import opened TextParse
  import opened TextFormat
  import Decimals

  /** A tuple vmetBytes writes as digits: an exact, unitless value with a mantissa. */
  predicate Plain(t: Vme) {
    t.m > 0 && !t.v.loss && t.v.unit == 0
  }

  /** The text of a plain tuple, without a unit, quotes or places. */
  lemma PlainText(t: Vme, ext: bool)
    requires Plain(t)
    ensures TupleText(t, 0, [], ext, false) ==
            SignText(t.v.sign) + DigitText(DecimalText(t.m, TenPowLen), t.e, false) + Zeros(TrailingZeros(t.e, 0))
  {
    BodyIsMantissa(t, ext);
    assert MantissaText(t, 0, ext) == [] + (SignText(t.v.sign) + DigitText(DecimalText(t.m, TenPowLen), t.e, false) + Zeros(TrailingZeros(t.e, 0)));
  }

  /**
   * A plain tuple with an exponent of 0 or more reads back as its value
   * m * 10^e with its sign and exponent 0, when that fits in 64 bits: the
   * digits of m without leading zeros, then e zeros.
   */
  lemma IntegerRoundTrip(t: Vme, ext: bool, units: seq<Unit>)
    requires Plain(t) && t.e >= 0 && 0 <= t.m * Pow10(t.e) < Decimals.Two64
    ensures FromBytes(TupleText(t, 0, [], ext, false), units) == Scanned(IntegerTuple(t.v.sign, t.m * Pow10(t.e)), NoError)
  {
    ExponentBelow20(t.m, t.e);
    var x := IntegerText(t, ext);
    ParseInteger(t.v.sign, x, units);
  }

  /** The text of a plain tuple with an exponent from 0 to 19: its digits, then e zeros. */
  lemma IntegerText(t: Vme, ext: bool) returns (x: seq<byte>)
    requires Plain(t) && 0 <= t.e < TenPowLen && t.m * Pow10(t.e) < Decimals.Two64
    ensures |x| > 0 && AllDigits(x) && Accumulate(0, x) == t.m * Pow10(t.e)
    ensures TupleText(t, 0, [], ext, false) == SignText(t.v.sign) + x
  {
    var ds := DecimalText(t.m, TenPowLen);
    MantissaDigits(t.m);
    IntegerDigits(ds, t.e);
    PlainText(t, ext);
    x := Unpadded(ds) + Zeros(t.e);
    AccumulateZeros(0, t.e);
    AccumulateAppend(0, ds, Zeros(t.e));
    UnpaddedValue(ds, Zeros(t.e));
    AccumulateZeros(t.m, t.e);
  }

  /**
   * A plain tuple with an exponent of 0 or more reads back exact, with its
   * sign and its value, however large: as the integer m * 10^e with
   * exponent 0 when that fits in 64 bits, and otherwise as its digits and
   * as many of its zeros as fit, the zeros that do not fit counted in the
   * exponent.
   */
  lemma ScaledRoundTrip(t: Vme, ext: bool, units: seq<Unit>) returns (i: Vme)
    requires Plain(t) && 0 <= t.e < 0x4000_0000_0000_0000
    ensures i.v == t.v && i.m != 0 && 0 <= i.e <= t.e && SameValue(i.m, i.e, t.m, t.e)
    ensures t.m * Pow10(t.e) < Decimals.Two64 ==> i == IntegerTuple(t.v.sign, t.m * Pow10(t.e))
    ensures FromBytes(TupleText(t, 0, [], ext, false), units) == Scanned(i, NoError)
  {
    MulMonotone(1, t.m, Pow10(t.e));
    if t.m * Pow10(t.e) < Decimals.Two64 {
      IntegerRoundTrip(t, ext, units);
      i := IntegerTuple(t.v.sign, t.m * Pow10(t.e));
    } else {
      i := ScaledOverflow(t, ext, units);
    }
  }

  /** The text of such a tuple whose value does not fit in 64 bits. */
  lemma ScaledOverflow(t: Vme, ext: bool, units: seq<Unit>) returns (i: Vme)
    requires Plain(t) && 0 <= t.e < 0x4000_0000_0000_0000 && t.m * Pow10(t.e) >= Decimals.Two64
    ensures i.v == t.v && i.m != 0 && 0 <= i.e <= t.e && SameValue(i.m, i.e, t.m, t.e)
    ensures FromBytes(TupleText(t, 0, [], ext, false), units) == Scanned(i, NoError)
  {
    var x, z, k := OverflowDigits(t, ext);
    OverflowTuple(t.v.sign, x, Zero, z, units);
    i := Vme(t.v, t.m * Pow10(k), t.e - k);
  }

  /**
   * The text of such a tuple split where its value leaves 64 bits: the
   * sign, the digits x worth m * 10^k, then a zero and the zeros z.
   */
  lemma OverflowDigits(t: Vme, ext: bool) returns (x: seq<byte>, z: seq<byte>, k: nat)
    requires Plain(t) && 0 <= t.e < 0x4000_0000_0000_0000 && t.m * Pow10(t.e) >= Decimals.Two64
    ensures k < t.e && |z| + 1 == t.e - k && SameValue(t.m * Pow10(k), t.e - k, t.m, t.e)
    ensures |x| > 0 && AllDigits(x) && AllDigits(z) && Accumulate(0, x) == t.m * Pow10(k)
    ensures Accumulate(0, [Zero] + z) == 0
    ensures Accumulate(0, x) < Decimals.Two64 <= Accumulate(0, x) * 10 + (Zero - Zero)
    ensures TupleText(t, 0, [], ext, false) == SignText(t.v.sign) + x + [Zero] + z
  {
    var u := ScaledText(t, ext);
    k := OverflowPoint(t.m, t.e);
    x, z := ZerosSplit(SignText(t.v.sign), u, k, t.e);
  }

  /**
   * An inexact unitless tuple with an exponent of 0 or more reads back
   * with its sign, the loss bit and its value, however large, in the same
   * two forms.
   */
  lemma LossyScaledRoundTrip(t: Vme, units: seq<Unit>) returns (i: Vme)
    requires t.m > 0 && t.v.loss && t.v.unit == 0 && 0 <= t.e < 0x4000_0000_0000_0000
    ensures i.v == t.v && i.m != 0 && 0 <= i.e <= t.e && SameValue(i.m, i.e, t.m, t.e)
    ensures t.m * Pow10(t.e) < Decimals.Two64 ==> i == Vme(t.v, t.m * Pow10(t.e), 0)
    ensures FromBytes(TupleText(t, 0, [], true, false), units) == Scanned(i, NoError)
  {
    MulMonotone(1, t.m, Pow10(t.e));
    if t.m * Pow10(t.e) < Decimals.Two64 {
      LossyIntegerRoundTrip(t, units);
      i := Vme(t.v, t.m * Pow10(t.e), 0);
    } else {
      i := LossyScaledOverflow(t, units);
    }
  }

  /** The text of such a tuple whose value does not fit in 64 bits. */
  lemma LossyScaledOverflow(t: Vme, units: seq<Unit>) returns (i: Vme)
    requires t.m > 0 && t.v.loss && t.v.unit == 0 && 0 <= t.e < 0x4000_0000_0000_0000
    requires t.m * Pow10(t.e) >= Decimals.Two64
    ensures i.v == t.v && i.m != 0 && 0 <= i.e <= t.e && SameValue(i.m, i.e, t.m, t.e)
    ensures FromBytes(TupleText(t, 0, [], true, false), units) == Scanned(i, NoError)
  {
    var x, z, k := LossyDigits(t);
    LossyOverflow(t.v.sign, x, Zero, z, units, TupleText(t, 0, [], true, false));
    assert t.v == V(t.v.sign, true, 0);
    i := Vme(t.v, t.m * Pow10(k), t.e - k);
  }

  /** The same split for an inexact tuple, whose text starts with '~'. */
  lemma LossyDigits(t: Vme) returns (x: seq<byte>, z: seq<byte>, k: nat)
    requires t.m > 0 && t.v.loss && t.v.unit == 0 && 0 <= t.e < 0x4000_0000_0000_0000
    requires t.m * Pow10(t.e) >= Decimals.Two64
    ensures k < t.e && |z| + 1 == t.e - k && SameValue(t.m * Pow10(k), t.e - k, t.m, t.e)
    ensures |x| > 0 && AllDigits(x) && AllDigits(z) && Accumulate(0, x) == t.m * Pow10(k)
    ensures Accumulate(0, x) < Decimals.Two64 <= Accumulate(0, x) * 10 + (Zero - Zero)
    ensures TupleText(t, 0, [], true, false) == [Tilde] + SignText(t.v.sign) + x + [Zero] + z
  {
    var w := t.(v := t.v.(loss := false));
    LossyText(t, w);
    x, z, k := OverflowDigits(w, true);
  }

  /** The text of a plain tuple with an exponent of 0 or more: the sign, its digits u, then e zeros. */
  lemma ScaledText(t: Vme, ext: bool) returns (u: seq<byte>)
    requires Plain(t) && 0 <= t.e <= MaxInt64 - TenPowLen
    ensures |u| > 0 && AllDigits(u) && Accumulate(0, u) == t.m
    ensures TupleText(t, 0, [], ext, false) == SignText(t.v.sign) + u + Zeros(t.e as int)
  {
    var ds := DecimalText(t.m, TenPowLen);
    MantissaDigits(t.m);
    IntegerDigits(ds, t.e);
    PlainText(t, ext);
    u := Unpadded(ds);
    UnpaddedValue(ds, []);
    assert u + [] == u && ds + [] == ds;
  }

  /** The number of zeros after m that still fit in 64 bits, when m * 10^e does not. */
  lemma OverflowPoint(m: nat, e: nat) returns (k: nat)
    requires 0 < m < Decimals.Two64 <= m * Pow10(e)
    ensures k < e && m * Pow10(k) < Decimals.Two64 <= m * Pow10(k) * 10
    decreases e
  {
    assert e > 0;
    var p := Pow10(e - 1);
    assert m * Pow10(e) == m * p * 10;
    if m * p < Decimals.Two64 {
      k := e - 1;
    } else {
      k := OverflowPoint(m, e - 1);
    }
  }

  /** The e zeros after the digits u, split at k: u and k zeros, one zero, and the rest. */
  lemma ZerosSplit(prefix: seq<byte>, u: seq<byte>, k: nat, e: nat) returns (x: seq<byte>, z: seq<byte>)
    requires AllDigits(u) && k < e
    ensures |x| == |u| + k && AllDigits(x) && Accumulate(0, x) == Accumulate(0, u) * Pow10(k)
    ensures |z| == e - k - 1 && AllDigits(z) && AllDigits([Zero] + z) && Accumulate(0, [Zero] + z) == 0
    ensures prefix + u + Zeros(e) == prefix + x + [Zero] + z
  {
    x, z := u + Zeros(k), Zeros(e - k - 1);
    AccumulateZeros(0, k);
    AccumulateAppend(0, u, Zeros(k));
    AccumulateZeros(Accumulate(0, u), k);
    assert [Zero] + z == Zeros(e - k);
    AccumulateZeros(0, e - k);
    assert Zeros(e) == Zeros(k) + [Zero] + z;
  }

  /** A positive mantissa times 10^e below 2^64 has e < 20. */
  lemma ExponentBelow20(m: nat, e: nat)
    requires m > 0 && m * Pow10(e) < Decimals.Two64
    ensures e < TenPowLen
  {
    MulMonotone(1, m, Pow10(e));
    if e >= 20 {
      Pow10Above64(e);
    }
  }

  /**
   * A plain tuple with an exponent from -20 to -1 reads back as itself:
   * its integer digits, the '.', and -e fractional digits.
   */
  lemma FractionRoundTrip(t: Vme, ext: bool, units: seq<Unit>)
    requires Plain(t) && -20 <= t.e < 0
    ensures FromBytes(TupleText(t, 0, [], ext, false), units) == Scanned(t, NoError)
  {
    var x, y := FractionText(t, ext);
    ParseFraction(t.v.sign, x, y, units);
  }

  /** The text of a plain tuple with an exponent from -20 to -1: digits x, the '.', and -e digits y. */
  lemma FractionText(t: Vme, ext: bool) returns (x: seq<byte>, y: seq<byte>)
    requires Plain(t) && -20 <= t.e < 0
    ensures |x| + |y| > 0 && AllDigits(x) && AllDigits(y) && |y| == -t.e as int
    ensures AllDigits(x + y) && Accumulate(0, x + y) == t.m
    ensures TupleText(t, 0, [], ext, false) == SignText(t.v.sign) + x + [Dot] + y
  {
    if t.e == -20 {
      x, y := AllFractional(t.m);
    } else {
      x, y := SomeFractional(t.m, t.e);
    }
    FractionJoin(t, ext, x, y);
  }

  /** The sign, then the digits and the '.', with no trailing zeros. */
  lemma FractionJoin(t: Vme, ext: bool, x: seq<byte>, y: seq<byte>)
    requires Plain(t) && -20 <= t.e < 0
    requires DigitText(DecimalText(t.m, TenPowLen), t.e, false) == x + [Dot] + y
    ensures TupleText(t, 0, [], ext, false) == SignText(t.v.sign) + x + [Dot] + y
  {
    PlainText(t, ext);
    assert Zeros(TrailingZeros(t.e, 0)) == [];
    Concat4(SignText(t.v.sign), x, [Dot], y);
  }

  /** With exponent -20 every digit is fractional: "0.", then the twenty digits. */
  lemma AllFractional(m: uint64) returns (x: seq<byte>, y: seq<byte>)
    ensures |y| == 20 && x == [Zero] && AllDigits(y)
    ensures AllDigits(x + y) && Accumulate(0, x + y) == m
    ensures DigitText(DecimalText(m, TenPowLen), -20, false) == x + [Dot] + y
  {
    var ds := DecimalText(m, TenPowLen);
    MantissaDigits(m);
    PointFirst(ds, -20, false);
    x, y := [Zero], ds;
    AccumulateAppend(0, x, y);
  }

  /**
   * With an exponent from -19 to -1 the digits split at 20 + e: the
   * integer digits without leading zeros, the '.', and the -e others.
   */
  lemma SomeFractional(m: uint64, e: int64) returns (x: seq<byte>, y: seq<byte>)
    requires -20 < e < 0
    ensures |x| > 0 && AllDigits(x) && AllDigits(y) && |y| == -e as int
    ensures AllDigits(x + y) && Accumulate(0, x + y) == m
    ensures DigitText(DecimalText(m, TenPowLen), e, false) == x + [Dot] + y
  {
    var ds := DecimalText(m, TenPowLen);
    var n := TenPowLen + e;
    MantissaDigits(m);
    FractionDigits(ds, e, false);
    assert ds[..n] + ds[n..] == ds;
    UnpaddedValue(ds[..n], ds[n..]);
    x, y := Unpadded(ds[..n]), ds[n..];
  }

  /* An inexact tuple in extended output: '~' before the text of its exact twin. */

  /** The text of an inexact unitless tuple is '~' and the text of the same tuple without the loss bit. */
  lemma LossyText(t: Vme, u: Vme)
    requires t.m > 0 && t.v.loss && t.v.unit == 0 && u == t.(v := t.v.(loss := false))
    ensures Plain(u) && TupleText(t, 0, [], true, false) == [Tilde] + TupleText(u, 0, [], true, false)
  {
    BodyIsMantissa(t, true);
    BodyIsMantissa(u, true);
    MantissaMark(t, u);
  }

  /** The loss bit adds the '~' in front of the mantissa text and changes nothing else. */
  lemma MantissaMark(t: Vme, u: Vme)
    requires t.v.loss && u == t.(v := t.v.(loss := false))
    ensures MantissaText(t, 0, true) == [Tilde] + MantissaText(u, 0, true)
  {
    var rest := (if t.v.sign then [Minus] else []) + DigitText(DecimalText(t.m, TenPowLen), t.e, false) + Zeros(TrailingZeros(t.e, 0));
    assert MantissaText(u, 0, true) == [] + rest;
    assert MantissaText(t, 0, true) == [Tilde] + rest;
  }

  /** Without a unit and quotes, the text of a tuple with a mantissa is the text of its mantissa. */
  lemma BodyIsMantissa(t: Vme, ext: bool)
    requires t.m > 0
    ensures TupleText(t, 0, [], ext, false) == MantissaText(t, 0, ext)
  {
    assert TupleBody(t, 0, ext) == MantissaText(t, 0, ext);
  }

  /** The text of an inexact unitless tuple with an exponent from -20 to -1: '~', the sign, digits x, the '.', and -e digits y. */
  lemma LossyFractionText(t: Vme) returns (x: seq<byte>, y: seq<byte>)
    requires t.m > 0 && t.v.loss && t.v.unit == 0 && -20 <= t.e < 0
    ensures |x| + |y| > 0 && AllDigits(x) && AllDigits(y) && |y| == -t.e as int
    ensures AllDigits(x + y) && Accumulate(0, x + y) == t.m
    ensures TupleText(t, 0, [], true, false) == [Tilde] + SignText(t.v.sign) + x + [Dot] + y
  {
    var u := t.(v := t.v.(loss := false));
    LossyText(t, u);
    x, y := FractionText(u, true);
  }

  /**
   * An inexact unitless tuple with an exponent from -20 to -1 reads back
   * as itself, the loss bit included: the '~' sets it again.
   */
  lemma LossyFractionRoundTrip(t: Vme, units: seq<Unit>)
    requires t.m > 0 && t.v.loss && t.v.unit == 0 && -20 <= t.e < 0
    ensures FromBytes(TupleText(t, 0, [], true, false), units) == Scanned(t, NoError)
  {
    var x, y := LossyFractionText(t);
    LossyFraction(t.v.sign, x, y, units, TupleText(t, 0, [], true, false));
    assert t == Vme(V(t.v.sign, true, 0), Accumulate(0, x + y), -|y|);
  }

  /** The text of an inexact unitless tuple with an exponent from 0 to 19: '~', the sign, its digits, then e zeros. */
  lemma LossyIntegerText(t: Vme) returns (x: seq<byte>)
    requires t.m > 0 && t.v.loss && t.v.unit == 0 && 0 <= t.e < TenPowLen && t.m * Pow10(t.e) < Decimals.Two64
    ensures |x| > 0 && AllDigits(x) && Accumulate(0, x) == t.m * Pow10(t.e)
    ensures TupleText(t, 0, [], true, false) == [Tilde] + SignText(t.v.sign) + x
  {
    var u := t.(v := t.v.(loss := false));
    LossyText(t, u);
    x := IntegerText(u, true);
  }

  /**
   * An inexact unitless tuple with an exponent of 0 or more reads back as
   * its value m * 10^e with exponent 0, its sign and the loss bit, when
   * that value fits in 64 bits.
   */
  lemma LossyIntegerRoundTrip(t: Vme, units: seq<Unit>)
    requires t.m > 0 && t.v.loss && t.v.unit == 0 && t.e >= 0 && t.m * Pow10(t.e) < Decimals.Two64
    ensures FromBytes(TupleText(t, 0, [], true, false), units) == Scanned(Vme(t.v, t.m * Pow10(t.e), 0), NoError)
  {
    ExponentBelow20(t.m, t.e);
    MulMonotone(1, t.m, Pow10(t.e));
    var x := LossyIntegerText(t);
    LossyInteger(t.v.sign, x, units, TupleText(t, 0, [], true, false));
    assert t.v == V(t.v.sign, true, 0);
  }

  /* The magic states in extended output. */

  /** ASCII bytes decode to one rune each. */
  lemma {:induction false} AsciiRunes(bs: seq<byte>)
    requires forall k :: 0 <= k < |bs| ==> bs[k] < 0x80
    ensures RunesOf(bs) == seq(|bs|, k requires 0 <= k < |bs| => bs[k] as nat)
    decreases |bs|
  {
    if |bs| > 0 {
      AsciiRunes(bs[1..]);
    }
  }

  /** "Inf" hashes as the word inf of the switch. */
  lemma InfHash()
    ensures UnitHashOf(InfText) == HashInf
  {
    AsciiRunes(InfText);
    assert RunesOf(InfText) == [0x49, 0x6e, 0x66];
    HashStepSmall(0, 0x69);
    HashStepSmall(105, 0x6e);
    HashStepSmall(27095, 0x66);
    assert HashRunes(0, [0x49, 0x6e, 0x66]) == HashRunes(105, [0x6e, 0x66]);
    assert HashRunes(105, [0x6e, 0x66]) == HashRunes(27095, [0x66]);
    assert HashRunes(27095, [0x66]) == HashRunes(HashInf, []);
  }

  /** "NaN" hashes as the word nan of the switch. */
  lemma NaNHash()
    ensures UnitHashOf(NaNText) == HashNaN
  {
    AsciiRunes(NaNText);
    assert RunesOf(NaNText) == [0x4e, 0x61, 0x4e];
    HashStepSmall(0, 0x6e);
    HashStepSmall(110, 0x61);
    HashStepSmall(28367, 0x6e);
    assert HashRunes(0, [0x4e, 0x61, 0x4e]) == HashRunes(110, [0x61, 0x4e]);
    assert HashRunes(110, [0x61, 0x4e]) == HashRunes(28367, [0x4e]);
    assert HashRunes(28367, [0x4e]) == HashRunes(HashNaN, []);
  }

  /** A scan that stops at once on a letter leaves the whole rest to the unit reader. */
  lemma WordTail(b: seq<byte>, k: nat, st: Scan, parsedSign: bool, units: seq<Unit>)
    requires k < |b| && !IsDigit(b[k]) && b[k] != Dot && !IsExponentMark(b[k])
    ensures Tail(b, |b| - 1, k, st, parsedSign, units, true) ==
            Some(UnitOrMagic(b[k..], ZeroFixed(st, parsedSign), units))
  {
    assert b[k..|b| - 1 + 1] == b[k..];
  }

  /**
   * +Inf and -Inf read back as the infinities, when no unit of the table
   * is named inf.
   */
  lemma InfRoundTrip(negative: bool, units: seq<Unit>)
    requires UnitMatch(units, HashInf).None?
    ensures FromBytes(TupleText(InfVme(negative), 0, [], true, false), units) == Scanned(InfVme(negative), NoError)
  {
    assert TupleText(InfVme(negative), 0, [], true, false) == [if negative then Minus else Plus] + InfText;
    InfReads(negative, units);
  }

  lemma InfReads(negative: bool, units: seq<Unit>)
    requires UnitMatch(units, HashInf).None?
    ensures FromBytes([if negative then Minus else Plus] + InfText, units) == Scanned(InfVme(negative), NoError)
  {
    var b := [if negative then Minus else Plus] + InfText;
    var st := Scan(V(negative, false, 0), 0, 0, false, false, false);
    TrimmedAscii(b);
    ReadsTrimmed(b, units);
    assert Signed(b, 0, 3, units, true) == Tail(b, 3, 1, st, true, units, true);
    assert b[1..] == InfText;
    WordTail(b, 1, st, true, units);
    InfWord(negative, units);
  }

  /** The suffix Inf after a sign and no digits. */
  lemma InfWord(negative: bool, units: seq<Unit>)
    requires UnitMatch(units, HashInf).None?
    ensures UnitOrMagic(InfText, Vme(V(negative, false, 0), 0, 0), units) == Scanned(InfVme(negative), NoError)
  {
    InfHash();
  }

  /** Trimmed text that is not quoted goes to the prefix reader whole. */
  lemma ReadsTrimmed(b: seq<byte>, units: seq<Unit>)
    requires |b| > 1 && TrimSpace(b) == b && b[0] != Quote && b[0] != Apostrophe
    ensures FromBytes(b, units) == Signed(b, 0, |b| - 1, units, true).value
  {
    assert Bounds(b) == (0, |b| - 1);
  }

  /** Every NaN, whatever its exponent, reads back as the NaN of the parser. */
  lemma NaNRoundTrip(t: Vme, units: seq<Unit>)
    requires t.m == 0 && t.v.loss && t.e != 0 && t.e != MinInt64 && t.e != MaxInt64
    requires UnitMatch(units, HashNaN).None?
    ensures FromBytes(TupleText(t, 0, [], true, false), units) == Scanned(NaNVme, NoError)
  {
    assert TupleText(t, 0, [], true, false) == NaNText;
    NaNReads(units);
  }

  lemma NaNReads(units: seq<Unit>)
    requires UnitMatch(units, HashNaN).None?
    ensures FromBytes(NaNText, units) == Scanned(NaNVme, NoError)
  {
    var b := NaNText;
    var st := Scan(NoBits, 0, 0, false, false, false);
    TrimmedAscii(b);
    ReadsTrimmed(b, units);
    assert Signed(b, 0, 2, units, true) == Tail(b, 2, 0, st, false, units, true);
    WordTail(b, 0, st, false, units);
    assert b[0..] == b;
    NaNWordReads(units);
  }

  /** The suffix NaN with no sign and no digits. */
  lemma NaNWordReads(units: seq<Unit>)
    requires UnitMatch(units, HashNaN).None?
    ensures UnitOrMagic(NaNText, Vme(NoBits, 0, 0), units) == Scanned(NaNVme, NoError)
  {
    NaNHash();
  }

  /** +~0 and -~0 read back as themselves. */
  lemma NearRoundTrip(negative: bool, units: seq<Unit>)
    ensures FromBytes(TupleText(NearVme(negative), 0, [], true, false), units) == Scanned(NearVme(negative), NoError)
  {
    assert TupleText(NearVme(negative), 0, [], true, false) == [if negative then Minus else Plus, Tilde, Zero];
    NearReads(negative, units);
  }

  lemma NearReads(negative: bool, units: seq<Unit>)
    ensures FromBytes([if negative then Minus else Plus, Tilde, Zero], units) == Scanned(NearVme(negative), NoError)
  {
    var b := [if negative then Minus else Plus, Tilde, Zero];
    TrimmedAscii(b);
    var st := Scan(V(negative, true, 0), 0, 0, false, false, false);
    assert ScanLoop(b, 2, 2, st, true) == ScanLoop(b, 2, 3, DigitStep(st, 0, true), true);
    ScanToEnd(b, 2, 2, st, DigitStep(st, 0, true), true, units, true);
  }

  /** ~0, written for an exponent of 0, reads back as the negative ~0 (sign and loss set). */
  lemma NearZeroRoundTrip(t: Vme, units: seq<Unit>)
    requires t.m == 0 && t.v.loss && t.e == 0
    ensures FromBytes(TupleText(t, 0, [], true, false), units) == Scanned(NearZeroVme, NoError)
  {
    assert TupleText(t, 0, [], true, false) == [Tilde, Zero];
    NearZeroReads(units);
  }

  lemma NearZeroReads(units: seq<Unit>)
    ensures FromBytes([Tilde, Zero], units) == Scanned(NearZeroVme, NoError)
  {
    var b := [Tilde, Zero];
    TrimmedAscii(b);
    var st := Scan(V(false, true, 0), 0, 0, false, false, false);
    assert ScanLoop(b, 1, 1, st, true) == ScanLoop(b, 1, 2, DigitStep(st, 0, true), true);
    ScanToEnd(b, 1, 1, st, DigitStep(st, 0, true), false, units, true);
  }
}
