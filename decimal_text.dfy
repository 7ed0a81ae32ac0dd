/**
 * The text side of a Decimal (decimal.go:859-940): NewFromBytes and
 * NewFromString read a word through vmeFromBytes without a unit table,
 * Bytes and String write it through the formatter with extended output,
 * and MarshalJSON writes it with plain output. Go strings are byte
 * sequences, so a string is modelled by its bytes.
 */
module DecimalTexts {
  import opened Bits
  import opened Vmes
  import opened Units
  import opened TextParse
  import opened TextFormat
  import opened TextRoundTrip
  import D = Decimals

  /** The two results of NewFromBytes: a word and an error. */
  datatype Parsed = Parsed(d: int64, err: TextError)

  /**
   * NewFromBytes (decimal.go:859-865): the tuple read, encoded as a word,
   * when there is no error; otherwise the word 0 (Null) and the error.
   */
  function NewFromBytes(value: seq<byte>): (r: Parsed)
    ensures r.err != NoError ==> r.d == D.Null
    ensures r.err == NoError ==> (r.d == D.Null <==> FromBytes(value, []).t == NullVme)
  {
    var s := FromBytes(value, []);
    if s.err == NoError then Parsed(D.VmeAsDecimal(s.t), NoError) else Parsed(D.Null, s.err)
  }

  /**
   * d.Bytes() (decimal.go:924-933): nothing for Null, otherwise the tuple
   * written with extended output ('~' for an inexact value, Inf, NaN, ~0).
   */
  function Bytes(d: int64): (b: seq<byte>)
  {
    if d == D.Null then [] else TupleText(D.DecodeVme(d), 0, [], true, false)
  }

  /** d.String() (decimal.go:915-921): "0" for Null, otherwise the bytes of d. */
  function String(d: int64): (s: seq<byte>)
  {
    if d == D.Null then [Zero] else Bytes(d)
  }

  /**
   * d.MarshalJSON() (decimal.go:936-940): the tuple written without
   * extended output, so Null and the zeros are "0", NaN and the
   * infinities "null", and an inexact value has no '~'.
   */
  function MarshalJSON(d: int64): (b: seq<byte>)
  {
    TupleText(D.DecodeVme(d), 0, [], false, false)
  }

  /** The tuple of a non-zero integer word of magnitude up to MaxInt. */
  lemma IntegerTupleOfWord(d: int64)
    requires d != 0 && -(D.MaxInt as int) <= d <= D.MaxInt
    ensures var t := D.DecodeVme(d);
            Plain(t) && t.e == 0 && t == IntegerTuple(d < 0, t.m * Pow10(t.e)) && D.VmeAsDecimal(t) == d
  {
    D.IntegerWord(d);
  }

  /**
   * Every integer word from -MaxInt to MaxInt other than Null is written
   * as its digits and read back as itself.
   */
  lemma IntegerBytesRoundTrip(d: int64)
    requires d != 0 && -(D.MaxInt as int) <= d <= D.MaxInt
    ensures NewFromBytes(Bytes(d)) == Parsed(d, NoError)
    ensures NewFromBytes(String(d)) == Parsed(d, NoError)
  {
    IntegerTupleOfWord(d);
    IntegerRoundTrip(D.DecodeVme(d), true, []);
  }

  /**
   * An exact word with a negative exponent is written as digits around a
   * '.' that read back as the very tuple the word holds; the word that
   * tuple encodes is exact, not zero, and of the same sign and value.
   */
  lemma FractionBytesRoundTrip(d: int64)
    requires var t := D.DecodeVme(d); t.m > 0 && !t.v.loss && t.e < 0
    ensures NewFromBytes(Bytes(d)) == Parsed(D.VmeAsDecimal(D.DecodeVme(d)), NoError)
    ensures var t, s := D.DecodeVme(d), D.DecodeVme(NewFromBytes(Bytes(d)).d);
            !s.v.loss && s.m != 0 && s.v.sign == (d < 0) && SameValue(s.m, s.e, t.m, t.e)
  {
    var t := D.DecodeVme(d);
    FractionReads(d);
    WordValueKept(t, t);
  }

  /** The text of such a word reads back as the word's own tuple. */
  lemma FractionReads(d: int64)
    requires var t := D.DecodeVme(d); t.m > 0 && !t.v.loss && t.e < 0
    ensures NewFromBytes(Bytes(d)) == Parsed(D.VmeAsDecimal(D.DecodeVme(d)), NoError)
  {
    MantissaBytes(d);
    FractionRoundTrip(D.DecodeVme(d), true, []);
  }

  /**
   * An exact word with a positive exponent is written as its digits and e
   * zeros, and reads back without error, whatever the size of its value,
   * as an exact word of the same sign and value.
   */
  lemma ScaledBytesRoundTrip(d: int64)
    requires var t := D.DecodeVme(d); t.m > 0 && !t.v.loss && t.e > 0
    ensures NewFromBytes(Bytes(d)).err == NoError
    ensures var t, s := D.DecodeVme(d), D.DecodeVme(NewFromBytes(Bytes(d)).d);
            !s.v.loss && s.m != 0 && s.v.sign == (d < 0) && SameValue(s.m, s.e, t.m, t.e)
  {
    var t := D.DecodeVme(d);
    var i := ScaledReads(d);
    WordValueKept(t, i);
  }

  /** The text of such a word reads back as a tuple of its bits and value. */
  lemma ScaledReads(d: int64) returns (i: Vme)
    requires var t := D.DecodeVme(d); t.m > 0 && !t.v.loss && t.e > 0
    ensures var t := D.DecodeVme(d);
            i.v == t.v && i.m != 0 && i.e <= t.e && SameValue(i.m, i.e, t.m, t.e)
    ensures NewFromBytes(Bytes(d)) == Parsed(D.VmeAsDecimal(i), NoError)
  {
    var t := D.DecodeVme(d);
    MantissaBytes(d);
    i := ScaledRoundTrip(t, true, []);
  }

  /** A word with a mantissa is not Null, so Bytes writes its tuple. */
  lemma MantissaBytes(d: int64)
    ensures D.DecodeVme(d).m > 0 ==> Bytes(d) == TupleText(D.DecodeVme(d), 0, [], true, false)
  {
    D.DecodeZero();
  }

  /**
   * A tuple of the same value as a word's non-zero tuple encodes without a
   * rounding step: to a word of the same sign, loss bit and value.
   */
  lemma WordValueKept(t: Vme, i: Vme)
    requires 1 <= t.m <= D.MaxInt && D.MinE <= t.e <= D.MaxE
    requires i.m != 0 && i.e <= t.e && SameValue(i.m, i.e, t.m, t.e)
    ensures var s := D.DecodeVme(D.VmeAsDecimal(i));
            s.v.loss == i.v.loss && s.m != 0 && s.v.sign == i.v.sign && SameValue(s.m, s.e, t.m, t.e)
  {
    D.EncodeRepresentable(i, t.m, t.e as int);
    var s := D.DecodeVme(D.VmeAsDecimal(i));
    SameValueTransitive(s.m, s.e, i.m, i.e, t.m, t.e);
  }

  /**
   * An inexact word is written with a '~' in front of its digits, and the
   * '~' sets the loss bit again when the text is read: the text reads
   * back as a tuple of the same sign, loss bit and value (with exponent 0
   * when the value is an integer that fits in 64 bits), and the word that
   * encodes it is inexact, not zero, and of the same sign and value.
   */
  lemma LossyBytesRoundTrip(d: int64) returns (i: Vme)
    requires var t := D.DecodeVme(d); t.m > 0 && t.v.loss
    ensures var t := D.DecodeVme(d); i.v == t.v && i.m != 0 && SameValue(i.m, i.e, t.m, t.e)
    ensures NewFromBytes(Bytes(d)) == Parsed(D.VmeAsDecimal(i), NoError)
    ensures var t, s := D.DecodeVme(d), D.DecodeVme(NewFromBytes(Bytes(d)).d);
            s.v.loss && s.m != 0 && s.v.sign == (d < 0) && SameValue(s.m, s.e, t.m, t.e)
  {
    var t := D.DecodeVme(d);
    MantissaBytes(d);
    i := LossyScans(t);
    WordValueKept(t, i);
  }

  /** The extended text of an inexact unitless tuple of a word scans as a tuple of the same bits and value. */
  lemma LossyScans(t: Vme) returns (i: Vme)
    requires t.m > 0 && t.v.loss && t.v.unit == 0 && -16 <= t.e <= 15
    ensures i.v == t.v && i.m != 0 && i.e <= t.e && SameValue(i.m, i.e, t.m, t.e)
    ensures FromBytes(TupleText(t, 0, [], true, false), []) == Scanned(i, NoError)
  {
    if t.e < 0 {
      LossyFractionRoundTrip(t, []);
      i := t;
      assert t.m * Pow10(0) == t.m;
    } else {
      i := LossyScaledRoundTrip(t, []);
    }
  }

  /** Null is written as nothing, which reads back as Null. */
  lemma NullBytesRoundTrip()
    ensures NewFromBytes(Bytes(D.Null)) == Parsed(D.Null, NoError)
  {
    D.Constants();
  }

  /** String writes both Null and Zero as "0", which reads back as Zero. */
  lemma ZeroStringRoundTrip()
    ensures String(D.Null) == String(D.Zero) == [Zero]
    ensures NewFromBytes([Zero]) == Parsed(D.Zero, NoError)
  {
    D.Constants();
    assert TupleBody(ZeroVme, 0, true) == [Zero];
    assert String(D.Zero) == TupleText(ZeroVme, 0, [], true, false) == [Zero];
    ParseInteger(false, [Zero], []);
    assert SignText(false) + [Zero] == [Zero];
    assert Accumulate(0, [Zero]) == 0;
    assert D.VmeAsDecimal(ZeroVme) == D.Zero;
  }

  /** The infinities are written "+Inf" and "-Inf" and read back as themselves. */
  lemma InfinityBytesRoundTrip(negative: bool)
    ensures var d := if negative then D.NegativeInfinity else D.PositiveInfinity;
            NewFromBytes(Bytes(d)) == Parsed(d, NoError)
  {
    D.Constants();
    InfRoundTrip(negative, []);
  }

  /** NaN is written "NaN" and read back as NaN. */
  lemma NaNBytesRoundTrip()
    ensures NewFromBytes(Bytes(D.NaN)) == Parsed(D.NaN, NoError)
  {
    D.Constants();
    NaNRoundTrip(NaNVme, []);
  }

  /** The inexact zeros are written "~0", "+~0" and "-~0" and read back as themselves. */
  lemma NearZeroBytesRoundTrip()
    ensures NewFromBytes(Bytes(D.NearZero)) == Parsed(D.NearZero, NoError)
    ensures NewFromBytes(Bytes(D.NearPositiveZero)) == Parsed(D.NearPositiveZero, NoError)
    ensures NewFromBytes(Bytes(D.NearNegativeZero)) == Parsed(D.NearNegativeZero, NoError)
  {
    D.Constants();
    NearZeroRoundTrip(NearZeroVme, []);
    NearRoundTrip(false, []);
    NearRoundTrip(true, []);
  }

  /**
   * JSON output differs from Bytes only where extended output matters:
   * an exact value with a mantissa is written the same, an inexact one
   * without its leading '~', and the words without a mantissa as "0"
   * or "null".
   */
  lemma MarshalJSONIsPlain(d: int64)
    ensures var t := D.DecodeVme(d);
            (t.m > 0 && !t.v.loss ==> MarshalJSON(d) == Bytes(d)) &&
            (t.m > 0 && t.v.loss ==> Bytes(d) == [Tilde] + MarshalJSON(d)) &&
            (t.m == 0 ==> MarshalJSON(d) == [Zero] || MarshalJSON(d) == NullText)
  {
    if d == D.Null {
      D.DecodeZero();
    }
    ExtendedMarks(D.DecodeVme(d));
  }

  /** Extended output adds a '~' in front of an inexact mantissa and changes nothing else of a mantissa's text. */
  lemma ExtendedMarks(t: Vme)
    ensures t.m > 0 && !t.v.loss ==> TupleText(t, 0, [], false, false) == TupleText(t, 0, [], true, false)
    ensures t.m > 0 && t.v.loss ==> TupleText(t, 0, [], true, false) == [Tilde] + TupleText(t, 0, [], false, false)
    ensures t.m == 0 ==> TupleText(t, 0, [], false, false) == [Zero] || TupleText(t, 0, [], false, false) == NullText
  {
    if t.m > 0 {
      MantissaMarks(t);
    }
  }

  lemma MantissaMarks(t: Vme)
    requires t.m > 0
    ensures TupleText(t, 0, [], false, false) == MantissaText(t, 0, false)
    ensures MantissaText(t, 0, true) == (if t.v.loss then [Tilde] else []) + MantissaText(t, 0, false)
    ensures TupleText(t, 0, [], true, false) == MantissaText(t, 0, true)
  {
    var rest := DigitText(DecimalText(t.m, TenPowLen), t.e, false) + Zeros(TrailingZeros(t.e, 0));
    var sign := if t.v.sign then [Minus] else [];
    assert MantissaText(t, 0, false) == [] + sign + rest;
    assert MantissaText(t, 0, true) == (if t.v.loss then [Tilde] else []) + sign + rest;
  }

  /** Null, Zero and ~0 are "0" in JSON; NaN and the infinities are "null". */
  lemma MarshalJSONMagic()
    ensures MarshalJSON(D.Null) == [Zero] && MarshalJSON(D.Zero) == [Zero]
    ensures MarshalJSON(D.NearZero) == [Zero] && MarshalJSON(D.NearPositiveZero) == [Zero]
    ensures MarshalJSON(D.NaN) == NullText && MarshalJSON(D.PositiveInfinity) == NullText
  {
    D.Constants();
  }
}
