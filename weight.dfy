/**
 * The Weight type (weight.go): a 64-bit word laid out like a Decimal,
 * except that bits 53-56 hold the index of the word's unit in the weight
 * unit table and the mantissa keeps 53 bits. This module holds the
 * table, vmet and vmeAsWeight, the constructors, Unit, the predicates,
 * Sign and the text functions; the arithmetic is in WeightOps.
 */
module Weights {
  import opened Bits
  import opened Vmes
  import opened Units
  import opened CoreNormalize
  import opened TextParse
  import opened TextFormat
  import D = Decimals

  /** WeightMaxInt: the largest mantissa, and the largest integer that is its own weight in kg. */
  const WeightMaxInt: uint64 := 0x1f_ffff_ffff_ffff
  const WeightMinE: int64 := -16
  const WeightMaxE: int64 := 15
  const Two53: nat := 0x20_0000_0000_0000

  /**
   * The factors to kg of the four units outside the metric system, as
   * decimal words m + f << 57 where f is the 5-bit exponent field
   * (24 is -8, 20 is -12, 22 is -10).
   */
  const Pound: int64 := 45359237 + 24 * D.Two57
  const Ounce: int64 := 28349523125 + 20 * D.Two57
  const TroyPound: int64 := 3732417216 + 22 * D.Two57
  const TroyOunce: int64 := 311034768 + 22 * D.Two57

  /** "µg" in UTF-8, and the five bytes weight.go:43 holds in its place, the UTF-8 text "Âµg". */
  const Microgram: seq<byte> := [0xc2, 0xb5, 0x67]
  const MicrogramAsWritten: seq<byte> := [0xc3, 0x82, 0xc2, 0xb5, 0x67]

  /**
   * weightUnits (weight.go:34-60): entry k, for k < 16, is the unit whose
   * index k the word stores in bits 53-56 (10 and 11 are reserved and
   * empty); the last three entries are aliases that only the parser finds.
   * `micro` is the name of entry 7.
   */
  function WeightUnitsWith(micro: seq<byte>): (units: seq<Unit>)
    ensures |units| == 19
  {
    [Unit([0x6b, 0x67], 0, 0),                          // kg
     Unit([0x74], 1, 3),                                // t
     Unit([0x6b, 0x74], 2, 6),                          // kt
     Unit([0x4d, 0x74], 3, 9),                          // Mt
     Unit([0x47, 0x74], 4, 12),                         // Gt
     Unit([0x67], 5, -3),                               // g
     Unit([0x6d, 0x67], 6, -6),                         // mg
     Unit(micro, 7, -9),                                // µg
     Unit([0x6e, 0x67], 8, -12),                        // ng
     Unit([0x70, 0x67], 9, -15),                        // pg
     Unit([], 0, 0),
     Unit([], 0, 0),
     Unit([0x6c, 0x62], 12, Pound),                     // lb
     Unit([0x6f, 0x7a], 13, Ounce),                     // oz
     Unit([0x20, 0x6c, 0x62, 0x20, 0x74], 14, TroyPound), // " lb t"
     Unit([0x20, 0x6f, 0x7a, 0x20, 0x74], 15, TroyOunce), // " oz t"
     Unit([0x6d, 0x63, 0x67], 7, -9),                   // mcg
     Unit([0x20, 0x6c, 0x62, 0x20, 0x61, 0x76], 12, Pound), // " lb av"
     Unit([0x20, 0x6f, 0x7a, 0x20, 0x61, 0x76], 13, Ounce)] // " oz av"
  }

  /** The table as the rest of the model uses it, with "µg" spelled in UTF-8. */
  const WeightUnits: seq<Unit> := WeightUnitsWith(Microgram)

  /** Every entry below 16 other than the reserved ones carries its own index as tag; the aliases carry the tag of the unit they name. */
  lemma TableIndexedByTag(micro: seq<byte>)
    ensures var units := WeightUnitsWith(micro);
            (forall k :: 0 <= k < 16 && k != 10 && k != 11 ==> units[k].tag as int == k) &&
            units[16].tag == 7 && units[16].c == units[7].c &&
            units[17].tag == 12 && units[17].c == units[12].c &&
            units[18].tag == 13 && units[18].c == units[13].c
  {
  }

  /** The unit index of a magnitude: bits 53-56. */
  function UnitIndex(u: nat): (k: bv4)
    ensures k as int == u / Two53 % 16
  {
    (u / Two53 % 16) as bv4
  }

  /**
   * w.vmet() (weight.go:64-92): the sign, the loss bit and the unit index
   * of the magnitude in v, its low 53 bits as mantissa, its exponent
   * field, and the sentinel exponents of ±~0 and ±Inf when m == 0.
   */
  function Vmet(w: int64): (t: Vme)
    ensures t.m <= WeightMaxInt && t.v.sign == (w < 0)
    ensures t.m != 0 ==> WeightMinE <= t.e <= WeightMaxE
    ensures t.e == MinInt64 || t.e == MaxInt64 || WeightMinE <= t.e <= WeightMaxE
  {
    var u := D.Magnitude(w);
    var e := D.ExpOf(u);
    var m := u % Two53;
    Vme(V(w < 0, D.LossOf(u), UnitIndex(u)), m,
        if m == 0 && e == WeightMinE as int then MinInt64
        else if m == 0 && e == WeightMaxE as int then MaxInt64
        else e)
  }

  /** The entry of the table vmet returns beside the tuple: the one at the word's unit index. */
  function UnitOf(w: int64, units: seq<Unit>): Unit
    requires |units| >= 16
  {
    units[Vmet(w).v.unit]
  }

  /**
   * vmeAsWeight (weight.go:95-120): an exact zero is Null when the whole
   * tuple is (0, 0, 0), Zero when it has no unit, and otherwise the
   * positive word holding only its unit bits; anything else is
   * normalized to 53 bits and [-16, 15] and packed with its unit.
   */
  function VmeAsWeight(t: Vme): (w: int64)
    ensures w == D.Null <==> t == NullVme
  {
    if t.m == 0 && !t.v.loss then
      if t.v == NoBits && t.e == 0 then D.Null
      else if t.v.unit == 0 then MinInt64
      else t.v.unit as int * Two53
    else
      var r := VmeNormalize(t, WeightMaxInt, WeightMinE, WeightMaxE);
      var w := D.Pack(r.v.loss, r.v.unit as int * Two53 + r.m, r.e);
      if r.v.sign then -(w as int) else w
  }

  /** What a word keeps of a normalized tuple: the sentinel exponents of ±~0 and ±Inf. */
  function StoredWeight(r: Vme): Vme {
    Vme(r.v, r.m,
        if r.m == 0 && r.e == WeightMinE then MinInt64
        else if r.m == 0 && r.e == WeightMaxE then MaxInt64
        else r.e)
  }

  /** The fields of a packed weight magnitude read back as they were packed. */
  lemma UnpackWeight(loss: bool, unit: bv4, m: nat, e: int)
    requires m <= WeightMaxInt && -16 <= e <= 15
    ensures var w := D.Pack(loss, unit as int * Two53 + m, e);
            D.LossOf(w) == loss && D.ExpOf(w) == e && w % Two53 == m && UnitIndex(w) == unit
  {
    var x := unit as int * Two53 + m;
    var w := D.Pack(loss, x, e);
    D.Unpack(loss, x, e);
    var hi := w / D.Two57;
    DivModBasics(w, D.Two57);
    assert w == (hi * 16 + unit as int) * Two53 + m;
    DivModUnique(w, Two53, hi * 16 + unit as int, m);
    DivModUnique(hi * 16 + unit as int, 16, hi, unit as int);
  }

  /**
   * Reading back a weight built from a tuple: an exact zero becomes
   * Null, Zero, or the unsigned zero of its unit; anything else becomes
   * the normalized tuple as the word stores it, unit included.
   */
  lemma WeightDecodeEncode(t: Vme)
    ensures Vmet(VmeAsWeight(t)) ==
              if t.m == 0 && !t.v.loss then
                if t == NullVme then NullVme
                else if t.v.unit == 0 then ZeroVme
                else Vme(V(false, false, t.v.unit), 0, 0)
              else StoredWeight(VmeNormalize(t, WeightMaxInt, WeightMinE, WeightMaxE))
  {
    if t == NullVme {
      assert VmeAsWeight(t) == 0;
    } else if t.m == 0 && !t.v.loss {
      ExactZeroWeightDecodes(t);
    } else {
      NormalizedWeightDecodes(t);
    }
  }

  lemma NormalizedWeightDecodes(t: Vme)
    requires t.m != 0 || t.v.loss
    ensures Vmet(VmeAsWeight(t)) == StoredWeight(VmeNormalize(t, WeightMaxInt, WeightMinE, WeightMaxE))
  {
    var r := VmeNormalize(t, WeightMaxInt, WeightMinE, WeightMaxE);
    UnpackWeight(r.v.loss, r.v.unit, r.m, r.e);
  }

  lemma ExactZeroWeightDecodes(t: Vme)
    requires t.m == 0 && !t.v.loss && t != NullVme
    ensures Vmet(VmeAsWeight(t)) == if t.v.unit == 0 then ZeroVme else Vme(V(false, false, t.v.unit), 0, 0)
  {
    if t.v.unit == 0 {
      assert VmeAsWeight(t) == MinInt64;
      assert D.Magnitude(MinInt64) == D.Two63;
      DivModUnique(D.Two63, Two53, 1024, 0);
      DivModUnique(D.Two63, D.Two57, 64, 0);
      DivModUnique(D.Two63, D.Two62, 2, 0);
    } else {
      UnpackWeight(false, t.v.unit, 0, 0);
    }
  }

  /** vmeAsWeight keeps the unit of every tuple, an exact zero's included. */
  lemma UnitKept(t: Vme)
    ensures Vmet(VmeAsWeight(t)).v.unit == t.v.unit
  {
    WeightDecodeEncode(t);
  }

  /**
   * Every integer from -WeightMaxInt to WeightMaxInt other than 0 is its
   * own weight in kg: it reads as (sign, |w|, 0) without a unit, and that
   * tuple builds w back.
   */
  lemma IntegerWeight(w: int64)
    requires w != 0 && -(WeightMaxInt as int) <= w <= WeightMaxInt
    ensures Vmet(w) == Vme(V(w < 0, false, 0), D.Magnitude(w), 0)
    ensures VmeAsWeight(Vmet(w)) == w
  {
    var u := D.Magnitude(w);
    DivModUnique(u, Two53, 0, u);
    DivModUnique(u, D.Two57, 0, u);
    DivModUnique(u, D.Two62, 0, u);
    UnpackWeight(false, 0, u, 0);
  }

  /** The results of the constructors: a weight and an error. */
  datatype Made = Made(w: int64, err: TextError)

  /**
   * NewWeight(value, exp, unit) (weight.go:123-137): value * 10^exp, its
   * sign taken with value <= 0, tagged through the unit reader; the word
   * is built whatever the error.
   */
  function NewWeight(value: int64, exp: int32, unit: seq<byte>): (r: Made)
  {
    var t := if value <= 0 then Vme(SignBit, D.Magnitude(value), exp) else Vme(NoBits, value, exp);
    var s := UnitOrMagic(unit, t, WeightUnits);
    Made(VmeAsWeight(s.t), s.err)
  }

  /**
   * A value with a unit name the table knows is a weight of that unit, of
   * the same value whenever the word is exact.
   */
  lemma NewWeightDenotes(value: int64, exp: int32, unit: seq<byte>, tag: bv4)
    requires value != 0 && UnitHashOf(unit) != 0 && UnitMatch(WeightUnits, UnitHashOf(unit)) == Some(tag)
    ensures var r := NewWeight(value, exp, unit);
            var t := Vmet(r.w);
            r.err == NoError && t.v.unit == tag &&
            (!t.v.loss ==> t.m != 0 && t.v.sign == (value < 0) && SameValue(t.m, t.e, D.Magnitude(value), exp))
  {
    var t := NewWeightTagged(value, exp, unit, tag);
    TaggedWeightDenotes(t);
  }

  /** The tuple NewWeight builds when the unit is found: value, exp and the unit's tag. */
  lemma NewWeightTagged(value: int64, exp: int32, unit: seq<byte>, tag: bv4) returns (t: Vme)
    requires value != 0 && UnitHashOf(unit) != 0 && UnitMatch(WeightUnits, UnitHashOf(unit)) == Some(tag)
    ensures t == Vme(V(value < 0, false, tag), D.Magnitude(value), exp)
    ensures NewWeight(value, exp, unit) == Made(VmeAsWeight(t), NoError)
  {
    var t0 := if value <= 0 then Vme(SignBit, D.Magnitude(value), exp) else Vme(NoBits, value, exp);
    t := t0.(v := t0.v.(unit := tag));
    assert UnitOrMagic(unit, t0, WeightUnits) == Scanned(t, NoError);
  }

  /** A weight built from an exact tuple keeps its sign, unit and value whenever the word is exact. */
  lemma TaggedWeightDenotes(t: Vme)
    requires t.m != 0 && !t.v.loss && -0x8000_0000 <= t.e < 0x8000_0000
    ensures var s := Vmet(VmeAsWeight(t));
            s.v.unit == t.v.unit && (!s.v.loss ==> s.m != 0 && s.v.sign == t.v.sign && SameValue(s.m, s.e, t.m, t.e))
  {
    WeightDecodeEncode(t);
    NormalizeExact(t, WeightMaxInt, WeightMinE, WeightMaxE);
  }

  /** A unit text that names no unit and no magic word is ErrUnitSyntax, and the value is kept in kg. */
  lemma NewWeightUnknownUnit(value: int64, exp: int32, unit: seq<byte>)
    requires value != 0 && UnitHashOf(unit) != 0 && UnitMatch(WeightUnits, UnitHashOf(unit)) == None
    ensures var r := NewWeight(value, exp, unit);
            r.err == ErrUnitSyntax && Vmet(r.w).v.unit == 0
  {
    var t0 := if value <= 0 then Vme(SignBit, D.Magnitude(value), exp) else Vme(NoBits, value, exp);
    UnitKept(t0);
  }

  /** NewWeightFromDecimal(value, unit) (weight.go:140-147): the decimal's tuple, tagged through the unit reader. */
  function NewWeightFromDecimal(value: int64, unit: seq<byte>): (r: Made)
  {
    var s := UnitOrMagic(unit, D.DecodeVme(value), WeightUnits);
    Made(VmeAsWeight(s.t), s.err)
  }

  /** A decimal integer up to WeightMaxInt with an empty unit is the same integer as a weight in kg. */
  lemma DecimalIntegerIsWeight(d: int64)
    requires d != 0 && -(WeightMaxInt as int) <= d <= WeightMaxInt
    ensures NewWeightFromDecimal(d, []) == Made(d, NoError)
  {
    D.IntegerWord(d);
    IntegerWeight(d);
    assert UnitHashOf([]) == 0;
  }

  /**
   * NewWeightFromBytes (weight.go:152-158) and NewWeightFromString
   * (weight.go:170-172): the text read with the weight units, built into
   * a word; Null and the error when the text does not read.
   */
  function NewWeightFromBytes(value: seq<byte>): (r: Made)
    ensures r.err != NoError ==> r.w == D.Null
  {
    var s := FromBytes(value, WeightUnits);
    if s.err == NoError then Made(VmeAsWeight(s.t), NoError) else Made(D.Null, s.err)
  }

  /** w.Unit() (weight.go:184-194): the name of the entry at the word's unit index. */
  function UnitName(w: int64): (name: seq<byte>)
  {
    UnitOf(w, WeightUnits).name
  }

  /** A weight built from a tuple is named by the entry of the tuple's unit. */
  lemma UnitNameKept(t: Vme)
    ensures UnitName(VmeAsWeight(t)) == WeightUnits[t.v.unit].name
  {
    UnitKept(t);
  }

  /** w.IsNull(), w.IsSet() and w.IfNull(default) (weight.go:327-352). */
  predicate IsNull(w: int64) {
    w == D.Null
  }

  predicate IsSet(w: int64) {
    w != D.Null
  }

  function IfNull(w: int64, default: int64): (r: int64)
    ensures IsSet(r) <== IsSet(w) || IsSet(default)
    ensures IsSet(w) ==> r == w
  {
    if w == D.Null then default else w
  }

  /**
   * The bits the predicates of weight.go:360-380 test. As written they
   * test uint64(w), the two's complement of a negative word (fixed ==
   * false); the corrected predicates test the magnitude, where vmet reads
   * the fields.
   */
  function TestedBits(w: int64, fixed: bool): (u: nat)
    ensures u < D.Two64
  {
    if fixed then D.Magnitude(w) else D.Bits64(w)
  }

  /** x without its unit bits 53-56. */
  function WithoutUnit(x: nat): nat {
    x - x / Two53 % 16 * Two53
  }

  /** w.IsExactlyZero() (weight.go:360-362): every bit but the sign and the unit bits is clear. */
  predicate IsExactlyZeroWith(w: int64, fixed: bool) {
    var x := TestedBits(w, fixed) % D.Two63;
    x < D.Two57 && x % Two53 == 0
  }

  /**
   * w.IsZero() (weight.go:370-375): an exact zero, or the loss bit alone
   * once the sign and unit bits are cleared (~0 of any unit). Like the
   * code, and unlike the comment above it, ±~0 are not zero, which is
   * what the comments of IsPositive, IsNegative and Sign rely on.
   */
  predicate IsZeroWith(w: int64, fixed: bool) {
    IsExactlyZeroWith(w, fixed) || WithoutUnit(TestedBits(w, fixed) % D.Two63) == D.Two62
  }

  /** w.IsExact() (weight.go:378-380): the loss bit is clear. */
  predicate IsExactWith(w: int64, fixed: bool) {
    TestedBits(w, fixed) / D.Two62 % 2 == 0
  }

  predicate IsExactlyZero(w: int64) {
    IsExactlyZeroWith(w, true)
  }

  predicate IsZero(w: int64) {
    IsZeroWith(w, true)
  }

  predicate IsExact(w: int64) {
    IsExactWith(w, true)
  }

  /** w.IsInfinite() (weight.go:405-409): vmet gives the exponent MaxInt64. */
  predicate IsInfinite(w: int64) {
    Vmet(w).e == MaxInt64
  }

  /** w.IsNaN() (weight.go:415-441): no mantissa, the loss bit, and an exponent other than 0, MinInt64 and MaxInt64. */
  predicate IsNaN(w: int64) {
    var t := Vmet(w);
    t.m == 0 && t.v.loss && t.e != 0 && t.e != MinInt64 && t.e != MaxInt64
  }

  /**
   * w.IsPositive() (weight.go:388-390): w > 0 and not NaN. An exact zero
   * with a unit is a positive word, so as written it is positive; the
   * corrected predicate leaves out the zeros, as the comment above it says.
   */
  predicate IsPositiveWith(w: int64, fixed: bool) {
    w > 0 && !IsNaN(w) && (fixed ==> !IsZero(w))
  }

  predicate IsPositive(w: int64) {
    IsPositiveWith(w, true)
  }

  /** w.IsNegative() (weight.go:397-399). */
  predicate IsNegative(w: int64) {
    !IsZero(w) && w < 0
  }

  /** w.Sign() (weight.go:449-455): 0 for the zeros, otherwise 1 or -1 from the sign bit. */
  function Sign(w: int64): (s: int)
    ensures s in {-1, 0, 1}
  {
    if IsExactlyZero(w) || IsZero(w) then 0
    else 1 - 2 * (D.Bits64(w) / D.Two63)
  }

  /** The top bits of a magnitude: the loss bit, the exponent field and the unit index. */
  lemma MagnitudeFields(u: nat)
    requires u <= D.Two63
    ensures u % D.Two63 == if u == D.Two63 then 0 else u
    ensures u < D.Two63 ==> u == (u / D.Two62 % 2) * D.Two62 + (u / D.Two57 % 32) * D.Two57 + UnitIndex(u) as int * Two53 + u % Two53
  {
    if u < D.Two63 {
      var l, f, k, m := u / D.Two62 % 2, u / D.Two57 % 32, u / Two53 % 16, u % Two53;
      DivModBasics(u, Two53);
      DivModBasics(u / Two53, 16);
      DivModBasics(u / Two53 / 16, 32);
      assert u / Two53 / 16 == u / D.Two57;
      assert u / D.Two57 / 32 == u / D.Two62;
      assert u / D.Two62 < 2;
    }
  }

  /**
   * The corrected predicates say what vmet reads: exactly zero is no
   * mantissa, no loss and exponent 0, zero is also ~0 (no mantissa and
   * exponent 0, whatever the loss bit), and exact is no loss bit.
   */
  lemma PredicatesOnFields(w: int64)
    ensures var t := Vmet(w);
            (IsExactlyZero(w) <==> t.m == 0 && !t.v.loss && t.e == 0) &&
            (IsZero(w) <==> t.m == 0 && t.e == 0) &&
            (IsExact(w) <==> !t.v.loss)
  {
    ExactlyZeroOnFields(w);
    ZeroOnFields(w);
    MagnitudeFields(D.Magnitude(w));
  }

  /** IsExactlyZero on the fields vmet reads. */
  lemma ExactlyZeroOnFields(w: int64)
    ensures var t := Vmet(w); IsExactlyZero(w) <==> t.m == 0 && !t.v.loss && t.e == 0
  {
    MagnitudeFields(D.Magnitude(w));
  }

  /** IsZero on the fields vmet reads. */
  lemma ZeroOnFields(w: int64)
    ensures var t := Vmet(w); IsZero(w) <==> t.m == 0 && t.e == 0
  {
    ExactlyZeroOnFields(w);
    MagnitudeFields(D.Magnitude(w));
  }

  /**
   * What the word w says of the value x, counted in units of 10^lo, when
   * it is exact: it is a zero exactly for x == 0, positive exactly for
   * x > 0, and a mantissa has the sign and magnitude of x.
   */
  predicate ReadsAs(w: int64, lo: int, x: int) {
    var s := Vmet(w);
    !s.v.loss ==> (IsZero(w) <==> x == 0) && (IsPositive(w) <==> x > 0) &&
                  (s.m != 0 ==> s.v.sign == (x < 0) && SameValue(s.m, s.e, (if x < 0 then -x else x), lo))
  }

  /**
   * Sign, IsNegative and IsPositive agree on every word: Sign is 0 for the
   * zeros and ~0, -1 exactly for the negative words, and 1 for the
   * positive words, NaN aside.
   */
  lemma SignAgrees(w: int64)
    ensures var t := Vmet(w);
            Sign(w) == (if t.m == 0 && t.e == 0 then 0 else if t.v.sign then -1 else 1)
    ensures Sign(w) == 0 <==> IsZero(w)
    ensures Sign(w) == -1 <==> IsNegative(w)
    ensures !IsNaN(w) ==> (Sign(w) == 1 <==> IsPositive(w))
  {
    PredicatesOnFields(w);
  }

  /**
   * d.Bytes() (weight.go:275-284) with a unit table: nothing for Null,
   * otherwise the tuple in extended output followed by the name of its
   * unit.
   */
  function BytesWith(w: int64, units: seq<Unit>): (b: seq<byte>)
    requires |units| >= 16
  {
    if w == D.Null then [] else TupleText(Vmet(w), 0, UnitOf(w, units).name, true, false)
  }

  function Bytes(w: int64): (b: seq<byte>)
  {
    BytesWith(w, WeightUnits)
  }

  /** w.String() (weight.go:266-272): "0" for Null, otherwise the bytes. */
  function String(w: int64): (s: seq<byte>)
  {
    if w == D.Null then [Zero] else Bytes(w)
  }

  /** w.MarshalJSON() (weight.go:287-291): the tuple without extended output, then the unit name. */
  function MarshalJSON(w: int64): (b: seq<byte>)
  {
    TupleText(Vmet(w), 0, UnitOf(w, WeightUnits).name, false, false)
  }

  /** The text of every set weight ends with the name of its unit. */
  lemma BytesEndWithUnit(w: int64)
    requires w != D.Null
    ensures var name := UnitName(w);
            |Bytes(w)| >= |name| && Bytes(w)[|Bytes(w)| - |name|..] == name
  {
  }

  /** The twenty digits of a mantissa below 10: nineteen zeros, then its digit. */
  lemma {:induction false} SingleDigitText(m: nat, n: nat)
    requires m < 10 && n >= 1
    ensures DecimalText(m, n) == Zeros(n - 1) + [DigitByte(m)]
  {
    if n > 1 {
      SingleDigitText(0, n - 1);
      assert Zeros(n - 2) + [DigitByte(0)] == Zeros(n - 1);
    }
  }

  /** Leading zeros in front of the units digit are not written. */
  lemma {:induction false} LeadingZerosHidden(k: nat, d: byte)
    requires k < TenPowLen && IsDigit(d)
    ensures DigitText(Zeros(k) + [d], 0, false) == [d]
  {
    if k > 0 {
      assert (Zeros(k) + [d])[1..] == Zeros(k - 1) + [d];
      LeadingZerosHidden(k - 1, d);
    }
  }

  /** 1 µg: the word 7 << 53 | 1 that "1mcg" reads as. */
  lemma MicrogramWord()
    ensures Vmet(7 * Two53 + 1) == Vme(V(false, false, 7), 1, 0)
  {
    UnpackWeight(false, 7, 1, 0);
  }

  /**
   * As written, weight.go:43 names unit 7 with the five bytes of "Âµg", so
   * 1 µg is written "1Âµg" and not the "1µg" of weight_test.go:21.
   */
  lemma MicrogramTextAsWritten()
    ensures BytesWith(7 * Two53 + 1, WeightUnitsWith(MicrogramAsWritten)) == [0x31] + MicrogramAsWritten
    ensures [0x31] + MicrogramAsWritten != [0x31] + Microgram
  {
    MicrogramWord();
    OneText(V(false, false, 7));
    assert UnitOf(7 * Two53 + 1, WeightUnitsWith(MicrogramAsWritten)).name == MicrogramAsWritten;
  }

  /** With "µg" spelled in UTF-8, 1 µg is written "1µg". */
  lemma MicrogramText()
    ensures Bytes(7 * Two53 + 1) == [0x31] + Microgram
  {
    MicrogramWord();
    OneText(V(false, false, 7));
    assert WeightUnits[7].name == Microgram;
    assert Bytes(7 * Two53 + 1) == TupleText(Vme(V(false, false, 7), 1, 0), 0, Microgram, true, false);
  }

  /** The text of the mantissa 1 at exponent 0, without sign and loss: "1". */
  lemma OneText(v: V)
    requires !v.sign && !v.loss
    ensures TupleBody(Vme(v, 1, 0), 0, true) == [0x31]
  {
    SingleDigitText(1, TenPowLen);
    LeadingZerosHidden(TenPowLen - 1, DigitByte(1));
    assert Zeros(TrailingZeros(0, 0)) == [];
  }

  /**
   * A variable of type Weight, for the two methods that write *w:
   * UnmarshalJSON (weight.go:294-302) and UnmarshalText (weight.go:305-313).
   */
  class WeightVar {
    var w: int64

    constructor (w0: int64)
      ensures w == w0
    {
      w := w0;
    }

    /** On success the text read is stored; on error w is left as it was. */
    method UnmarshalJSON(b: seq<byte>) returns (err: TextError)
      modifies this
      ensures err == FromBytes(b, WeightUnits).err
      ensures err == NoError ==> w == VmeAsWeight(FromBytes(b, WeightUnits).t)
      ensures err != NoError ==> w == old(w)
    {
      var s := FromBytes(b, WeightUnits);
      if s.err == NoError {
        w := VmeAsWeight(s.t);
        return NoError;
      }
      return s.err;
    }

    method UnmarshalText(text: seq<byte>) returns (err: TextError)
      modifies this
      ensures err == NewWeightFromBytes(text).err
      ensures err == NoError ==> w == NewWeightFromBytes(text).w
      ensures err != NoError ==> w == old(w)
    {
      var r := NewWeightFromBytes(text);
      if r.err != NoError {
        return r.err;
      }
      w := r.w;
      return NoError;
    }
  }
}
