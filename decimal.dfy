/**
 * The Decimal word (decimal.go): an int64 whose magnitude packs the loss bit
 * (62), a 5-bit two's-complement exponent (57-61) and a 57-bit mantissa; a
 * negative decimal is the negated word. This module holds the named
 * constants, the decoding into a (v, m, e) tuple, the encoding of a tuple,
 * the predicates on words, negation and the constructors from integers.
 */
module Decimals {
  import opened Bits
  import opened Vmes
  import opened CoreNormalize

  const Null: int64 := 0
  /** The largest mantissa, and the largest integer stored with exponent 0. */
  const MaxInt: uint64 := 0x01ff_ffff_ffff_ffff
  const Zero: int64 := MinInt64
  /** Zero | loss. */
  const NearZero: int64 := -0x4000_0000_0000_0000
  const NearPositiveZero: int64 := 0x6000_0000_0000_0000
  const NearNegativeZero: int64 := -0x6000_0000_0000_0000
  const PositiveInfinity: int64 := 0x5e00_0000_0000_0000
  const NegativeInfinity: int64 := -0x5e00_0000_0000_0000
  const NaN: int64 := 0x4200_0000_0000_0000

  const MinE: int64 := -16
  const MaxE: int64 := 15
  const DivisionPrecision: int32 := 16

  const Two57: nat := 0x200_0000_0000_0000
  const Two62: nat := 0x4000_0000_0000_0000
  const Two63: nat := 0x8000_0000_0000_0000
  const Two64: nat := 0x1_0000_0000_0000_0000

  /**
   * uint64(d) for d >= 0 and uint64(-d) for d < 0. Go's -MinInt64 wraps to
   * MinInt64, whose uint64 is 2^63: the magnitude is |d| in every case.
   */
  function Magnitude(d: int64): (u: nat)
    ensures u <= Two63 && (u == Two63 <==> d == MinInt64)
    ensures u == 0 <==> d == 0
  {
    if d < 0 then -(d as int) else d
  }

  /** uint64(d): the two's-complement bits of d. */
  function Bits64(d: int64): (u: uint64)
    ensures d >= 0 ==> u == d
  {
    if d < 0 then d + Two64 else d
  }

  /** The loss bit of a magnitude. */
  predicate LossOf(u: nat) {
    u / Two62 % 2 == 1
  }

  /** The exponent field of a magnitude, sign-extended from 5 bits. */
  function ExpOf(u: nat): (e: int)
    ensures -16 <= e <= 15
  {
    var f := u / Two57 % 32;
    if f >= 16 then f - 32 else f
  }

  /** d.vme() (decimal.go:119-144). */
  function DecodeVme(d: int64): (t: Vme)
    ensures t.m <= MaxInt && t.v.unit == 0 && t.v.sign == (d < 0)
    ensures t.m != 0 ==> MinE <= t.e <= MaxE
    ensures t.e == MinInt64 || t.e == MaxInt64 || MinE <= t.e <= MaxE
  {
    var u := Magnitude(d);
    var e := ExpOf(u);
    var m := u % Two57;
    Vme(V(d < 0, LossOf(u), 0), m,
        if m == 0 && e == MinE as int then MinInt64
        else if m == 0 && e == MaxE as int then MaxInt64
        else e)
  }

  /** d.Mantissa() (decimal.go:87-93): the mantissa field of the magnitude. */
  function Mantissa(d: int64): (m: int64)
    ensures m == DecodeVme(d).m
  {
    Magnitude(d) % Two57
  }

  /**
   * d.Exponent() (decimal.go:96-116): the exponent of the tuple, where the
   * sentinels of ±~0 and ±Inf read as MinInt32 and MaxInt32.
   */
  function Exponent(d: int64): (e: int32)
    ensures DecodeVme(d).e == MinInt64 ==> e == -0x8000_0000
    ensures DecodeVme(d).e == MaxInt64 ==> e == 0x7fff_ffff
    ensures MinE <= DecodeVme(d).e <= MaxE ==> e == DecodeVme(d).e
  {
    var u := Magnitude(d);
    var e := ExpOf(u);
    if u % Two57 == 0 && e == MinE as int then -0x8000_0000
    else if u % Two57 == 0 && e == MaxE as int then 0x7fff_ffff
    else e
  }

  /** v | m | uint64(e << 57) & decimal_e_bitmask, for v holding at most the loss bit. */
  function Pack(loss: bool, m: nat, e: int): (w: nat)
    requires m <= MaxInt && -16 <= e <= 15
    ensures w < Two63
  {
    (if loss then Two62 else 0) + (e % 32) * Two57 + m
  }

  /**
   * vmeAsDecimal (decimal.go:147-167): an exact zero becomes Null when the
   * whole tuple is (0, 0, 0) and Zero otherwise; anything else is
   * normalized to the 57-bit mantissa and the exponent range [-16, 15],
   * packed, and negated when the sign bit is set.
   */
  function VmeAsDecimal(t: Vme): (d: int64)
    ensures d == Null <==> t == NullVme
  {
    if t.m == 0 && !t.v.loss then
      if t.v == NoBits && t.e == 0 then Null else Zero
    else
      var r := VmeNormalize(t, MaxInt, MinE, MaxE);
      var w := Pack(r.v.loss, r.m, r.e);
      if r.v.sign then -(w as int) else w
  }

  /** What a word keeps of a normalized tuple: no unit, and the sentinel exponents of ±~0 and ±Inf. */
  function Stored(r: Vme): Vme {
    Vme(V(r.v.sign, r.v.loss, 0), r.m,
        if r.m == 0 && r.e == MinE then MinInt64
        else if r.m == 0 && r.e == MaxE then MaxInt64
        else r.e)
  }

  /** The fields of a packed magnitude read back as they were packed. */
  lemma Unpack(loss: bool, m: nat, e: int)
    requires m <= MaxInt && -16 <= e <= 15
    ensures var w := Pack(loss, m, e);
            LossOf(w) == loss && ExpOf(w) == e && w % Two57 == m
  {
    var w := Pack(loss, m, e);
    var l := if loss then 1 else 0;
    var f := e % 32;
    assert w == (32 * l + f) * Two57 + m;
    DivModUnique(w, Two57, 32 * l + f, m);
    DivModUnique(32 * l + f, 32, l, f);
    DivModUnique(w, Two62, l, f * Two57 + m);
  }

  /**
   * Decoding an encoded tuple gives Null or Zero for an exact zero, and
   * otherwise the normalized tuple as the word stores it.
   */
  lemma DecodeEncode(t: Vme)
    ensures DecodeVme(VmeAsDecimal(t)) ==
              if t.m == 0 && !t.v.loss then (if t == NullVme then NullVme else ZeroVme)
              else Stored(VmeNormalize(t, MaxInt, MinE, MaxE))
  {
    if t.m == 0 && !t.v.loss {
      DecodeZero();
    } else {
      var r := VmeNormalize(t, MaxInt, MinE, MaxE);
      Unpack(r.v.loss, r.m, r.e);
    }
  }

  lemma DecodeZero()
    ensures DecodeVme(Null) == NullVme && DecodeVme(Zero) == ZeroVme
  {
    DivModUnique(Two63, Two57, 64, 0);
    DivModUnique(Two63, Two62, 2, 0);
  }

  /**
   * A decimal built from a tuple keeps its value: whenever the word is
   * exact, it denotes the tuple's m * 10^e with the tuple's sign.
   */
  lemma EncodeKeepsValue(t: Vme)
    requires t.m != 0 && t.e <= MaxInt64 - 20
    ensures var s := DecodeVme(VmeAsDecimal(t));
            !s.v.loss ==> s.m != 0 && s.v.sign == t.v.sign && SameValue(s.m, s.e, t.m, t.e)
  {
    DecodeEncode(t);
    NormalizeExact(t, MaxInt, MinE, MaxE);
  }

  /**
   * A value some word can hold exactly, as m0 * 10^e0 with 1 <= m0 <=
   * MaxInt and MinE <= e0 <= MaxE, is encoded without a rounding step: the
   * word keeps the tuple's sign, its loss bit and its value.
   */
  lemma EncodeRepresentable(t: Vme, m0: nat, e0: int)
    requires t.m != 0 && t.e <= MaxInt64 - 20
    requires 1 <= m0 <= MaxInt && MinE as int <= e0 <= MaxE as int && SameValue(t.m, t.e, m0, e0)
    ensures var s := DecodeVme(VmeAsDecimal(t));
            s.v.loss == t.v.loss && s.m != 0 && s.v.sign == t.v.sign && SameValue(s.m, s.e, t.m, t.e)
  {
    DecodeEncode(t);
    NormalizeRepresentable(t, MaxInt, MinE, MaxE, m0, e0);
  }

  /**
   * Every integer of magnitude 1..MaxInt is its own word: it decodes to
   * (sign, |d|, 0) and that tuple encodes back to d.
   */
  lemma IntegerWord(d: int64)
    requires d != 0 && -(MaxInt as int) <= d <= MaxInt
    ensures DecodeVme(d) == Vme(V(d < 0, false, 0), Magnitude(d), 0)
    ensures VmeAsDecimal(DecodeVme(d)) == d
  {
    IntegerDecodes(d);
    Unpack(false, Magnitude(d), 0);
  }

  lemma IntegerDecodes(d: int64)
    requires d != 0 && -(MaxInt as int) <= d <= MaxInt
    ensures DecodeVme(d) == Vme(V(d < 0, false, 0), Magnitude(d), 0)
  {
    var u := Magnitude(d);
    DivModUnique(u, Two57, 0, u);
    DivModUnique(u, Two62, 0, u);
  }

  /** The named constants decode to the states they name, and encode back. */
  lemma Constants()
    ensures DecodeVme(NearZero) == NearZeroVme && VmeAsDecimal(NearZeroVme) == NearZero
    ensures DecodeVme(NearPositiveZero) == NearVme(false) && VmeAsDecimal(NearVme(false)) == NearPositiveZero
    ensures DecodeVme(NearNegativeZero) == NearVme(true) && VmeAsDecimal(NearVme(true)) == NearNegativeZero
    ensures DecodeVme(PositiveInfinity) == InfVme(false) && VmeAsDecimal(InfVme(false)) == PositiveInfinity
    ensures DecodeVme(NegativeInfinity) == InfVme(true) && VmeAsDecimal(InfVme(true)) == NegativeInfinity
    ensures DecodeVme(NaN) == NaNVme && VmeAsDecimal(NaNVme) == NaN
    ensures DecodeVme(Null) == NullVme && DecodeVme(Zero) == ZeroVme
  {
    DecodeZero();
    Unpack(true, 0, 0);
    Unpack(true, 0, -16);
    Unpack(true, 0, 15);
    Unpack(true, 0, 1);
    assert Pack(true, 0, 0) == 0x4000_0000_0000_0000;
    assert Pack(true, 0, -16) == 0x6000_0000_0000_0000;
    assert Pack(true, 0, 15) == 0x5e00_0000_0000_0000;
    assert Pack(true, 0, 1) == 0x4200_0000_0000_0000;
  }

  /** d.IsNull() and d.IsSet() (decimal.go:369-394). */
  predicate IsNull(d: int64) {
    d == Null
  }

  predicate IsSet(d: int64) {
    d != Null
  }

  /** d.IfNull(default_value) (decimal.go:377-383). */
  function IfNull(d: int64, default: int64): (r: int64)
    ensures IsSet(r) <== IsSet(d) || IsSet(default)
    ensures IsSet(d) ==> r == d
  {
    if d == Null then default else d
  }

  /** d.IsExactlyZero() (decimal.go:402-404): every bit but the sign bit is clear. */
  predicate IsExactlyZero(d: int64) {
    Bits64(d) % Two63 == 0
  }

  lemma ExactlyZeroIff(d: int64)
    ensures IsExactlyZero(d) <==> d == Null || d == Zero
  {
  }

  /** d.IsZero() (decimal.go:412-414). */
  predicate IsZero(d: int64) {
    IsExactlyZero(d) || d == NearZero || d == -NearZero as int || d == NearPositiveZero || d == NearNegativeZero
  }

  /** d.IsExact() (decimal.go:417-419): the loss bit of the magnitude is clear. */
  predicate IsExact(d: int64) {
    !LossOf(Magnitude(d))
  }

  /** d.IsInteger() (decimal.go:422-424): no bit set but the mantissa and the sign. */
  predicate IsInteger(d: int64) {
    Magnitude(d) % Two63 <= MaxInt
  }

  /** d.IsInfinite() (decimal.go:449-451). */
  predicate IsInfinite(d: int64) {
    Magnitude(d) == PositiveInfinity
  }

  /**
   * d.IsNaN() (decimal.go:457-474) reads the top byte of a magnitude whose
   * mantissa is 0. `fixed` selects its upper bound for positive exponents:
   * the source stops below 0x5c, which leaves out exponent 14, the corrected
   * bound 0x5e stops right before infinity.
   */
  predicate IsNaNWith(d: int64, fixed: bool) {
    var u := Magnitude(d);
    u % Two57 == 0 &&
    var top := u / 0x100_0000_0000_0000;
    (0x42 <= top < (if fixed then 0x5e else 0x5c)) || (0x62 <= top <= 0x7e)
  }

  predicate IsNaN(d: int64) {
    IsNaNWith(d, true)
  }

  /** d.IsPositive() and d.IsNegative() (decimal.go:432-446). */
  predicate IsPositive(d: int64) {
    d > 0 && !IsNaN(d)
  }

  predicate IsNegative(d: int64) {
    d != Zero && d != NearZero && d < 0
  }

  /** d.Sign() (decimal.go:482-488). */
  function Sign(d: int64): (s: int)
    ensures s in {-1, 0, 1}
  {
    if IsExactlyZero(d) || d == NearZero then 0
    else 1 - 2 * (Bits64(d) / Two63)
  }

  /** The zero states of core.go:46-58: exact zeros and the three near-zero states. */
  predicate IsZeroKind(t: Vme) {
    KindOf(t) in {ExactZero, Kind.NearZero, NearPositive, NearNegative}
  }

  /** The top byte of the magnitude of a word without mantissa is the loss bit and the exponent field. */
  lemma TopByte(d: int64)
    requires Magnitude(d) % Two57 == 0
    ensures var u := Magnitude(d);
            u / 0x100_0000_0000_0000 == 64 * (u / Two62 % 2) + 2 * (u / Two57 % 32) + 128 * (u / Two63)
  {
    var u := Magnitude(d);
    var f := u / Two57;
    DivModUnique(u, Two57, f, 0);
    DivModUnique(u, 0x100_0000_0000_0000, 2 * f, 0);
    DivModUnique(f, 32, f / 32, f % 32);
    DivModUnique(u, Two62, f / 32, (f % 32) * Two57);
    DivModUnique(f / 32, 2, f / 64, f / 32 % 2);
    DivModUnique(u, Two63, f / 64, (f % 64) * Two57);
  }

  /** With the corrected bound, IsNaN holds exactly of the words that decode to a NaN. */
  lemma IsNaNIff(d: int64)
    ensures IsNaN(d) <==> IsNaNVme(DecodeVme(d))
  {
    var u := Magnitude(d);
    if u % Two57 == 0 {
      TopByte(d);
      NaNTopByte(u / Two62 % 2, u / Two57 % 32, u / Two63);
    }
  }

  /**
   * The top bytes IsNaN accepts, from the loss bit l, the exponent field f
   * and the bit 63 of a magnitude: exactly those with the loss bit and an
   * exponent other than 0 (~0), -16 (±~0) and 15 (±Inf).
   */
  lemma NaNTopByte(l: int, f: int, h: int)
    requires 0 <= l <= 1 && 0 <= f < 32 && 0 <= h <= 1 && (h == 1 ==> l == 0)
    ensures var top := 64 * l + 2 * f + 128 * h;
            (0x42 <= top < 0x5e || 0x62 <= top <= 0x7e) <==> l == 1 && f != 0 && f != 15 && f != 16
  {
  }

  /**
   * As written, IsNaN misses the NaN of exponent 14: the word 0x5c00...,
   * which decodes to (loss, 0, 14), is neither NaN, infinite nor zero, and
   * reads as positive.
   */
  lemma IsNaNMissesExponent14()
    ensures var d: int64 := 0x5c00_0000_0000_0000;
            IsNaNVme(DecodeVme(d)) && !IsNaNWith(d, false) && !IsInfinite(d) && !IsZero(d) &&
            d > 0 && VmeAsDecimal(Vme(LossBit, 0, 14)) == d
  {
    Unpack(true, 0, 14);
    assert Pack(true, 0, 14) == 0x5c00_0000_0000_0000;
  }

  lemma IsInfiniteIff(d: int64)
    ensures IsInfinite(d) <==> IsInfVme(DecodeVme(d))
  {
    if Magnitude(d) % Two57 == 0 {
      TopByte(d);
    }
  }

  lemma IsExactIff(d: int64)
    ensures IsExact(d) <==> !DecodeVme(d).v.loss
  {
  }

  /** Integers are the words with exponent field 0 and no loss: Zero and every d with |d| <= MaxInt. */
  lemma IsIntegerIff(d: int64)
    ensures IsInteger(d) <==> d == Zero || -(MaxInt as int) <= d <= MaxInt
  {
  }

  /**
   * On the words an operation produces (the image of vmeAsDecimal), IsZero
   * holds exactly for the zero states, and IsPositive, IsNegative and Sign
   * follow the sign of every other state.
   */
  lemma EncodedPredicates(t: Vme)
    ensures var d := VmeAsDecimal(t);
            var s := DecodeVme(d);
            (IsZero(d) <==> IsZeroKind(s)) &&
            (IsPositive(d) <==> !s.v.sign && KindOf(s) != ExactZero && KindOf(s) != Kind.NearZero && !IsNaNVme(s)) &&
            (IsNegative(d) <==> s.v.sign && KindOf(s) != ExactZero && KindOf(s) != Kind.NearZero) &&
            (Sign(d) == 0 <==> KindOf(s) == ExactZero || KindOf(s) == Kind.NearZero) &&
            (Sign(d) == -1 <==> s.v.sign && KindOf(s) != ExactZero && KindOf(s) != Kind.NearZero)
  {
    var d := VmeAsDecimal(t);
    EncodedZeroWords(t);
    IsNaNIff(d);
    SignOfBits(d);
  }

  /** Among encoded words, the exact zeros, ~0, +~0 and -~0 are told apart by their kind, and -~0's twin never appears. */
  lemma EncodedZeroWords(t: Vme)
    ensures var d := VmeAsDecimal(t);
            var s := DecodeVme(d);
            (IsExactlyZero(d) <==> KindOf(s) == ExactZero) &&
            (d == NearZero <==> KindOf(s) == Kind.NearZero) &&
            (d == NearPositiveZero <==> KindOf(s) == NearPositive) &&
            (d == NearNegativeZero <==> KindOf(s) == NearNegative) &&
            d != -NearZero as int
  {
    DecodeEncode(t);
    Constants();
    if !(t.m == 0 && !t.v.loss) {
      PackedZeroWords(VmeNormalize(t, MaxInt, MinE, MaxE));
    }
  }

  /** EncodedZeroWords for the word of a normalized tuple that is not an exact zero. */
  lemma PackedZeroWords(r: Vme)
    requires r.m <= MaxInt && MinE <= r.e <= MaxE
    requires (r.m == 0 ==> r.v.loss) && (r.m == 0 && r.e == 0 ==> r.v.sign)
    ensures var w := Pack(r.v.loss, r.m, r.e);
            var d: int64 := if r.v.sign then -(w as int) else w;
            var s := Stored(r);
            (IsExactlyZero(d) <==> KindOf(s) == ExactZero) &&
            (d == NearZero <==> KindOf(s) == Kind.NearZero) &&
            (d == NearPositiveZero <==> KindOf(s) == NearPositive) &&
            (d == NearNegativeZero <==> KindOf(s) == NearNegative) &&
            d != -NearZero as int
  {
    var w := Pack(r.v.loss, r.m, r.e);
    var d: int64 := if r.v.sign then -(w as int) else w;
    ExactlyZeroIff(d);
    Unpack(r.v.loss, r.m, r.e);
    if r.m == 0 {
      NearStates(r);
    } else {
      assert w % Two57 != 0;
      assert Magnitude(d) == w;
    }
  }

  /** The top bit of a word is its sign. */
  lemma SignOfBits(d: int64)
    ensures Bits64(d) / Two63 == if d < 0 then 1 else 0
  {
  }

  /** The words of the normalized tuples with m == 0: only ~0, ±~0, ±Inf and NaN boxes. */
  lemma NearStates(r: Vme)
    requires r.m == 0 && r.v.loss && MinE <= r.e <= MaxE && (r.e == 0 ==> r.v.sign)
    ensures var w := Pack(r.v.loss, r.m, r.e);
            var d: int64 := if r.v.sign then -(w as int) else w;
            (d == NearZero <==> r.e == 0) &&
            (d == NearPositiveZero <==> r.e == MinE && !r.v.sign) &&
            (d == NearNegativeZero <==> r.e == MinE && r.v.sign) &&
            d != -NearZero as int && d != Null && d != Zero
  {
  }

  /** d.Neg() (decimal.go:243-249): Null, Zero and NearZero are their own negation. */
  function Neg(d: int64): (r: int64)
    ensures IsExactlyZero(d) || d == NearZero ==> r == d
  {
    if IsExactlyZero(d) || d == NearZero then d else -d
  }

  /**
   * Negation flips the sign of the tuple and keeps everything else; applied
   * twice it is the identity, except for -NearZero, which the first
   * negation turns into NearZero itself.
   */
  lemma NegFlips(d: int64)
    ensures !IsExactlyZero(d) && d != NearZero ==>
              DecodeVme(Neg(d)) == DecodeVme(d).(v := DecodeVme(d).v.(sign := !DecodeVme(d).v.sign))
    ensures d != -NearZero as int ==> Neg(Neg(d)) == d
  {
  }

  /** Go's d.Abs() (decimal.go:170-176): -d for d < 0, so Zero stays Zero. */
  function Abs(d: int64): (r: int64)
    ensures r == Zero || r >= 0
    ensures Magnitude(r) == Magnitude(d)
  {
    if d < 0 then Neg64(d) else d
  }

  /**
   * d stands exactly for the integer n times 10^k: its loss bit is clear and
   * it is an exact zero for n == 0, or has the sign of n and the value
   * |n| * 10^k.
   */
  predicate Exactly(d: int64, n: int, k: int) {
    var t := DecodeVme(d);
    !t.v.loss &&
    if t.m == 0 then n == 0
    else n != 0 && t.v.sign == (n < 0) && SameValue(t.m, t.e, if n < 0 then -n else n, k)
  }

  /** New(value, exp) (decimal.go:688-697). */
  function New(value: int64, exp: int32): (d: int64)
    ensures d != Null
  {
    if value == 0 then Zero
    else if value < 0 then VmeAsDecimal(Vme(SignBit, -(value as int), exp))
    else VmeAsDecimal(Vme(NoBits, value, exp))
  }

  /** New(value, exp) is value * 10^exp exactly, unless the word reports a loss. */
  lemma NewDenotes(value: int64, exp: int32)
    ensures var s := DecodeVme(New(value, exp));
            !s.v.loss ==> Exactly(New(value, exp), value, exp)
  {
    DecodeZero();
    if value != 0 {
      EncodeKeepsValue(Vme(if value < 0 then SignBit else NoBits, if value < 0 then -(value as int) else value, exp));
    }
  }

  /** NewFromInt(value) (decimal.go:700-718). */
  function NewFromInt(value: int64): (d: int64)
    ensures d != Null
  {
    if value < 0 then
      if value >= -(MaxInt as int) then value else VmeAsDecimal(Vme(SignBit, -(value as int), 0))
    else if value <= MaxInt then (if value == 0 then Zero else value)
    else VmeAsDecimal(Vme(NoBits, value, 0))
  }

  /**
   * NewFromInt is New(value, 0): the integer shortcut of decimal.go:702-711
   * returns the word vmeAsDecimal would build, so the result stands exactly
   * for value unless value needs more than 57 bits.
   */
  lemma NewFromIntIsNew(value: int64)
    ensures NewFromInt(value) == New(value, 0)
    ensures -(MaxInt as int) <= value <= MaxInt ==> Exactly(NewFromInt(value), value, 0)
  {
    DecodeZero();
    if value != 0 && -(MaxInt as int) <= value <= MaxInt {
      IntegerWord(value);
    }
  }

  /** NewFromUint64(value) (decimal.go:721-731). */
  function NewFromUint64(value: uint64): (d: int64)
    ensures d != Null
  {
    if value <= MaxInt then (if value == 0 then Zero else value)
    else VmeAsDecimal(Vme(NoBits, value, 0))
  }

  lemma NewFromUint64Denotes(value: uint64)
    ensures var d := NewFromUint64(value);
            !DecodeVme(d).v.loss ==> Exactly(d, value, 0)
    ensures value <= MaxInt ==> Exactly(NewFromUint64(value), value, 0)
  {
    DecodeZero();
    if value != 0 && value <= MaxInt {
      IntegerWord(value);
    } else if value != 0 {
      EncodeKeepsValue(Vme(NoBits, value, 0));
    }
  }

  /** NewFromInt32(value) (decimal.go:734-741): every int32 is its own word. */
  function NewFromInt32(value: int32): (d: int64)
    ensures d != Null
  {
    if value == 0 then Zero else value
  }

  lemma NewFromInt32Denotes(value: int32)
    ensures Exactly(NewFromInt32(value), value, 0)
    ensures NewFromInt32(value) == NewFromInt(value)
  {
    DecodeZero();
    if value != 0 {
      IntegerWord(value);
    }
  }

  /** The error of IntPartErr: none, or ErrOutOfRange. */
  datatype IntPart = IntPart(i: int64, outOfRange: bool)

  /**
   * The value of t truncated toward zero, when it is no larger than MaxInt in
   * magnitude: m * 10^e for e >= 0, m / 10^-e otherwise.
   */
  function Truncated(t: Vme): (n: Option<int>)
  {
    if t.e >= 0 then
      (if t.m * Pow10(t.e as nat) <= MaxInt then Some(Sgn(t.v.sign, t.m * Pow10(t.e as nat))) else None)
    else Some(Sgn(t.v.sign, t.m / Pow10(-(t.e as int))))
  }

  /**
   * IntPartErr indexes ten_pow with the decoded exponent of every word that
   * is neither an integer nor a magic state: an exact zero whose exponent
   * field is -16 or 15 decodes to a sentinel exponent and makes Go panic.
   */
  predicate IntPartDefined(d: int64) {
    var t := DecodeVme(d);
    t.m != 0 || t.v.loss || MinE <= t.e <= MaxE
  }

  /**
   * d.IntPartErr() (decimal.go:505-559). `fixed` selects the exponent the
   * infinities are recognised by: the source compares the decoded exponent
   * with 15, which decoding has already replaced by MaxInt64, so infinity
   * falls through to the (0, ErrOutOfRange) of the other magic states.
   */
  function IntPartErrWith(d: int64, fixed: bool): (r: IntPart)
    requires IntPartDefined(d)
  {
    if IsInteger(d) then IntPart(if d == Zero then 0 else d, false)
    else IntPartOf(DecodeVme(d), fixed)
  }

  /** IntPartErr past its integer shortcut (decimal.go:514-558), on the decoded tuple. */
  function IntPartOf(t: Vme, fixed: bool): (r: IntPart)
    requires t.m <= MaxInt && (t.m != 0 || t.v.loss || MinE <= t.e <= MaxE)
    requires t.e == MinInt64 || t.e == MaxInt64 || MinE <= t.e <= MaxE
    requires t.m != 0 ==> MinE <= t.e <= MaxE
  {
    if t.v.loss && t.m == 0 then
      if t.e == (if fixed then MaxInt64 else MaxE) then
        IntPart(if t.v.sign then MinInt64 else MaxInt64, true)
      else IntPart(0, true)
    else if t.e == 0 then IntPart(Sgn(t.v.sign, t.m), false)
    else if t.e > 0 then IntPartScaled(t.v.sign, t.m, t.e as nat)
    else IntPartBelow(t.v.sign, t.m, -(t.e as int))
  }

  /** The branch e < 0 of IntPartErr: m / 10^-e, which never leaves the int64 range. */
  function IntPartBelow(negative: bool, m: uint64, k: nat): (r: IntPart)
    requires 0 < k < TenPowLen && m <= MaxInt
    ensures !r.outOfRange && r.i == Sgn(negative, m / Pow10(k))
  {
    var p := TenPow(k);
    DivModBasics(m, p);
    MulMonotone(1, p, m / p);
    IntPart(Sgn(negative, m / p), false)
  }

  /** The branch e > 0 of IntPartErr: m * 10^e when it is at most MaxInt, ErrOutOfRange otherwise. */
  function IntPartScaled(negative: bool, m: uint64, e: nat): (r: IntPart)
    requires e < TenPowLen && m <= MaxInt
    ensures r.outOfRange <==> m * Pow10(e) > MaxInt
    ensures !r.outOfRange ==> r.i == Sgn(negative, m * Pow10(e))
    ensures r.outOfRange ==> r.i == (if negative then MinInt64 else MaxInt64)
  {
    var hl := Mul64(m, TenPow(e));
    Mul64Product(m, TenPow(e));
    if hl.0 == 0 && hl.1 <= MaxInt then IntPart(Sgn(negative, hl.1), false)
    else IntPart(if negative then MinInt64 else MaxInt64, true)
  }

  function IntPartErr(d: int64): (r: IntPart)
    requires IntPartDefined(d)
  {
    IntPartErrWith(d, true)
  }

  /**
   * IntPartErr returns the integer part of every number whose integer part
   * is at most MaxInt in magnitude, and ErrOutOfRange, saturated to the
   * int64 limit of the sign, for the others; ~0, ±~0 and NaN give 0 with
   * ErrOutOfRange, ±Inf the int64 limit of their sign.
   */
  lemma IntPartTruncates(d: int64)
    requires IntPartDefined(d)
    ensures var t := DecodeVme(d);
            var r := IntPartErr(d);
            (t.m != 0 || !t.v.loss ==>
               match Truncated(t)
               case Some(n) => !r.outOfRange && r.i == n
               case None => r.outOfRange && r.i == (if d < 0 then MinInt64 else MaxInt64)) &&
            (t.m == 0 && t.v.loss ==>
               r.outOfRange && r.i == (if IsInfVme(t) then (if d < 0 then MinInt64 else MaxInt64) else 0))
  {
    var t := DecodeVme(d);
    DecodeZero();
    if IsInteger(d) {
      if d != Zero && d != 0 {
        IntegerWord(d);
        assert Truncated(t) == Some(d as int);
      }
    } else {
      IntPartOfTruncates(t);
    }
  }

  /** IntPartErr past its integer shortcut: the truncated value, or the saturated error. */
  lemma IntPartOfTruncates(t: Vme)
    requires t.m <= MaxInt && (t.m != 0 || t.v.loss || MinE <= t.e <= MaxE)
    requires t.e == MinInt64 || t.e == MaxInt64 || MinE <= t.e <= MaxE
    requires t.m != 0 ==> MinE <= t.e <= MaxE
    ensures var r := IntPartOf(t, true);
            (t.m != 0 || !t.v.loss ==>
               match Truncated(t)
               case Some(n) => !r.outOfRange && r.i == n
               case None => r.outOfRange && r.i == (if t.v.sign then MinInt64 else MaxInt64)) &&
            (t.m == 0 && t.v.loss ==>
               r.outOfRange && r.i == (if IsInfVme(t) then (if t.v.sign then MinInt64 else MaxInt64) else 0))
  {
    if !(t.v.loss && t.m == 0) && t.e == 0 {
      assert Pow10(0) == 1;
    }
  }

  /** As written, IntPartErr of positive infinity is 0 and not MaxInt64. */
  lemma IntPartOfInfinity()
    ensures IntPartErrWith(PositiveInfinity, false) == IntPart(0, true)
    ensures IntPartErr(PositiveInfinity) == IntPart(MaxInt64, true)
  {
    Constants();
  }
}
