/**
 * The example of decimal.go:806-809 and of TestSumAvg
 * (decimal_test.go:1082-1088): Sum(1, 1e30, 1, -1e30). Adding the items in
 * order loses both ones inside 1e30 and leaves ~0; the compensation of Sum
 * collects them and the total is ~2, which is Equal to 2.
 */
module SumExample {
  import opened Bits
  import opened Vmes
  import opened Decimals
  import opened DecimalOps
  import opened DecimalAggregates
  import CoreAdd
  import CoreNormalize

  /** 1e30: the mantissa 10^15 at exponent 15. */
  const Big: int64 := 0x1e03_8d7e_a4c6_8000
  /** ~1e30: the same with the loss bit. */
  const NearBig: int64 := 0x5e03_8d7e_a4c6_8000
  /** The negated words -1e30, -~1e30 and -~2, and ~0 negated, ~0 with the sign bit clear. */
  const MinusBig: int64 := -0x1e03_8d7e_a4c6_8000
  const MinusNearBig: int64 := -0x5e03_8d7e_a4c6_8000
  const MinusNearTwo: int64 := -0x4000_0000_0000_0002
  const PlusNearZero: int64 := 0x4000_0000_0000_0000
  /** ~1 and ~2: 1 and 2 with the loss bit. */
  const NearOne: int64 := 0x4000_0000_0000_0001
  const NearTwo: int64 := 0x4000_0000_0000_0002

  const P11: uint64 := 100_000_000_000
  const P15: uint64 := 1_000_000_000_000_000
  const P19: uint64 := 10_000_000_000_000_000_000
  /** The high and low words of the 128-bit product 10^15 * 10^15. */
  const High: uint64 := 54210108624
  const Low: uint64 := 0x4674_edea_4000_0000

  lemma Powers()
    ensures Pow10(11) == P11 && Pow10(15) == P15 && Pow10(19) == P19
  {
    Pow10Limits();
    assert Pow10(11) == P11;
    assert Pow10(15) == P15;
  }

  lemma BigProduct()
    ensures Mul64(P15, P15) == (High, Low)
  {
    var hl := Mul64(P15, P15);
    Mul64Product(P15, P15);
    DivModUnique(P15 * P15, 0x1_0000_0000_0000_0000, hl.0, hl.1);
    DivModUnique(P15 * P15, 0x1_0000_0000_0000_0000, High, Low);
  }

  /** 10^11 is the first power of ten above High; (High, Low) and 1 divided by it. */
  lemma BigQuotients()
    ensures Digits(High) == 11
    ensures Div64(High, Low, P11) == (P19, 0)
    ensures Div64(0, 1, P11) == (0, 1)
  {
    var qr, qr' := Div64(High, Low, P11), Div64(0, 1, P11);
    Div64Product(High, Low, P11);
    Div64Product(0, 1, P11);
    DivModUnique(High * 0x1_0000_0000_0000_0000 + Low, P11, qr.0, qr.1);
    DivModUnique(High * 0x1_0000_0000_0000_0000 + Low, P11, P19, 0);
  }

  /** A word built with Pack decodes to the tuple it packs. */
  lemma DecodeWord(negative: bool, loss: bool, m: uint64, e: int)
    requires m <= MaxInt && -16 <= e <= 15 && (m != 0 || loss) && (m == 0 ==> e == 0)
    ensures var w := Pack(loss, m, e);
            DecodeVme(if negative then -(w as int) else w) == Vme(V(negative, loss, 0), m, e)
  {
    Unpack(loss, m, e);
  }

  /** The tuples of 1e30 and ~1e30, of either sign. */
  lemma DecodedBig()
    ensures DecodeVme(Big) == Vme(NoBits, P15, 15)
    ensures DecodeVme(MinusBig) == Vme(SignBit, P15, 15)
    ensures DecodeVme(NearBig) == Vme(V(false, true, 0), P15, 15)
    ensures DecodeVme(MinusNearBig) == Vme(SignLoss, P15, 15)
  {
    DecodeWord(false, false, P15, 15);
    DecodeWord(true, false, P15, 15);
    DecodeWord(false, true, P15, 15);
    DecodeWord(true, true, P15, 15);
  }

  /** The tuples of the small words of the example. */
  lemma DecodedSmall()
    ensures DecodeVme(1) == Vme(NoBits, 1, 0)
    ensures DecodeVme(-1) == Vme(SignBit, 1, 0)
    ensures DecodeVme(-2) == Vme(SignBit, 2, 0)
    ensures DecodeVme(NearOne) == Vme(V(false, true, 0), 1, 0)
    ensures DecodeVme(NearTwo) == Vme(V(false, true, 0), 2, 0)
  {
    DecodeWord(false, false, 1, 0);
    DecodeWord(true, false, 1, 0);
    DecodeWord(true, false, 2, 0);
    DecodeWord(false, true, 1, 0);
    DecodeWord(false, true, 2, 0);
  }

  /** The tuples of the zeros: ~0, its negation, and Zero. */
  lemma DecodedZeros()
    ensures DecodeVme(Decimals.NearZero) == NearZeroVme
    ensures DecodeVme(PlusNearZero) == Vme(V(false, true, 0), 0, 0)
    ensures DecodeVme(Zero) == ZeroVme
  {
    DecodeWord(true, true, 0, 0);
    DecodeWord(false, true, 0, 0);
    DecodeZero();
  }

  /**
   * 1 and 1e30, whatever their signs and loss bits: 10^15 scaled by 10^15
   * needs 128 bits, so both mantissas are divided by 10^11; the 1 is lost
   * and the loss bit set, the sign is that of 1e30.
   */
  lemma AddOneAndBig(s1: bool, l1: bool, s2: bool, l2: bool)
    ensures CoreAdd.VmeAdd(Vme(V(s1, l1, 0), 1, 0), Vme(V(s2, l2, 0), P15, 15)) == Vme(V(s2, true, 0), P19, 11)
    ensures CoreAdd.VmeAdd(Vme(V(s2, l2, 0), P15, 15), Vme(V(s1, l1, 0), 1, 0)) == Vme(V(s2, true, 0), P19, 11)
  {
    var one, big := Vme(V(s1, l1, 0), 1, 0), Vme(V(s2, l2, 0), P15, 15);
    ShiftedOneAndBig(one.v, big.v);
    CombineLost(one.v, big.v);
    assert CoreAdd.AddOrdinary(V(false, false, 0), one, big, true) == Vme(V(s2, true, 0), P19, 11);
  }

  /** The scaling step: 10^15 * 10^15 is divided by 10^11, and 1 by 10^11 leaves the remainder 1. */
  lemma ShiftedOneAndBig(v1: V, v2: V)
    ensures CoreAdd.AddShifted(V(false, false, 0), Vme(v1, 1, 0), Vme(v2, P15, 15), 15, true) ==
            CoreAdd.Combine(V(false, true, 0), v1, 0, v2, P19, 11, true)
  {
    Powers();
    BigProduct();
    assert CoreAdd.ScaleIndex(High, 15) == 11 by {
      BigQuotients();
    }
    DividedOneAndBig(v1, v2);
  }

  lemma DividedOneAndBig(v1: V, v2: V)
    ensures CoreAdd.AddScaled(V(false, false, 0), Vme(v1, 1, 0), v2, High, Low, P11, 11, true) ==
            CoreAdd.Combine(V(false, true, 0), v1, 0, v2, P19, 11, true)
  {
    BigQuotients();
  }

  /** The aligned mantissas 0 and 10^19: the sum is 10^19 with the sign of the second and the loss bit. */
  lemma CombineLost(v1: V, v2: V)
    requires v2.unit == 0
    ensures CoreAdd.Combine(V(false, true, 0), v1, 0, v2, P19, 11, true) == Vme(V(v2.sign, true, 0), P19, 11)
  {
  }

  /** ~1e30 at exponent 11: five divisions by 10 and a scaling by 10 bring it back to 10^15 at exponent 15. */
  lemma NormalizeBig(s: bool)
    ensures CoreNormalize.VmeNormalize(Vme(V(s, true, 0), P19, 11), MaxInt, MinE, MaxE) == Vme(V(s, true, 0), P15, 15)
    ensures CoreNormalize.VmeNormalize(Vme(V(s, true, 0), P15, 15), MaxInt, MinE, MaxE) == Vme(V(s, true, 0), P15, 15)
  {
    var v := V(s, true, 0);
    LoopBig(v);
    ScaleBig(v);
  }

  /** The loop of the normalizer divides the trailing zeros out until the exponent passes 15. */
  lemma LoopBig(v: V)
    requires v.loss
    ensures CoreNormalize.NormalizeLoop(v, P19, 11, MaxInt, MaxE) == Vme(v, P15 / 10, 16)
    ensures CoreNormalize.NormalizeLoop(v, P15, 15, MaxInt, MaxE) == Vme(v, P15 / 10, 16)
  {
    assert CoreNormalize.NormalizeLoop(v, P15, 15, MaxInt, MaxE) == CoreNormalize.NormalizeLoop(v, P15 / 10, 16, MaxInt, MaxE);
    assert CoreNormalize.NormalizeLoop(v, P19 / 1000, 14, MaxInt, MaxE) == CoreNormalize.NormalizeLoop(v, P15, 15, MaxInt, MaxE);
    assert CoreNormalize.NormalizeLoop(v, P19 / 100, 13, MaxInt, MaxE) == CoreNormalize.NormalizeLoop(v, P19 / 1000, 14, MaxInt, MaxE);
    assert CoreNormalize.NormalizeLoop(v, P19 / 10, 12, MaxInt, MaxE) == CoreNormalize.NormalizeLoop(v, P19 / 100, 13, MaxInt, MaxE);
    assert CoreNormalize.NormalizeLoop(v, P19, 11, MaxInt, MaxE) == CoreNormalize.NormalizeLoop(v, P19 / 10, 12, MaxInt, MaxE);
  }

  /** The exponent 16 is one above 15: the mantissa is scaled back by 10. */
  lemma ScaleBig(v: V)
    ensures CoreNormalize.VmeNormalizeExponent(v, P15 / 10, 16, MaxInt, MinE, MaxE) == Vme(v, P15, 15)
  {
    Mul64Product(P15 / 10, 10);
  }

  /** The word of a tuple that is not an exact zero is the packed form of its normalization. */
  lemma EncodeWord(t: Vme, r: Vme)
    requires t.m != 0 || t.v.loss
    requires CoreNormalize.VmeNormalize(t, MaxInt, MinE, MaxE) == r
    ensures var w := Pack(r.v.loss, r.m, r.e);
            NonNullDecimal(t) == if r.v.sign then -(w as int) else w
  {
  }

  /** 1e30 is New(1, 30): the exponent 30 is brought down to 15 by scaling the mantissa by 10^15. */
  lemma NewBig()
    ensures New(1, 30) == Big && New(-1, 30) == MinusBig
  {
    Powers();
    Mul64Product(1, P15);
    EncodeWord(Vme(NoBits, 1, 30), Vme(NoBits, P15, 15));
    EncodeWord(Vme(SignBit, 1, 30), Vme(SignBit, P15, 15));
  }

  /** 1 plus 1e30 or -1e30: the 1 is lost. */
  lemma OnePlusBig()
    ensures Add(1, Big) == NearBig
    ensures Add(1, MinusBig) == MinusNearBig
  {
    DecodedBig();
    DecodedSmall();
    AddOneAndBig(false, false, false, false);
    AddOneAndBig(false, false, true, false);
    NormalizeBig(false);
    NormalizeBig(true);
    EncodeWord(Vme(V(false, true, 0), P19, 11), Vme(V(false, true, 0), P15, 15));
    EncodeWord(Vme(V(true, true, 0), P19, 11), Vme(V(true, true, 0), P15, 15));
  }

  /** ~1e30 plus 1 or -1: the 1 is lost. */
  lemma NearBigPlusOne()
    ensures Add(NearBig, 1) == NearBig
    ensures Add(NearBig, -1) == NearBig
  {
    DecodedBig();
    DecodedSmall();
    AddOneAndBig(false, false, false, true);
    AddOneAndBig(true, false, false, true);
    NormalizeBig(false);
    EncodeWord(Vme(V(false, true, 0), P19, 11), Vme(V(false, true, 0), P15, 15));
  }

  /** Opposite operands of equal magnitude leave ~0, because one of them is inexact. */
  lemma Cancellations()
    ensures Add(Big, MinusNearBig) == Decimals.NearZero
    ensures Add(NearBig, MinusNearBig) == Decimals.NearZero
    ensures Add(NearBig, MinusBig) == Decimals.NearZero
    ensures Add(NearTwo, -2) == Decimals.NearZero
  {
    DecodedBig();
    DecodedSmall();
    CoreAdd.AddCancels(Vme(NoBits, P15, 15), Vme(SignLoss, P15, 15));
    CoreAdd.AddCancels(Vme(V(false, true, 0), P15, 15), Vme(SignLoss, P15, 15));
    CoreAdd.AddCancels(Vme(V(false, true, 0), P15, 15), Vme(SignBit, P15, 15));
    CoreAdd.AddCancels(Vme(V(false, true, 0), 2, 0), Vme(SignBit, 2, 0));
    EncodeWord(NearZeroVme, NearZeroVme);
  }

  /** ~0 added to an ordinary operand leaves it, with the loss bit set. */
  lemma NearZeroPlusOne()
    ensures Add(Decimals.NearZero, 1) == NearOne
  {
    DecodedSmall();
    DecodedZeros();
    EncodeWord(Vme(V(false, true, 0), 1, 0), Vme(V(false, true, 0), 1, 0));
  }

  lemma NearZeroPlusTwo()
    ensures Add(NearTwo, Decimals.NearZero) == NearTwo
    ensures Add(Decimals.NearZero, NearTwo) == NearTwo
    ensures Add(Decimals.NearZero, -2) == MinusNearTwo
  {
    DecodedSmall();
    DecodedZeros();
    EncodeWord(Vme(V(false, true, 0), 2, 0), Vme(V(false, true, 0), 2, 0));
    EncodeWord(Vme(SignLoss, 2, 0), Vme(SignLoss, 2, 0));
  }

  lemma NearZeroPlusBig()
    ensures Add(NearBig, PlusNearZero) == NearBig
  {
    DecodedBig();
    DecodedZeros();
    NormalizeBig(false);
    EncodeWord(Vme(V(false, true, 0), P15, 15), Vme(V(false, true, 0), P15, 15));
  }

  /** Sums with an exact zero, and ~1 + ~1. */
  lemma SmallSums()
    ensures Add(Zero, NearOne) == NearOne
    ensures Add(Zero, 1) == 1
    ensures Add(NearOne, NearOne) == NearTwo
  {
    DecodedSmall();
    DecodedZeros();
    EncodeWord(Vme(V(false, true, 0), 1, 0), Vme(V(false, true, 0), 1, 0));
    EncodeWord(Vme(NoBits, 1, 0), Vme(NoBits, 1, 0));
    EncodeWord(Vme(V(false, true, 0), 2, 0), Vme(V(false, true, 0), 2, 0));
  }

  /** The magnitudes of the items. */
  lemma Magnitudes()
    ensures Abs(1) == 1 && Abs(Big) == Big && Abs(MinusBig) == Big && Abs(NearBig) == NearBig
  {
  }

  /** 1 - 1e30 is -~1e30: 1 is below 1e30, and the first step takes the second branch. */
  lemma OneBelowBig()
    ensures !GreaterThanOrEqual(1, Big)
  {
    OnePlusBig();
    WordTests();
  }

  /** ~1e30 - 1 is ~1e30 and ~1e30 - 1e30 is ~0: the second and third steps take the first branch. */
  lemma NearBigAbove()
    ensures GreaterThanOrEqual(NearBig, 1)
    ensures GreaterThanOrEqual(NearBig, Big)
  {
    NearBigPlusOne();
    Cancellations();
    WordTests();
  }

  /** -~1e30 is negative and no zero state, ~0 is a zero state, -~2 is not. */
  lemma WordTests()
    ensures !IsZero(MinusNearBig) && !IsPositive(MinusNearBig)
    ensures IsPositive(NearBig)
    ensures IsZero(Decimals.NearZero)
    ensures !IsZero(MinusNearTwo)
    ensures !IsExact(NearTwo)
  {
    assert Bits64(MinusNearBig) == 0x1_0000_0000_0000_0000 - NearBig;
    assert Bits64(MinusNearTwo) == 0x1_0000_0000_0000_0000 - NearTwo;
    assert Magnitude(NearBig) % Two57 != 0;
  }

  /** The first step: 1 + 1e30 is ~1e30, and (1e30 - ~1e30) + 1 = ~1 goes to the compensation. */
  lemma FirstStep()
    ensures SumStep(Running(1, Zero), Big) == Running(NearBig, NearOne)
  {
    Magnitudes();
    OneBelowBig();
    OnePlusBig();
    Cancellations();
    NearZeroPlusOne();
    SmallSums();
  }

  /** The second step: ~1e30 + 1 is ~1e30, and (~1e30 - ~1e30) + 1 = ~1 joins the compensation. */
  lemma SecondStep()
    ensures SumStep(Running(NearBig, NearOne), 1) == Running(NearBig, NearTwo)
  {
    Magnitudes();
    NearBigAbove();
    NearBigPlusOne();
    Cancellations();
    NearZeroPlusOne();
    SmallSums();
  }

  /** The third step: ~1e30 - 1e30 is ~0, and (~1e30 - ~0) - 1e30 = ~0 leaves the compensation at ~2. */
  lemma ThirdStep()
    ensures SumStep(Running(NearBig, NearTwo), MinusBig) == Running(Decimals.NearZero, NearTwo)
  {
    Magnitudes();
    NearBigAbove();
    Cancellations();
    NearZeroPlusTwo();
    NearZeroPlusBig();
  }

  /** ~2 - 2 is ~0, so ~2 is Equal to 2; ~0 - 2 is -~2, so ~0 is not. */
  lemma EqualToTwo()
    ensures Equal(NearTwo, 2) && !Equal(Decimals.NearZero, 2)
  {
    Cancellations();
    NearZeroPlusTwo();
    WordTests();
  }

  /**
   * Sum(1, 1e30, 1, -1e30) (decimal.go:809, decimal_test.go:1082-1088):
   * the running sum ends at ~0 and the compensation at ~2, so the total is
   * ~2, inexact and Equal to 2.
   */
  lemma SumCompensates()
    ensures New(1, 30) == Big && New(-1, 30) == MinusBig
    ensures var s := SumFold(Running(1, Zero), [Big, 1, MinusBig]);
            s == Running(Decimals.NearZero, NearTwo) && Add(s.sum, s.c) == NearTwo
    ensures !IsExact(NearTwo) && Equal(NearTwo, 2)
  {
    NewBig();
    FoldOfItems();
    NearZeroPlusTwo();
    WordTests();
    EqualToTwo();
  }

  /** The fold over the three items, one step at a time. */
  lemma FoldOfItems()
    ensures SumFold(Running(1, Zero), [Big, 1, MinusBig]) == Running(Decimals.NearZero, NearTwo)
  {
    FirstStep();
    FoldOfLastTwo();
    FoldFirst(Running(1, Zero), Big, [1, MinusBig]);
  }

  lemma FoldOfLastTwo()
    ensures SumFold(Running(NearBig, NearOne), [1, MinusBig]) == Running(Decimals.NearZero, NearTwo)
  {
    SecondStep();
    FoldOfLast();
    FoldFirst(Running(NearBig, NearOne), 1, [MinusBig]);
  }

  lemma FoldOfLast()
    ensures SumFold(Running(NearBig, NearTwo), [MinusBig]) == Running(Decimals.NearZero, NearTwo)
  {
    ThirdStep();
    FoldFirst(Running(NearBig, NearTwo), MinusBig, []);
  }

  /** The fold over a non-empty sequence is a step on its first item and the fold over the rest. */
  lemma FoldFirst(r: Running, a: int64, rest: seq<int64>)
    ensures SumFold(r, [a] + rest) == SumFold(SumStep(r, a), rest)
  {
    assert ([a] + rest)[1..] == rest;
  }

  /**
   * The naive sum of the test (decimal_test.go:1090-1094), Zero plus each
   * item in turn, loses both ones and ends at ~0, which is not Equal to 2.
   */
  lemma NaiveSumLoses()
    ensures Add(Add(Add(Add(Zero, 1), Big), 1), MinusBig) == Decimals.NearZero
    ensures !Equal(Decimals.NearZero, 2)
  {
    SmallSums();
    OnePlusBig();
    NearBigPlusOne();
    Cancellations();
    EqualToTwo();
  }

  /** The Sum method on the items of the test returns ~2. */
  method CompensatedTotal() returns (total: int64)
    ensures total == NearTwo && Equal(total, 2)
  {
    SumCompensates();
    total := Sum(1, [Big, 1, MinusBig]);
  }
}
