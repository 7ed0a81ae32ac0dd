/**
 * The text parser vmeFromBytes (core.go:233-385): trims the blanks, drops
 * one pair of matching quotes, reads an optional '~' (inexact), an optional
 * sign and a second optional '~', then a run of digits with at most one
 * '.', an optional exponent introduced by 'e' or 'E', and hands what is
 * left to the unit and magic-word reader of the Units module.
 *
 * The scan is specified by the functions ScanLoop and Exponent over a scan
 * state and implemented by the methods ScanNumber and ScanExponent, whose
 * loops mirror the source's. The flag `fixed` selects between the code as
 * written (false) and the corrected reading of two lines (true); the rest
 * of the model uses the corrected one.
 */
module TextParse {
  import opened Bits
  import opened Vmes
  import opened Runes
  import opened Units
  import Decimals

  const Quote: byte := 0x22
  const Apostrophe: byte := 0x27
  const Plus: byte := 0x2b
  const Minus: byte := 0x2d
  const Dot: byte := 0x2e
  const Zero: byte := 0x30
  const Tilde: byte := 0x7e

  predicate IsDigit(c: byte) {
    Zero <= c <= 0x39
  }

  /** `(c | 0x20) == 'e'`: setting bit 5 maps exactly 'E' and 'e' to 'e'. */
  predicate IsExponentMark(c: byte) {
    c == 0x45 || c == 0x65
  }

  predicate AllDigits(s: seq<byte>) {
    forall k :: 0 <= k < |s| ==> IsDigit(s[k])
  }

  /**
   * The variables the scan loop updates: the sign and loss bits, the
   * mantissa, the exponent, whether a '.' was seen (doti >= 0 in the
   * source) and whether a digit was seen (parsedDigit). The corrected
   * scan also remembers whether a digit was already dropped (full), which
   * the source gets for free from its test on the high word.
   */
  datatype Scan = Scan(v: V, m: uint64, e: int64, dot: bool, digit: bool, full: bool)

  /** Where the scan stopped and in which state, or the two ways it can end early. */
  datatype ScanResult = Stopped(i: int, st: Scan) | SyntaxError | IndexPanic

  /**
   * One digit d (core.go:295-318). While m * 10 + d fits in 64 bits it is
   * appended to the mantissa, and a digit after the '.' lowers the exponent;
   * otherwise the digit is dropped and an integer digit raises the exponent.
   * As written (fixed == false) the test is only that the high word of
   * m * 10 is 0, so m * 10 + d can still wrap; once that test fails it
   * fails for every later digit, since m no longer changes. As written a
   * dropped non-zero digit sets the loss bit only while e >= 0 (core.go:311),
   * that is before the '.' or right after it, so digits dropped further
   * into the fraction are lost without a trace. The corrected step tests
   * the addition too, keeps dropping once a digit was dropped (full), so
   * that a later digit small enough to fit is not appended behind the
   * dropped one, and sets the loss bit for every dropped non-zero digit.
   */
  function DigitStep(st: Scan, d: nat, fixed: bool): (st': Scan)
    requires d < 10
    ensures st'.dot == st.dot && st'.digit
    ensures fixed ==> st'.m >= st.m
    ensures fixed && (st.full || st.m * 10 + d >= Decimals.Two64) ==>
              st'.full && st'.m == st.m && st'.v.sign == st.v.sign && (st'.v.loss <==> st.v.loss || d != 0)
  {
    var p := st.m * 10;
    if p < Decimals.Two64 && (!fixed || (!st.full && p + d < Decimals.Two64)) then
      st.(m := if p + d < Decimals.Two64 then p + d else p + d - Decimals.Two64,
          e := if st.dot && st.e <= 0 then Wrap64(st.e - 1)
               else if !st.dot && st.e > 0 then Wrap64(st.e + 1)
               else st.e,
          digit := true)
    else
      st.(v := if d != 0 && (fixed || st.e >= 0) then st.v.(loss := true) else st.v,
          e := if !st.dot then Wrap64(st.e + 1) else st.e,
          digit := true,
          full := true)
  }

  /** The digits of an exponent (core.go:349-352), accumulated into a wrapping int64. */
  function ExpDigits(b: seq<byte>, j: int, i: nat, acc: int64): (r: (nat, int64))
    requires j < |b| && i <= j + 1
    ensures i <= r.0 <= j + 1
    ensures r.0 <= j ==> !IsDigit(b[r.0])
    decreases j + 1 - i
  {
    if i <= j && IsDigit(b[i]) then ExpDigits(b, j, i + 1, Wrap64(10 * acc + (b[i] - Zero)))
    else (i, acc)
  }

  /**
   * Whether an exponent follows the mark at i (core.go:333). As written
   * the guard is `i < j && next == '-' || next == '+' || isDigit(next)`:
   * the bound only covers the first test, so with the mark at the last byte
   * the next byte is read past the end. The corrected guard puts the bound
   * in front of all three tests.
   */
  predicate ExponentFollows(b: seq<byte>, j: int, i: nat, fixed: bool)
    requires i <= j < |b| && (fixed || i < j || i + 1 < |b|)
  {
    if i < j then b[i + 1] == Minus || b[i + 1] == Plus || IsDigit(b[i + 1])
    else !fixed && (b[i + 1] == Plus || IsDigit(b[i + 1]))
  }

  /** The case of core.go:332-359: an exponent mark at i. */
  function Exponent(b: seq<byte>, j: int, i: nat, st: Scan, fixed: bool): (r: ScanResult)
    requires i <= j < |b|
    ensures r.Stopped? ==> i <= r.i <= j + 1
    ensures fixed ==> !r.IndexPanic?
  {
    if !fixed && i == j && i + 1 == |b| then IndexPanic
    else if !ExponentFollows(b, j, i, fixed) then Stopped(i, st)
    else
      var negative := b[i + 1] == Minus;
      var k := if b[i + 1] == Plus || b[i + 1] == Minus then i + 2 else i + 1;
      if k > j || !IsDigit(b[k]) then SyntaxError
      else
        var (n, x) := ExpDigits(b, j, k, 0);
        Stopped(n, st.(e := if negative then Wrap64(st.e - x) else Wrap64(st.e + x)))
  }

  /** The loop of core.go:293-365 from index i up to and including j. */
  function ScanLoop(b: seq<byte>, j: int, i: nat, st: Scan, fixed: bool): (r: ScanResult)
    requires j < |b| && i <= j + 1
    ensures r.Stopped? ==> i <= r.i <= j + 1
    ensures fixed ==> !r.IndexPanic?
    decreases j + 1 - i
  {
    if i > j then Stopped(i, st)
    else
      var c := b[i];
      if IsDigit(c) then ScanLoop(b, j, i + 1, DigitStep(st, c - Zero, fixed), fixed)
      else if c == Dot then
        if st.dot then SyntaxError else ScanLoop(b, j, i + 1, st.(dot := true), fixed)
      else if IsExponentMark(c) then Exponent(b, j, i, st, fixed)
      else Stopped(i, st)
  }

  /**
   * The fix-up of a zero mantissa (core.go:367-381): an inexact zero
   * becomes near-zero after a sign, and -~0 after digits alone; an exact
   * zero with digits becomes Zero.
   */
  function ZeroFixed(st: Scan, parsedSign: bool): (t: Vme)
    ensures st.m != 0 ==> t == Vme(st.v, st.m, st.e)
    ensures st.m == 0 && !st.v.loss && st.digit ==> t == ZeroVme
    ensures st.m == 0 && st.v.loss && parsedSign ==> t == Vme(st.v, 0, MinInt64)
  {
    if st.m != 0 then Vme(st.v, st.m, st.e)
    else if st.v.loss then
      if parsedSign then Vme(st.v, 0, MinInt64)
      else if st.digit then Vme(st.v.(sign := true), 0, 0)
      else Vme(st.v, 0, st.e)
    else if st.digit then ZeroVme
    else Vme(st.v, 0, st.e)
  }

  /** The first and last index to read (core.go:237-247): inside one pair of matching quotes. */
  function Bounds(b: seq<byte>): (ij: (nat, int))
    ensures ij.1 < |b| && ij.0 <= ij.1 + 1
    ensures ij.1 == |b| - 1 - ij.0
  {
    var j := |b| - 1;
    if 0 < j && ((b[0] == Quote && b[j] == Quote) || (b[0] == Apostrophe && b[j] == Apostrophe)) then (1, j - 1)
    else (0, j)
  }

  /** Where the scan starts after the prefix, the sign and loss bits it set, and whether a sign was read. */
  datatype Prefix = Prefix(i: nat, v: V, parsedSign: bool)

  /**
   * The prefix '~', sign, '~' (core.go:248-291): None when the input ends
   * inside it, which is a syntax error.
   */
  function SignPrefix(b: seq<byte>, i: nat, j: int): (p: Option<Prefix>)
    requires i <= j < |b|
    ensures p.Some? ==> i <= p.value.i <= j && p.value.i <= i + 3
  {
    var loss := b[i] == Tilde;
    var i1 := if loss then i + 1 else i;
    if i1 > j then None
    else
      var parsedSign := b[i1] == Plus || b[i1] == Minus;
      var i2 := if parsedSign then i1 + 1 else i1;
      if i2 > j then None
      else
        var i3 := if b[i2] == Tilde then i2 + 1 else i2;
        if i3 > j then None
        else Some(Prefix(i3, V(b[i1] == Minus, loss || b[i2] == Tilde, 0), parsedSign))
  }

  /** The prefix, then the scan and the unit suffix. */
  function Signed(b: seq<byte>, i: nat, j: int, units: seq<Unit>, fixed: bool): (r: Option<Scanned>)
    requires i <= j < |b|
    ensures fixed ==> r.Some?
    ensures SignPrefix(b, i, j).None? ==> r == Some(Scanned(NullVme, ErrSyntax))
  {
    match SignPrefix(b, i, j)
    case None => Some(Scanned(NullVme, ErrSyntax))
    case Some(p) => Tail(b, j, p.i, Scan(p.v, 0, 0, false, false, false), p.parsedSign, units, fixed)
  }

  /** The scan from i on, the fix-up of a zero mantissa and the unit suffix (core.go:293-384). */
  function Tail(b: seq<byte>, j: int, i: nat, st: Scan, parsedSign: bool, units: seq<Unit>, fixed: bool): (r: Option<Scanned>)
    requires i <= j < |b|
    ensures fixed ==> r.Some?
  {
    match ScanLoop(b, j, i, st, fixed)
    case SyntaxError => Some(Scanned(NullVme, ErrSyntax))
    case IndexPanic => None
    case Stopped(k, end) => Some(UnitOrMagic(b[k..j + 1], ZeroFixed(end, parsedSign), units))
  }

  /**
   * vmeFromBytes(input, units): the tuple read and the error, or None
   * where the code as written indexes past the end of the input.
   */
  function FromBytesWith(input: seq<byte>, units: seq<Unit>, fixed: bool): (r: Option<Scanned>)
    ensures fixed ==> r.Some?
  {
    var b := TrimSpace(input);
    var (i, j) := Bounds(b);
    if i > j then Some(Scanned(NullVme, NoError))
    else Signed(b, i, j, units, fixed)
  }

  /** The corrected parser, which the rest of the model uses. */
  function FromBytes(input: seq<byte>, units: seq<Unit>): Scanned {
    FromBytesWith(input, units, true).value
  }

  /** The exponent case as the source runs it, with the corrected guard. */
  method ScanExponent(b: seq<byte>, j: int, i0: nat, st: Scan) returns (r: ScanResult)
    requires i0 <= j < |b|
    ensures r == Exponent(b, j, i0, st, true)
  {
    var i := i0;
    if !(i < j && (b[i + 1] == Minus || b[i + 1] == Plus || IsDigit(b[i + 1]))) {
      return Stopped(i, st);
    }
    var negative := false;
    i := i + 1;
    if b[i] == Plus {
      i := i + 1;
    } else if b[i] == Minus {
      negative := true;
      i := i + 1;
    }
    if i > j || !IsDigit(b[i]) {
      return SyntaxError;
    }
    var n, x := ExponentDigits(b, j, i);
    var e := if negative then Wrap64(st.e - x) else Wrap64(st.e + x);
    return Stopped(n, st.(e := e));
  }

  /** The loop of core.go:349-352 over the digits of an exponent. */
  method ExponentDigits(b: seq<byte>, j: int, i0: nat) returns (i: nat, x: int64)
    requires i0 <= j + 1 && j < |b|
    ensures (i, x) == ExpDigits(b, j, i0, 0)
  {
    i, x := i0, 0;
    while i <= j && IsDigit(b[i])
      invariant i0 <= i <= j + 1
      invariant ExpDigits(b, j, i, x) == ExpDigits(b, j, i0, 0)
      decreases j + 1 - i
    {
      x := Wrap64(10 * x + (b[i] - Zero));
      i := i + 1;
    }
  }

  /** The scan loop as the source runs it, with the corrected overflow test. */
  method ScanNumber(b: seq<byte>, j: int, i0: nat, st0: Scan) returns (r: ScanResult)
    requires j < |b| && i0 <= j + 1
    ensures r == ScanLoop(b, j, i0, st0, true)
  {
    var i := i0;
    var v: V, m: uint64, e: int64 := st0.v, st0.m, st0.e;
    var dot, digit, full := st0.dot, st0.digit, st0.full;
    while i <= j
      invariant i0 <= i <= j + 1
      invariant ScanLoop(b, j, i, Scan(v, m, e, dot, digit, full), true) == ScanLoop(b, j, i0, st0, true)
      decreases j + 1 - i
    {
      var c := b[i];
      if IsDigit(c) {
        ghost var st := Scan(v, m, e, dot, digit, full);
        digit := true;
        var d := c - Zero;
        // bits.Mul64(m, 10) has a zero high word exactly when m * 10 < 2^64
        var p := m * 10;
        if !full && p + d < Decimals.Two64 {
          m := p + d;
          if dot && e <= 0 {
            e := Wrap64(e - 1);
          } else if !dot && e > 0 {
            e := Wrap64(e + 1);
          }
        } else {
          if d != 0 {
            v := v.(loss := true);
          }
          if !dot {
            e := Wrap64(e + 1);
          }
          full := true;
        }
        assert Scan(v, m, e, dot, digit, full) == DigitStep(st, d as nat, true);
        i := i + 1;
      } else if c == Dot {
        if dot {
          return SyntaxError;
        }
        dot := true;
        i := i + 1;
      } else if IsExponentMark(c) {
        r := ScanExponent(b, j, i, Scan(v, m, e, dot, digit, full));
        return;
      } else {
        break;
      }
    }
    return Stopped(i, Scan(v, m, e, dot, digit, full));
  }

  /** vmeFromBytes as the source runs it, with both corrections. */
  method FromBytesScan(input: seq<byte>, units: seq<Unit>) returns (s: Scanned)
    ensures s == FromBytes(input, units)
  {
    var b := TrimSpace(input);
    var i: nat := 0;
    var j: int := |b| - 1;
    if i < j && ((b[i] == Quote && b[j] == Quote) || (b[i] == Apostrophe && b[j] == Apostrophe)) {
      i := i + 1;
      j := j - 1;
    }
    if i > j {
      return Scanned(NullVme, NoError);
    }
    s := SignedScan(b, i, j, units);
  }

  /** core.go:248-291: the prefix, then the scan. */
  method SignedScan(b: seq<byte>, i0: nat, j: int, units: seq<Unit>) returns (s: Scanned)
    requires i0 <= j < |b|
    ensures Some(s) == Signed(b, i0, j, units, true)
  {
    var p := PrefixScan(b, i0, j);
    if p.None? {
      return Scanned(NullVme, ErrSyntax);
    }
    s := TailScan(b, j, p.value.i, Scan(p.value.v, 0, 0, false, false, false), p.value.parsedSign, units);
  }

  /** core.go:248-291: an optional '~', an optional sign, an optional '~', each of which may end the input. */
  method PrefixScan(b: seq<byte>, i0: nat, j: int) returns (p: Option<Prefix>)
    requires i0 <= j < |b|
    ensures p == SignPrefix(b, i0, j)
  {
    var i := i0;
    var v := NoBits;
    if b[i] == Tilde {
      v := v.(loss := true);
      i := i + 1;
      if i > j {
        return None;
      }
    }
    ghost var i1 := i;
    var parsedSign := false;
    if b[i] == Plus {
      parsedSign := true;
      i := i + 1;
      if i > j {
        return None;
      }
    } else if b[i] == Minus {
      v := v.(sign := true);
      parsedSign := true;
      i := i + 1;
      if i > j {
        return None;
      }
    }
    assert v == V(b[i1] == Minus, b[i0] == Tilde, 0) && parsedSign == (b[i1] == Plus || b[i1] == Minus);
    if b[i] == Tilde {
      v := v.(loss := true);
      i := i + 1;
      if i > j {
        return None;
      }
    }
    p := Some(Prefix(i, v, parsedSign));
  }

  /** core.go:293-384: the scan loop, the fix-up of a zero mantissa and the unit suffix. */
  method TailScan(b: seq<byte>, j: int, i: nat, st: Scan, parsedSign: bool, units: seq<Unit>) returns (s: Scanned)
    requires i <= j < |b|
    ensures Some(s) == Tail(b, j, i, st, parsedSign, units, true)
  {
    var r := ScanNumber(b, j, i, st);
    if r.SyntaxError? || r.IndexPanic? {
      return Scanned(NullVme, ErrSyntax);
    }
    var v, m, e := r.st.v, r.st.m, r.st.e;
    if m == 0 {
      if v.loss {
        if parsedSign {
          e := MinInt64;
        } else if r.st.digit {
          v := v.(sign := true);
          e := 0;
        }
      } else if r.st.digit {
        v := SignBit;
        e := 0;
      }
    }
    s := UnitOrMagicFromBytes(b[r.i..j + 1], Vme(v, m, e), units);
  }

  /** The value of a run of decimal digits read from the left, starting from m. */
  function Accumulate(m: nat, ds: seq<byte>): nat
    requires AllDigits(ds)
    decreases |ds|
  {
    if |ds| == 0 then m else Accumulate(10 * m + (ds[0] - Zero), ds[1..])
  }

  lemma {:induction false} AccumulateGrows(m: nat, ds: seq<byte>)
    requires AllDigits(ds)
    ensures Accumulate(m, ds) >= m
    decreases |ds|
  {
    if |ds| > 0 {
      AccumulateGrows(10 * m + (ds[0] - Zero), ds[1..]);
    }
  }

  /** Reading x then y is reading x + y. */
  lemma {:induction false} AccumulateAppend(m: nat, x: seq<byte>, y: seq<byte>)
    requires AllDigits(x) && AllDigits(y)
    ensures AllDigits(x + y) && Accumulate(m, x + y) == Accumulate(Accumulate(m, x), y)
    decreases |x|
  {
    assert AllDigits(x + y) by {
      forall k | 0 <= k < |x + y| ensures IsDigit((x + y)[k]) {
        if k >= |x| {
          assert (x + y)[k] == y[k - |x|];
        }
      }
    }
    if |x| > 0 {
      assert (x + y)[0] == x[0] && (x + y)[1..] == x[1..] + y;
      AccumulateAppend(10 * m + (x[0] - Zero), x[1..], y);
    } else {
      assert x + y == y;
    }
  }

  /**
   * A run of digits that fits in the mantissa is appended to it; before the
   * '.' the exponent stays 0, after it each digit lowers the exponent by one.
   */
  lemma {:induction false} ScanDigitRun(b: seq<byte>, j: int, i: nat, k: nat, st: Scan, fixed: bool)
    requires !st.full
    requires j < |b| && i <= k <= j + 1 && AllDigits(b[i..k])
    requires Accumulate(st.m, b[i..k]) < Decimals.Two64
    requires st.e <= 0 && (!st.dot ==> st.e == 0) && (st.dot ==> st.e - (k - i) >= MinInt64)
    ensures ScanLoop(b, j, i, st, fixed) ==
            ScanLoop(b, j, k, st.(m := Accumulate(st.m, b[i..k]),
                                  e := if st.dot then st.e - (k - i) else st.e,
                                  digit := st.digit || i < k), fixed)
    decreases k - i
  {
    if i < k {
      var st1 := DigitRunHead(b, j, i, k, st, fixed);
      ScanDigitRun(b, j, i + 1, k, st1, fixed);
      assert st1.(m := Accumulate(st1.m, b[i + 1..k]), e := if st1.dot then st1.e - (k - (i + 1)) else st1.e, digit := st1.digit || i + 1 < k)
          == st.(m := Accumulate(st.m, b[i..k]), e := if st.dot then st.e - (k - i) else st.e, digit := st.digit || i < k);
    } else {
      assert b[i..k] == [];
      assert st.(m := Accumulate(st.m, b[i..k]), e := if st.dot then st.e - (k - i) else st.e, digit := st.digit || i < k) == st;
    }
  }

  /** The first digit of such a run, appended to the mantissa. */
  lemma DigitRunHead(b: seq<byte>, j: int, i: nat, k: nat, st: Scan, fixed: bool) returns (st1: Scan)
    requires !st.full
    requires j < |b| && i < k <= j + 1 && AllDigits(b[i..k])
    requires Accumulate(st.m, b[i..k]) < Decimals.Two64
    requires st.e <= 0 && (!st.dot ==> st.e == 0) && (st.dot ==> st.e - (k - i) >= MinInt64)
    ensures st1 == st.(m := st1.m, e := if st.dot then st.e - 1 else st.e, digit := true)
    ensures ScanLoop(b, j, i, st, fixed) == ScanLoop(b, j, i + 1, st1, fixed)
    ensures AllDigits(b[i + 1..k]) && Accumulate(st1.m, b[i + 1..k]) == Accumulate(st.m, b[i..k])
    ensures st1.e <= 0 && (!st1.dot ==> st1.e == 0) && (st1.dot ==> st1.e - (k - (i + 1)) >= MinInt64)
  {
    var d := b[i] - Zero;
    assert b[i..k][0] == b[i] && b[i..k][1..] == b[i + 1..k];
    AccumulateGrows(10 * st.m + d, b[i + 1..k]);
    ScanDigit(b, j, i, st, fixed);
    DigitStepFits(st, d, fixed);
    st1 := st.(m := 10 * st.m + d, e := if st.dot then st.e - 1 else st.e, digit := true);
  }

  /** A digit is one step of the scan. */
  lemma {:induction false} ScanDigit(b: seq<byte>, j: int, i: nat, st: Scan, fixed: bool)
    requires i <= j < |b| && IsDigit(b[i])
    ensures ScanLoop(b, j, i, st, fixed) == ScanLoop(b, j, i + 1, DigitStep(st, b[i] - Zero, fixed), fixed)
  {
  }

  /** A digit that fits is appended, and counted in the exponent after the '.'. */
  lemma {:induction false} DigitStepFits(st: Scan, d: nat, fixed: bool)
    requires !st.full
    requires d < 10 && st.m * 10 + d < Decimals.Two64
    requires st.e <= 0 && (!st.dot ==> st.e == 0) && (st.dot ==> st.e - 1 >= MinInt64)
    ensures DigitStep(st, d, fixed) == st.(m := 10 * st.m + d, e := if st.dot then st.e - 1 else st.e, digit := true)
  {
  }

  /** A run of digits, whatever its value, leaves the scan going with the '.' flag as it was. */
  lemma {:induction false} ScanSkipsDigits(b: seq<byte>, j: int, i: nat, k: nat, st: Scan, fixed: bool)
    returns (st': Scan)
    requires j < |b| && i <= k <= j + 1 && AllDigits(b[i..k])
    ensures st'.dot == st.dot
    ensures ScanLoop(b, j, i, st, fixed) == ScanLoop(b, j, k, st', fixed)
    decreases k - i
  {
    if i == k {
      return st;
    }
    assert IsDigit(b[i..k][0]);
    st' := ScanSkipsDigits(b, j, i + 1, k, DigitStep(st, b[i] - Zero, fixed), fixed);
  }

  /** Text made of ASCII bytes with no blank at either end is kept by the trimming. */
  lemma {:induction false} TrimmedAscii(s: seq<byte>)
    requires |s| > 0 && s[0] < 0x80 && !AsciiSpace(s[0])
    requires s[|s| - 1] < 0x80 && !AsciiSpace(s[|s| - 1])
    ensures TrimSpace(s) == s
  {
    TrimAround([], s, []);
    assert [] + s + [] == s;
  }

  /** Text that opens a number: a digit or a '.', after at most one '-'. */
  predicate StartsNumber(b: seq<byte>) {
    |b| > 0 &&
    if b[0] == Minus then |b| > 1 && (IsDigit(b[1]) || b[1] == Dot) else IsDigit(b[0]) || b[0] == Dot
  }

  function SignLength(b: seq<byte>): nat
    requires |b| > 0
  {
    if b[0] == Minus then 1 else 0
  }

  /** Trimmed text that opens a number is read by scanning it from after its sign. */
  lemma {:induction false} ReadsScan(input: seq<byte>, b: seq<byte>, units: seq<Unit>, fixed: bool)
    requires TrimSpace(input) == b && StartsNumber(b)
    ensures FromBytesWith(input, units, fixed) ==
            Tail(b, |b| - 1, SignLength(b), Fresh(b), b[0] == Minus, units, fixed)
  {
    assert Bounds(b) == (0, |b| - 1);
  }

  /** The scan state before the first digit of trimmed text that opens a number. */
  function Fresh(b: seq<byte>): Scan
    requires |b| > 0
  {
    Scan(V(b[0] == Minus, false, 0), 0, 0, false, false, false)
  }

  /** Text opening a number whose scan reaches its end reads as the scanned tuple, fixed up, without error. */
  lemma {:induction false} ReadsToEnd(b: seq<byte>, end: Scan, units: seq<Unit>, fixed: bool)
    requires StartsNumber(b) && b[|b| - 1] < 0x80 && !AsciiSpace(b[|b| - 1])
    requires ScanLoop(b, |b| - 1, SignLength(b), Fresh(b), fixed) == Stopped(|b|, end)
    ensures FromBytesWith(b, units, fixed) == Some(Scanned(ZeroFixed(end, b[0] == Minus), NoError))
  {
    TrimmedAscii(b);
    ReadsScan(b, b, units, fixed);
    ScanToEnd(b, |b| - 1, SignLength(b), Fresh(b), end, b[0] == Minus, units, fixed);
  }

  /** A scan that reaches the end leaves no suffix: the tuple is read without error. */
  lemma {:induction false} ScanToEnd(b: seq<byte>, j: int, i: nat, st: Scan, end: Scan, parsedSign: bool, units: seq<Unit>, fixed: bool)
    requires i <= j < |b| && ScanLoop(b, j, i, st, fixed) == Stopped(j + 1, end)
    ensures Tail(b, j, i, st, parsedSign, units, fixed) == Some(Scanned(ZeroFixed(end, parsedSign), NoError))
  {
    assert b[j + 1..j + 1] == [];
  }

  /** A second '.' is a syntax error, wherever it stands and whatever follows it (core.go:322-327). */
  lemma {:induction false} SecondDotIsSyntaxError(x: seq<byte>, y: seq<byte>, z: seq<byte>, units: seq<Unit>, fixed: bool)
    requires AllDigits(x) && AllDigits(y)
    ensures FromBytesWith(x + [Dot] + y + [Dot] + z, units, fixed) == Some(Scanned(NullVme, ErrSyntax))
  {
    var p := x + [Dot] + y + [Dot];
    assert x + [Dot] + y + [Dot] + z == p + z;
    TrimLeftSpaces([], p + z);
    assert [] + (p + z) == p + z;
    TrimRightAscii(p, z);
    var b := p + TrimRight(z);
    ReadsScan(p + z, b, units, fixed);
    TwoDotsTail(b, x, y, units, fixed);
  }

  /** Trimmed text that opens with digits, a '.', digits and a '.' stops at the second '.'. */
  lemma TwoDotsTail(b: seq<byte>, x: seq<byte>, y: seq<byte>, units: seq<Unit>, fixed: bool)
    requires AllDigits(x) && AllDigits(y)
    requires |b| >= |x| + |y| + 2 && b[..|x| + |y| + 2] == x + [Dot] + y + [Dot]
    ensures Tail(b, |b| - 1, SignLength(b), Fresh(b), b[0] == Minus, units, fixed) == Some(Scanned(NullVme, ErrSyntax))
  {
    TwoDotsLayout(b, x, y);
    assert b[0] == (x + [Dot])[0];
    ScanTwoDots(b, |b| - 1, |x|, |x| + 1 + |y|, Fresh(b), fixed);
  }

  /** A scan that meets digits, a '.', digits and a second '.' stops with a syntax error. */
  lemma ScanTwoDots(b: seq<byte>, j: int, k1: nat, k2: nat, st: Scan, fixed: bool)
    requires k1 < k2 <= j < |b| && !st.dot
    requires AllDigits(b[0..k1]) && b[k1] == Dot && AllDigits(b[k1 + 1..k2]) && b[k2] == Dot
    ensures ScanLoop(b, j, 0, st, fixed) == SyntaxError
  {
    var st1 := ScanSkipsDigits(b, j, 0, k1, st, fixed);
    DotStep(b, j, k1, st1, fixed);
    var st2 := ScanSkipsDigits(b, j, k1 + 1, k2, st1.(dot := true), fixed);
    DotStep(b, j, k2, st2, fixed);
  }

  /** Where the digit runs and the two dots sit in such a text. */
  lemma TwoDotsLayout(b: seq<byte>, x: seq<byte>, y: seq<byte>)
    requires AllDigits(x) && AllDigits(y)
    requires |b| >= |x| + |y| + 2 && b[..|x| + |y| + 2] == x + [Dot] + y + [Dot]
    ensures AllDigits(b[0..|x|]) && b[|x|] == Dot
    ensures AllDigits(b[|x| + 1..|x| + 1 + |y|]) && b[|x| + 1 + |y|] == Dot
  {
    var p := b[..|x| + |y| + 2];
    var i := |x| + 1;
    assert b[0..|x|] == p[0..|x|] == x;
    assert b[|x|] == p[|x|] == Dot;
    assert b[i..i + |y|] == p[i..i + |y|] == y;
    assert b[i + |y|] == p[i + |y|] == Dot;
  }

  /** A '.' is a syntax error after a first one, and is otherwise skipped, setting the dot (core.go:322-327). */
  lemma DotStep(b: seq<byte>, j: int, k: nat, st: Scan, fixed: bool)
    requires k <= j < |b| && b[k] == Dot
    ensures ScanLoop(b, j, k, st, fixed) == if st.dot then SyntaxError else ScanLoop(b, j, k + 1, st.(dot := true), fixed)
  {
  }

  function SignText(negative: bool): seq<byte> {
    if negative then [Minus] else []
  }

  /** The tuple a digit string x of value n, read after an optional '-', stands for. */
  function IntegerTuple(negative: bool, n: nat): Vme
    requires n < Decimals.Two64
  {
    if n == 0 then ZeroVme else Vme(V(negative, false, 0), n, 0)
  }

  /**
   * An integer written as an optional '-' and digits whose value fits in
   * 64 bits reads back as that value with exponent 0; all zeros read as
   * Zero whatever the sign.
   */
  lemma {:induction false} ParseInteger(negative: bool, x: seq<byte>, units: seq<Unit>)
    requires |x| > 0 && AllDigits(x) && Accumulate(0, x) < Decimals.Two64
    ensures FromBytes(SignText(negative) + x, units) == Scanned(IntegerTuple(negative, Accumulate(0, x)), NoError)
  {
    var b := SignText(negative) + x;
    assert b[|b| - 1] == x[|x| - 1];
    var i := SignLength(b);
    assert b[i..|b|] == x;
    ScanDigitRun(b, |b| - 1, i, |b|, Fresh(b), true);
    ReadsToEnd(b, Scan(V(negative, false, 0), Accumulate(0, x), 0, false, true, false), units, true);
  }

  /**
   * A number written as an optional '-', digits x, a '.' and digits y reads
   * as the value of the digits x + y with exponent -|y|, when that value
   * fits in 64 bits; all zeros read as Zero.
   */
  lemma {:induction false} ParseFraction(negative: bool, x: seq<byte>, y: seq<byte>, units: seq<Unit>)
    requires |x| + |y| > 0 && AllDigits(x) && AllDigits(y)
    requires |y| <= 0x8000_0000_0000_0000
    requires AllDigits(x + y) && Accumulate(0, x + y) < Decimals.Two64
    ensures var n := Accumulate(0, x + y);
            FromBytes(SignText(negative) + x + [Dot] + y, units) ==
              Scanned(if n == 0 then ZeroVme else Vme(V(negative, false, 0), n, -|y|), NoError)
  {
    var b := SignText(negative) + x + [Dot] + y;
    var i := FractionLayout(negative, x, y);
    FractionReads(b, i, x, y, units);
    assert Fresh(b).v == V(negative, false, 0);
  }

  /** Where the digits and the '.' sit in the text of a signed fraction. */
  lemma FractionLayout(negative: bool, x: seq<byte>, y: seq<byte>) returns (i: nat)
    requires |x| + |y| > 0 && AllDigits(x) && AllDigits(y)
    ensures var b := SignText(negative) + x + [Dot] + y;
            StartsNumber(b) && b[|b| - 1] < 0x80 && !AsciiSpace(b[|b| - 1]) && (b[0] == Minus <==> negative) &&
            i == SignLength(b) && b[i..] == x + [Dot] + y && b[i..i + |x|] == x && b[i + |x|] == Dot
  {
    var t := x + [Dot] + y;
    var b := SignText(negative) + t;
    assert SignText(negative) + x + [Dot] + y == b;
    assert b[|b| - 1] == t[|t| - 1] == if |y| > 0 then y[|y| - 1] else Dot;
    i := |SignText(negative)|;
    assert b[0] == if negative then Minus else t[0];
    assert b[i..] == t;
    assert b[i..i + |x|] == x && b[i + |x|] == Dot;
  }

  /** Text opening a number with digits x, a '.' and digits y after its sign. */
  lemma {:induction false} FractionReads(b: seq<byte>, i: nat, x: seq<byte>, y: seq<byte>, units: seq<Unit>)
    requires |x| + |y| > 0 && AllDigits(x) && AllDigits(y) && |y| <= 0x8000_0000_0000_0000
    requires AllDigits(x + y) && Accumulate(0, x + y) < Decimals.Two64
    requires StartsNumber(b) && b[|b| - 1] < 0x80 && !AsciiSpace(b[|b| - 1])
    requires i == SignLength(b) && b[i..] == x + [Dot] + y
    requires b[i..i + |x|] == x && b[i + |x|] == Dot
    ensures FromBytes(b, units) ==
            Scanned(ZeroFixed(Fresh(b).(m := Accumulate(0, x + y), e := -|y|, dot := true, digit := true), b[0] == Minus), NoError)
  {
    ScanFraction(b, i, x, y, Fresh(b));
    ReadsToEnd(b, Fresh(b).(m := Accumulate(0, x + y), e := -|y|, dot := true, digit := true), units, true);
  }

  /** The scan of digits x, a '.' and digits y to the end, from a fresh state. */
  lemma {:induction false} ScanFraction(b: seq<byte>, i: nat, x: seq<byte>, y: seq<byte>, st: Scan)
    requires |x| + |y| > 0 && AllDigits(x) && AllDigits(y) && |y| <= 0x8000_0000_0000_0000
    requires AllDigits(x + y) && Accumulate(0, x + y) < Decimals.Two64
    requires i <= |b| && b[i..] == x + [Dot] + y
    requires b[i..i + |x|] == x && b[i + |x|] == Dot
    requires st.m == 0 && st.e == 0 && !st.dot && !st.digit && !st.full
    ensures ScanLoop(b, |b| - 1, i, st, true) ==
            Stopped(|b|, st.(m := Accumulate(0, x + y), e := -|y|, dot := true, digit := true))
  {
    var j := |b| - 1;
    AccumulateAppend(0, x, y);
    AccumulateGrows(Accumulate(0, x), y);
    ScanIntegerPart(b, i, x, st, true);
    var k := DigitsAfterDot(b, i, x, y);
    ScanDigitRun(b, j, k, j + 1, st.(m := Accumulate(0, x), digit := |x| > 0, dot := true), true);
  }

  /** Where the digits after the '.' start, and that they run to the end. */
  lemma DigitsAfterDot(b: seq<byte>, i: nat, x: seq<byte>, y: seq<byte>) returns (k: nat)
    requires i <= |b| && b[i..] == x + [Dot] + y
    ensures k == i + |x| + 1 && k <= |b| && b[k..|b|] == y
  {
    k := i + |x| + 1;
    var t := b[i..];
    assert |t| == |x| + 1 + |y|;
    assert b[k..] == t[|x| + 1..];
    assert t[|x| + 1..] == y;
  }

  /**
   * Text opening with '~', an optional '-' and then digits or a '.' (the
   * extended output of an inexact value): the prefix sets the loss bit and
   * the sign, and the scan goes on from the first digit.
   */
  lemma LossyPrefix(negative: bool, rest: seq<byte>, units: seq<Unit>, b: seq<byte>)
    requires |rest| > 0 && (IsDigit(rest[0]) || rest[0] == Dot)
    requires rest[|rest| - 1] < 0x80 && !AsciiSpace(rest[|rest| - 1])
    requires b == [Tilde] + SignText(negative) + rest
    ensures var i := 1 + |SignText(negative)|;
            i < |b| && b[i..] == rest &&
            FromBytes(b, units) == Tail(b, |b| - 1, i, Scan(V(negative, true, 0), 0, 0, false, false, false), negative, units, true).value
  {
    var i := 1 + |SignText(negative)|;
    assert b[|b| - 1] == rest[|rest| - 1];
    TrimmedAscii(b);
    assert Bounds(b) == (0, |b| - 1);
    assert b[1] == if negative then Minus else rest[0];
    assert b[i..] == rest;
    assert b[i] == rest[0];
    assert SignPrefix(b, 0, |b| - 1) == Some(Prefix(i, V(negative, true, 0), negative));
  }

  /**
   * '~', an optional '-', digits x, a '.' and digits y of a non-zero value
   * that fits in 64 bits read as that value with exponent -|y|, the loss
   * bit set.
   */
  lemma {:induction false} LossyFraction(negative: bool, x: seq<byte>, y: seq<byte>, units: seq<Unit>, b: seq<byte>)
    requires |x| + |y| > 0 && AllDigits(x) && AllDigits(y) && |y| <= 0x8000_0000_0000_0000
    requires AllDigits(x + y) && 0 < Accumulate(0, x + y) < Decimals.Two64
    requires b == [Tilde] + SignText(negative) + x + [Dot] + y
    ensures FromBytes(b, units) == Scanned(Vme(V(negative, true, 0), Accumulate(0, x + y), -|y|), NoError)
  {
    var rest := x + [Dot] + y;
    var p := [Tilde] + SignText(negative);
    FractionEnds(x, y, rest);
    PrefixedFraction(p, x, y, rest);
    LossyPrefix(negative, rest, units, b);
    LossyFractionTail(negative, x, y, units, b, |p|);
  }

  /** The scan of x '.' y from i to the end of b, under the loss bit and the sign already read. */
  lemma LossyFractionTail(negative: bool, x: seq<byte>, y: seq<byte>, units: seq<Unit>, b: seq<byte>, i: nat)
    requires AllDigits(x) && AllDigits(y) && |y| <= 0x8000_0000_0000_0000
    requires AllDigits(x + y) && 0 < Accumulate(0, x + y) < Decimals.Two64
    requires i < |b| && b[i..] == x + [Dot] + y && b[i..i + |x|] == x && b[i + |x|] == Dot
    ensures Tail(b, |b| - 1, i, Scan(V(negative, true, 0), 0, 0, false, false, false), negative, units, true).value ==
            Scanned(Vme(V(negative, true, 0), Accumulate(0, x + y), -|y|), NoError)
  {
    var st := Scan(V(negative, true, 0), 0, 0, false, false, false);
    ScanFraction(b, i, x, y, st);
    var end := st.(m := Accumulate(0, x + y), e := -|y|, dot := true, digit := true);
    TailReads(b, i, st, end, negative, units);
  }

  /** A scan from i that stops at the end of b with a non-zero mantissa reads as the scanned tuple. */
  lemma TailReads(b: seq<byte>, i: nat, st: Scan, end: Scan, parsedSign: bool, units: seq<Unit>)
    requires i < |b| && ScanLoop(b, |b| - 1, i, st, true) == Stopped(|b|, end) && end.m != 0
    ensures Tail(b, |b| - 1, i, st, parsedSign, units, true).value == Scanned(Vme(end.v, end.m, end.e), NoError)
  {
    ScanToEnd(b, |b| - 1, i, st, end, parsedSign, units, true);
  }

  /** The first and last byte of x '.' y. */
  lemma FractionEnds(x: seq<byte>, y: seq<byte>, rest: seq<byte>)
    requires |x| + |y| > 0 && AllDigits(x) && AllDigits(y) && rest == x + [Dot] + y
    ensures |rest| > 0 && (IsDigit(rest[0]) || rest[0] == Dot) && rest[|rest| - 1] < 0x80 && !AsciiSpace(rest[|rest| - 1])
  {
    assert rest[0] == if |x| > 0 then x[0] else Dot;
    assert rest[|rest| - 1] == if |y| > 0 then y[|y| - 1] else Dot;
  }

  /** The slices of p + x '.' y behind a prefix p. */
  lemma PrefixedFraction(p: seq<byte>, x: seq<byte>, y: seq<byte>, rest: seq<byte>)
    requires rest == x + [Dot] + y
    ensures var b := p + rest; b == p + x + [Dot] + y && b[|p|..] == rest && b[|p|..|p| + |x|] == x && b[|p| + |x|] == Dot
  {
    var b := p + rest;
    assert b[|p|..] == rest;
    assert b[|p|..|p| + |x|] == rest[..|x|] == x;
    assert b[|p| + |x|] == rest[|x|] == Dot;
  }

  /**
   * '~', an optional '-' and digits x of a non-zero value that fits in 64
   * bits read as that value with exponent 0, the loss bit set.
   */
  lemma {:induction false} LossyInteger(negative: bool, x: seq<byte>, units: seq<Unit>, b: seq<byte>)
    requires |x| > 0 && AllDigits(x) && 0 < Accumulate(0, x) < Decimals.Two64
    requires b == [Tilde] + SignText(negative) + x
    ensures FromBytes(b, units) == Scanned(Vme(V(negative, true, 0), Accumulate(0, x), 0), NoError)
  {
    assert x[0] == x[..1][0] && IsDigit(x[0]);
    LossyPrefix(negative, x, units, b);
    var i := 1 + |SignText(negative)|;
    assert b[i..] == b[i..|b|] == x;
    var st := Scan(V(negative, true, 0), 0, 0, false, false, false);
    ScanDigitRun(b, |b| - 1, i, |b|, st, true);
    TailReads(b, i, st, st.(m := Accumulate(0, x), digit := true), negative, units);
  }

  /** The digits x and the '.' after them. */
  lemma {:induction false} ScanIntegerPart(b: seq<byte>, i: nat, x: seq<byte>, st: Scan, fixed: bool)
    requires AllDigits(x) && Accumulate(0, x) < Decimals.Two64
    requires i + |x| < |b| && b[i..i + |x|] == x && b[i + |x|] == Dot
    requires st.m == 0 && st.e == 0 && !st.dot && !st.digit && !st.full
    ensures ScanLoop(b, |b| - 1, i, st, fixed) ==
            ScanLoop(b, |b| - 1, i + |x| + 1, st.(m := Accumulate(0, x), digit := |x| > 0, dot := true), fixed)
  {
    ScanDigitRun(b, |b| - 1, i, i + |x|, st, fixed);
  }

  /**
   * The digit that carries the mantissa past 2^64: as written the mantissa
   * wraps to a value below 10 (18446744073709551616 reads as Zero), while
   * the corrected test keeps the first digits, counts the dropped one in
   * the exponent and sets the loss bit.
   */
  lemma {:induction false} DigitOverflow(x: seq<byte>, d: byte, units: seq<Unit>)
    requires |x| > 0 && AllDigits(x) && IsDigit(d)
    requires Accumulate(0, x) * 10 < Decimals.Two64 <= Accumulate(0, x) * 10 + (d - Zero)
    ensures var w := Accumulate(0, x) * 10 + (d - Zero) - Decimals.Two64;
            w < 10 &&
            FromBytesWith(x + [d], units, false) == Some(Scanned(IntegerTuple(false, w), NoError))
    ensures FromBytes(x + [d], units) == Scanned(Vme(LossBit, Accumulate(0, x), 1), NoError)
  {
    var b := x + [d];
    var j := |b| - 1;
    assert b[0..|x|] == x;
    var q := Accumulate(0, x);
    ScanDigitRun(b, j, 0, |x|, Fresh(b), false);
    ScanDigitRun(b, j, 0, |x|, Fresh(b), true);
    ScanDigit(b, j, |x|, Scan(NoBits, q, 0, false, true, false), false);
    ScanDigit(b, j, |x|, Scan(NoBits, q, 0, false, true, false), true);
    var w := q * 10 + (d - Zero) - Decimals.Two64;
    ReadsToEnd(b, Scan(NoBits, w, 0, false, true, false), units, false);
    ReadsToEnd(b, Scan(LossBit, q, 1, false, true, true), units, true);
  }

  /** 18446744073709551616 is 2^64: as written it reads as Zero. */
  lemma {:induction false} TwoTo64Digits()
    ensures 1844674407370955161 * 10 < Decimals.Two64 == 1844674407370955161 * 10 + 6
  {
  }

  /**
   * Digits past the first one that does not fit: the corrected scan keeps
   * the first digits as the mantissa, counts every later digit in the
   * exponent and sets the loss bit exactly when a non-zero digit was
   * dropped, so the tuple read is the text's value cut to its first digits.
   */
  lemma {:induction false} OverflowReads(x: seq<byte>, d: byte, z: seq<byte>, units: seq<Unit>)
    requires |x| > 0 && AllDigits(x) && IsDigit(d) && AllDigits(z) && |z| < 0x4000_0000_0000_0000
    requires Accumulate(0, x) < Decimals.Two64 <= Accumulate(0, x) * 10 + (d - Zero)
    ensures AllDigits(x + [d] + z)
    ensures var n, r := Accumulate(0, x + [d] + z), FromBytes(x + [d] + z, units);
            r.err == NoError && r.t.m == Accumulate(0, x) && r.t.e == |z| + 1 &&
            !r.t.v.sign && r.t.v.unit == 0 &&
            r.t.m * Pow10(r.t.e) <= n < (r.t.m + 1) * Pow10(r.t.e) &&
            (r.t.v.loss <==> n != r.t.m * Pow10(r.t.e))
  {
    var w := [d] + z;
    OverflowTuple(false, x, d, z, units);
    assert SignText(false) + x + [d] + z == x + [d] + z;
    OverflowValue(x, d, z);
    TruncatedValue(Accumulate(0, x), Accumulate(0, w), |w|);
  }

  /** The tuple such a text reads as, after an optional '-'. */
  lemma OverflowTuple(negative: bool, x: seq<byte>, d: byte, z: seq<byte>, units: seq<Unit>)
    requires |x| > 0 && AllDigits(x) && IsDigit(d) && AllDigits(z) && |z| < 0x4000_0000_0000_0000
    requires Accumulate(0, x) < Decimals.Two64 <= Accumulate(0, x) * 10 + (d - Zero)
    ensures AllDigits([d] + z)
    ensures FromBytes(SignText(negative) + x + [d] + z, units) ==
            Scanned(Vme(V(negative, Accumulate(0, [d] + z) != 0, 0), Accumulate(0, x), |z| + 1), NoError)
  {
    Regroup(SignText(negative), x, [d], z);
    OverflowText(negative, SignText(negative) + (x + ([d] + z)), x, d, z, units);
  }

  lemma Regroup(a: seq<byte>, b: seq<byte>, c: seq<byte>, d: seq<byte>)
    ensures a + b + c + d == a + (b + (c + d))
  {
  }

  lemma OverflowText(negative: bool, b: seq<byte>, x: seq<byte>, d: byte, z: seq<byte>, units: seq<Unit>)
    requires |x| > 0 && AllDigits(x) && IsDigit(d) && AllDigits(z) && |z| < 0x4000_0000_0000_0000
    requires Accumulate(0, x) < Decimals.Two64 <= Accumulate(0, x) * 10 + (d - Zero)
    requires b == SignText(negative) + (x + ([d] + z))
    ensures AllDigits([d] + z)
    ensures FromBytes(b, units) ==
            Scanned(Vme(V(negative, Accumulate(0, [d] + z) != 0, 0), Accumulate(0, x), |z| + 1), NoError)
  {
    OverflowLayout(negative, b, x, d, z);
    var st := Scan(V(negative, false, 0), 0, 0, false, false, false);
    assert Fresh(b) == st;
    OverflowScan(b, SignLength(b), x, d, z, st);
    var end := Scan(V(negative, Accumulate(0, [d] + z) != 0, 0), Accumulate(0, x), |z| + 1, false, true, true);
    assert Accumulate(0, x) != 0;
    ReadsWhole(b, end, units);
  }

  /**
   * The same after '~' and an optional '-' (the extended output of an
   * inexact value): the loss bit is set whatever the dropped digits.
   */
  lemma LossyOverflow(negative: bool, x: seq<byte>, d: byte, z: seq<byte>, units: seq<Unit>, b: seq<byte>)
    requires |x| > 0 && AllDigits(x) && IsDigit(d) && AllDigits(z) && |z| < 0x4000_0000_0000_0000
    requires Accumulate(0, x) < Decimals.Two64 <= Accumulate(0, x) * 10 + (d - Zero)
    requires b == [Tilde] + SignText(negative) + x + [d] + z
    ensures FromBytes(b, units) == Scanned(Vme(V(negative, true, 0), Accumulate(0, x), |z| + 1), NoError)
  {
    Regroup([Tilde] + SignText(negative), x, [d], z);
    LossyOverflowText(negative, x, d, z, units, b);
  }

  lemma LossyOverflowText(negative: bool, x: seq<byte>, d: byte, z: seq<byte>, units: seq<Unit>, b: seq<byte>)
    requires |x| > 0 && AllDigits(x) && IsDigit(d) && AllDigits(z) && |z| < 0x4000_0000_0000_0000
    requires Accumulate(0, x) < Decimals.Two64 <= Accumulate(0, x) * 10 + (d - Zero)
    requires b == [Tilde] + SignText(negative) + (x + ([d] + z))
    ensures FromBytes(b, units) == Scanned(Vme(V(negative, true, 0), Accumulate(0, x), |z| + 1), NoError)
  {
    var rest := x + ([d] + z);
    assert rest[0] == x[0] && rest[|rest| - 1] == if |z| > 0 then z[|z| - 1] else d;
    LossyPrefix(negative, rest, units, b);
    var i := 1 + |SignText(negative)|;
    var st := Scan(V(negative, true, 0), 0, 0, false, false, false);
    OverflowScan(b, i, x, d, z, st);
    TailReads(b, i, st, st.(m := Accumulate(0, x), e := |z| + 1, digit := true, full := true), negative, units);
  }

  /** Text opening a number whose scan reaches its end with a non-zero mantissa reads as the scanned tuple. */
  lemma ReadsWhole(b: seq<byte>, end: Scan, units: seq<Unit>)
    requires StartsNumber(b) && b[|b| - 1] < 0x80 && !AsciiSpace(b[|b| - 1])
    requires ScanLoop(b, |b| - 1, SignLength(b), Fresh(b), true) == Stopped(|b|, end) && end.m != 0
    ensures FromBytes(b, units) == Scanned(Vme(end.v, end.m, end.e), NoError)
  {
    ReadsToEnd(b, end, units, true);
  }

  /** The value of such a text: its first digits shifted left past the rest, plus the rest. */
  lemma OverflowValue(x: seq<byte>, d: byte, z: seq<byte>)
    requires AllDigits(x) && IsDigit(d) && AllDigits(z)
    ensures AllDigits([d] + z) && AllDigits(x + [d] + z)
    ensures Accumulate(0, x + [d] + z) == Accumulate(0, x) * Pow10(|z| + 1) + Accumulate(0, [d] + z)
    ensures Accumulate(0, [d] + z) < Pow10(|z| + 1)
  {
    var w := [d] + z;
    assert AllDigits(w) by {
      forall k | 0 <= k < |w| ensures IsDigit(w[k]) {
        if k > 0 {
          assert w[k] == z[k - 1];
        }
      }
    }
    assert x + [d] + z == x + w;
    AccumulateAppend(0, x, w);
    AccumulateShift(Accumulate(0, x), w);
    AccumulateBelow(w);
  }

  /** q followed by n digits of value rest lies in [q * 10^n, (q + 1) * 10^n), and on its left end exactly when rest is 0. */
  lemma TruncatedValue(q: nat, rest: nat, n: nat)
    requires rest < Pow10(n)
    ensures q * Pow10(n) <= q * Pow10(n) + rest < (q + 1) * Pow10(n)
    ensures rest != 0 <==> q * Pow10(n) + rest != q * Pow10(n)
  {
  }

  /** The scan of such a text from i: the first digits, the dropped digit, then the dropped run. */
  lemma {:induction false} OverflowScan(b: seq<byte>, i: nat, x: seq<byte>, d: byte, z: seq<byte>, st: Scan)
    requires AllDigits(x) && IsDigit(d) && AllDigits(z) && |z| < 0x4000_0000_0000_0000
    requires Accumulate(0, x) < Decimals.Two64 <= Accumulate(0, x) * 10 + (d - Zero)
    requires i <= |b| && b[i..] == x + ([d] + z)
    requires st.m == 0 && st.e == 0 && !st.dot && !st.digit && !st.full
    ensures AllDigits([d] + z)
    ensures ScanLoop(b, |b| - 1, i, st, true) ==
            Stopped(|b|, st.(v := st.v.(loss := st.v.loss || Accumulate(0, [d] + z) != 0),
                             m := Accumulate(0, x), e := |z| + 1, digit := true, full := true))
  {
    var j := |b| - 1;
    var q := Accumulate(0, x);
    OverflowSlices(b, i, x, d, z);
    ScanDigitRun(b, j, i, i + |x|, st, true);
    var st0 := st.(m := q, digit := |x| > 0);
    ScanDigit(b, j, i + |x|, st0, true);
    var st1 := st.(v := st.v.(loss := st.v.loss || d != Zero), m := q, e := 1, digit := true, full := true);
    assert DigitStep(st0, d - Zero, true) == st1;
    DroppedRun(b, j, i + |x| + 1, |b|, st1);
    var w := [d] + z;
    OverflowValue(x, d, z);
    AccumulateNonZero(w);
    assert w[1..] == z;
  }

  /** Where the first digits, the dropped digit and the rest sit behind index i. */
  lemma OverflowSlices(b: seq<byte>, i: nat, x: seq<byte>, d: byte, z: seq<byte>)
    requires i <= |b| && b[i..] == x + ([d] + z)
    ensures |b| == i + |x| + 1 + |z| && b[i..i + |x|] == x && b[i + |x|] == d && b[i + |x| + 1..|b|] == z
  {
    var t := b[i..];
    assert b[i..i + |x|] == t[..|x|] == x;
    assert b[i + |x|] == t[|x|] == d;
    assert b[i + |x| + 1..|b|] == t[|x| + 1..] == ([d] + z)[1..] == z;
  }

  /** Such a text after an optional '-' opens a number and ends in a digit. */
  lemma OverflowLayout(negative: bool, b: seq<byte>, x: seq<byte>, d: byte, z: seq<byte>)
    requires |x| > 0 && AllDigits(x) && IsDigit(d) && AllDigits(z) && b == SignText(negative) + (x + ([d] + z))
    ensures StartsNumber(b) && (b[0] == Minus <==> negative) && SignLength(b) == |SignText(negative)|
    ensures b[SignLength(b)..] == x + ([d] + z)
    ensures b[|b| - 1] < 0x80 && !AsciiSpace(b[|b| - 1])
  {
    var t := x + ([d] + z);
    assert b[|b| - 1] == t[|t| - 1] == if |z| > 0 then z[|z| - 1] else d;
    assert t[0] == x[0];
    assert b[0] == if negative then Minus else x[0];
    assert negative ==> b[1] == x[0];
    assert b[|SignText(negative)|..] == t;
  }

  /**
   * Digits after the '.' past the first one that does not fit: the
   * corrected scan keeps the digits read so far as the mantissa, with one
   * negative exponent step per digit after the '.', and sets the loss bit
   * exactly when a non-zero digit was dropped, so the tuple read is the
   * text's value cut to its first digits.
   */
  lemma FractionOverflowReads(x: seq<byte>, y: seq<byte>, d: byte, z: seq<byte>, units: seq<Unit>)
    requires AllDigits(x) && AllDigits(y) && IsDigit(d) && AllDigits(z) && |y| < 0x4000_0000_0000_0000
    requires AllDigits(x + y) && Accumulate(0, x + y) < Decimals.Two64 <= Accumulate(0, x + y) * 10 + (d - Zero)
    ensures AllDigits(x + y + [d] + z)
    ensures var n, r := Accumulate(0, x + y + [d] + z), FromBytes(x + [Dot] + y + [d] + z, units);
            r.err == NoError && r.t.m == Accumulate(0, x + y) && r.t.e == -|y| &&
            !r.t.v.sign && r.t.v.unit == 0 &&
            r.t.m * Pow10(|z| + 1) <= n < (r.t.m + 1) * Pow10(|z| + 1) &&
            (r.t.v.loss <==> n != r.t.m * Pow10(|z| + 1))
  {
    var w := [d] + z;
    FractionOverflowTuple(x, y, d, z, units, true);
    OverflowValue(x + y, d, z);
    TruncatedValue(Accumulate(0, x + y), Accumulate(0, w), |w|);
  }

  /**
   * The same text as written (core.go:311): a digit dropped after the '.'
   * sets the loss bit only while the exponent is still 0, so once a
   * fractional digit was appended the dropped digits are lost without a
   * trace and the text reads as exact; "0.184467440737095510005" reads as
   * the exact 0.18446744073709551000. Corrected, the same text reads with
   * the loss bit exactly when a dropped digit is not zero.
   */
  lemma FractionDropAsWritten(x: seq<byte>, y: seq<byte>, d: byte, z: seq<byte>, units: seq<Unit>)
    requires AllDigits(x) && AllDigits(y) && IsDigit(d) && AllDigits(z) && 0 < |y| < 0x4000_0000_0000_0000
    requires AllDigits(x + y) && Accumulate(0, x + y) < Decimals.Two64 <= Accumulate(0, x + y) * 10
    ensures AllDigits([d] + z)
    ensures FromBytesWith(x + [Dot] + y + [d] + z, units, false) ==
            Some(Scanned(Vme(NoBits, Accumulate(0, x + y), -|y|), NoError))
    ensures FromBytes(x + [Dot] + y + [d] + z, units) ==
            Scanned(Vme(V(false, Accumulate(0, [d] + z) != 0, 0), Accumulate(0, x + y), -|y|), NoError)
  {
    FractionOverflowTuple(x, y, d, z, units, false);
    FractionOverflowTuple(x, y, d, z, units, true);
  }

  /** The tuple such a fraction reads as, as written or corrected. */
  lemma FractionOverflowTuple(x: seq<byte>, y: seq<byte>, d: byte, z: seq<byte>, units: seq<Unit>, fixed: bool)
    requires AllDigits(x) && AllDigits(y) && IsDigit(d) && AllDigits(z) && |y| < 0x4000_0000_0000_0000
    requires AllDigits(x + y) && Accumulate(0, x + y) < Decimals.Two64 <= Accumulate(0, x + y) * 10 + (d - Zero)
    requires !fixed ==> 0 < |y| && Decimals.Two64 <= Accumulate(0, x + y) * 10
    ensures AllDigits([d] + z)
    ensures FromBytesWith(x + [Dot] + y + [d] + z, units, fixed) ==
            Some(Scanned(Vme(V(false, fixed && Accumulate(0, [d] + z) != 0, 0), Accumulate(0, x + y), -|y|), NoError))
  {
    FractionRegroup(x, y, d, z);
    FractionOverflowText(x + ([Dot] + (y + ([d] + z))), x, y, d, z, units, fixed);
  }

  lemma FractionRegroup(x: seq<byte>, y: seq<byte>, d: byte, z: seq<byte>)
    ensures x + [Dot] + y + [d] + z == x + ([Dot] + (y + ([d] + z)))
  {
  }

  lemma FractionOverflowText(b: seq<byte>, x: seq<byte>, y: seq<byte>, d: byte, z: seq<byte>, units: seq<Unit>, fixed: bool)
    requires AllDigits(x) && AllDigits(y) && IsDigit(d) && AllDigits(z) && |y| < 0x4000_0000_0000_0000
    requires AllDigits(x + y) && Accumulate(0, x + y) < Decimals.Two64 <= Accumulate(0, x + y) * 10 + (d - Zero)
    requires !fixed ==> 0 < |y| && Decimals.Two64 <= Accumulate(0, x + y) * 10
    requires b == x + ([Dot] + (y + ([d] + z)))
    ensures AllDigits([d] + z)
    ensures FromBytesWith(b, units, fixed) ==
            Some(Scanned(Vme(V(false, fixed && Accumulate(0, [d] + z) != 0, 0), Accumulate(0, x + y), -|y|), NoError))
  {
    var end := FractionOverflowScan(b, x, y, d, z, fixed);
    ReadsScanned(b, end, units, fixed);
  }

  /** Text opening a number without a sign whose scan reaches its end with a non-zero mantissa reads as the scanned tuple. */
  lemma ReadsScanned(b: seq<byte>, end: Scan, units: seq<Unit>, fixed: bool)
    requires StartsNumber(b) && b[0] != Minus && b[|b| - 1] < 0x80 && !AsciiSpace(b[|b| - 1])
    requires ScanLoop(b, |b| - 1, SignLength(b), Fresh(b), fixed) == Stopped(|b|, end) && end.m != 0
    ensures FromBytesWith(b, units, fixed) == Some(Scanned(Vme(end.v, end.m, end.e), NoError))
  {
    ReadsToEnd(b, end, units, fixed);
  }

  /** The scan of such a fraction: the digits x, the '.', the digits y, the dropped digit, then the dropped run. */
  lemma FractionOverflowScan(b: seq<byte>, x: seq<byte>, y: seq<byte>, d: byte, z: seq<byte>, fixed: bool)
    returns (end: Scan)
    requires AllDigits(x) && AllDigits(y) && IsDigit(d) && AllDigits(z) && |y| < 0x4000_0000_0000_0000
    requires AllDigits(x + y) && Accumulate(0, x + y) < Decimals.Two64 <= Accumulate(0, x + y) * 10 + (d - Zero)
    requires !fixed ==> 0 < |y| && Decimals.Two64 <= Accumulate(0, x + y) * 10
    requires b == x + ([Dot] + (y + ([d] + z)))
    ensures AllDigits([d] + z) && StartsNumber(b) && b[0] != Minus && SignLength(b) == 0
    ensures b[|b| - 1] < 0x80 && !AsciiSpace(b[|b| - 1])
    ensures ScanLoop(b, |b| - 1, 0, Fresh(b), fixed) == Stopped(|b|, end)
    ensures end == Scan(V(false, fixed && Accumulate(0, [d] + z) != 0, 0), Accumulate(0, x + y), -|y|, true, true, true)
  {
    FractionOverflowLayout(b, x, y, d, z);
    var st := FractionDigitsScan(b, x, y, fixed);
    end := FractionDropScan(b, |x| + 1 + |y|, st, d, z, fixed);
  }

  /** The digits x, the '.' and the digits y, appended to the mantissa. */
  lemma {:induction false} FractionDigitsScan(b: seq<byte>, x: seq<byte>, y: seq<byte>, fixed: bool)
    returns (st: Scan)
    requires AllDigits(x) && AllDigits(y) && |y| < 0x4000_0000_0000_0000
    requires AllDigits(x + y) && Accumulate(0, x + y) < Decimals.Two64
    requires |x| + 1 + |y| < |b| && b[0..|x|] == x && b[|x|] == Dot && b[|x| + 1..|x| + 1 + |y|] == y
    requires b[0] != Minus
    ensures st == Scan(NoBits, Accumulate(0, x + y), -|y|, true, |x| > 0 || |y| > 0, false)
    ensures ScanLoop(b, |b| - 1, 0, Fresh(b), fixed) == ScanLoop(b, |b| - 1, |x| + 1 + |y|, st, fixed)
  {
    var j := |b| - 1;
    AccumulateAppend(0, x, y);
    AccumulateGrows(Accumulate(0, x), y);
    var st0 := Scan(NoBits, 0, 0, false, false, false);
    assert Fresh(b) == st0;
    ScanIntegerPart(b, 0, x, st0, fixed);
    ScanDigitRun(b, j, |x| + 1, |x| + 1 + |y|, Scan(NoBits, Accumulate(0, x), 0, true, |x| > 0, false), fixed);
    st := Scan(NoBits, Accumulate(0, x + y), -|y|, true, |x| > 0 || |y| > 0, false);
  }

  /** The digit d that does not fit and the digits z after it, all dropped. */
  lemma {:induction false} FractionDropScan(b: seq<byte>, k: nat, st: Scan, d: byte, z: seq<byte>, fixed: bool)
    returns (end: Scan)
    requires IsDigit(d) && AllDigits(z)
    requires k < |b| && b[k] == d && b[k + 1..|b|] == z
    requires st.dot && !st.full && st.v == NoBits && st.m < Decimals.Two64 <= st.m * 10 + (d - Zero)
    requires !fixed ==> st.e < 0 && Decimals.Two64 <= st.m * 10
    ensures AllDigits([d] + z)
    ensures ScanLoop(b, |b| - 1, k, st, fixed) == Stopped(|b|, end)
    ensures end == st.(v := V(false, fixed && Accumulate(0, [d] + z) != 0, 0), digit := true, full := true)
  {
    var j := |b| - 1;
    ScanDigit(b, j, k, st, fixed);
    var st1 := st.(v := V(false, fixed && d != Zero, 0), digit := true, full := true);
    assert DigitStep(st, d - Zero, fixed) == st1;
    DroppedFractionRun(b, j, k + 1, |b|, st1, fixed);
    OverflowValue([], d, z);
    AccumulateNonZero([d] + z);
    assert ([d] + z)[1..] == z;
    end := st.(v := V(false, fixed && Accumulate(0, [d] + z) != 0, 0), digit := true, full := true);
  }

  /** Where the digits, the '.', the dropped digit and the rest sit in such a fraction. */
  lemma FractionOverflowLayout(b: seq<byte>, x: seq<byte>, y: seq<byte>, d: byte, z: seq<byte>)
    requires AllDigits(x) && AllDigits(y) && IsDigit(d) && AllDigits(z)
    requires b == x + ([Dot] + (y + ([d] + z)))
    ensures |b| == |x| + |y| + 2 + |z|
    ensures StartsNumber(b) && b[0] != Minus && SignLength(b) == 0
    ensures b[|b| - 1] < 0x80 && !AsciiSpace(b[|b| - 1])
    ensures b[0..|x|] == x && b[|x|] == Dot && b[|x| + 1..|x| + 1 + |y|] == y
    ensures b[|x| + 1 + |y|] == d && b[|x| + 2 + |y|..|b|] == z
  {
    var t3 := [d] + z;
    var t2 := y + t3;
    var t1 := [Dot] + t2;
    assert b[0] == if |x| > 0 then x[0] else Dot;
    assert b[|b| - 1] == if |z| > 0 then z[|z| - 1] else d;
    assert b[0..|x|] == x;
    assert b[|x|..] == t1;
    assert b[|x| + 1..] == t2;
    assert b[|x| + 1..|x| + 1 + |y|] == t2[..|y|] == y;
    assert b[|x| + 1 + |y|..] == t3;
    assert b[|x| + 2 + |y|..|b|] == t3[1..] == z;
  }

  /** Once a digit was dropped after the '.', each later digit is dropped too, and leaves the exponent as it is. */
  lemma {:induction false} DroppedFractionRun(b: seq<byte>, j: int, i: nat, k: nat, st: Scan, fixed: bool)
    requires j < |b| && i <= k <= j + 1 && AllDigits(b[i..k])
    requires st.dot && st.full && (!fixed ==> st.e < 0 && st.m * 10 >= Decimals.Two64)
    ensures ScanLoop(b, j, i, st, fixed) ==
            ScanLoop(b, j, k, st.(v := st.v.(loss := st.v.loss || (fixed && Accumulate(0, b[i..k]) != 0)),
                                  digit := st.digit || i < k), fixed)
    decreases k - i
  {
    if i < k {
      var d := b[i] - Zero;
      assert b[i..k][0] == b[i] && b[i..k][1..] == b[i + 1..k];
      ScanDigit(b, j, i, st, fixed);
      var st1 := st.(v := st.v.(loss := st.v.loss || (fixed && d != 0)), digit := true);
      assert DigitStep(st, d, fixed) == st1;
      DroppedFractionRun(b, j, i + 1, k, st1, fixed);
      AccumulateNonZero(b[i..k]);
    } else {
      assert b[i..k] == [];
    }
  }

  /** Once a digit was dropped before the '.', each later digit is dropped too, and counted in the exponent. */
  lemma {:induction false} DroppedRun(b: seq<byte>, j: int, i: nat, k: nat, st: Scan)
    requires j < |b| && i <= k <= j + 1 && AllDigits(b[i..k])
    requires !st.dot && st.full && st.e >= 0 && st.e as int + (k - i) <= MaxInt64
    ensures ScanLoop(b, j, i, st, true) ==
            ScanLoop(b, j, k, st.(v := st.v.(loss := st.v.loss || Accumulate(0, b[i..k]) != 0),
                                  e := st.e + (k - i), digit := st.digit || i < k), true)
    decreases k - i
  {
    if i < k {
      var d := b[i] - Zero;
      assert b[i..k][0] == b[i] && b[i..k][1..] == b[i + 1..k];
      ScanDigit(b, j, i, st, true);
      var st1 := st.(v := st.v.(loss := st.v.loss || d != 0), e := st.e + 1, digit := true);
      assert DigitStep(st, d, true) == st1;
      DroppedRun(b, j, i + 1, k, st1);
      AccumulateNonZero(b[i..k]);
    } else {
      assert b[i..k] == [];
    }
  }

  /** Reading digits after m is m shifted left by their count, plus their own value. */
  lemma {:induction false} AccumulateShift(m: nat, ds: seq<byte>)
    requires AllDigits(ds)
    ensures Accumulate(m, ds) == m * Pow10(|ds|) + Accumulate(0, ds)
    decreases |ds|
  {
    if |ds| > 0 {
      var d := ds[0] - Zero;
      var p := Pow10(|ds[1..]|);
      AccumulateShift(10 * m + d, ds[1..]);
      AccumulateShift(d, ds[1..]);
      assert Accumulate(0, ds) == Accumulate(d, ds[1..]);
      assert Pow10(|ds|) == 10 * p;
      Distribute(m, d, p);
    }
  }

  lemma Distribute(m: nat, d: nat, p: nat)
    ensures (10 * m + d) * p == m * (10 * p) + d * p
  {
  }

  /** A run of n digits is below 10^n. */
  lemma {:induction false} AccumulateBelow(ds: seq<byte>)
    requires AllDigits(ds)
    ensures Accumulate(0, ds) < Pow10(|ds|)
    decreases |ds|
  {
    if |ds| > 0 {
      var d := ds[0] - Zero;
      AccumulateShift(d, ds[1..]);
      AccumulateBelow(ds[1..]);
      var p := Pow10(|ds[1..]|);
      assert Pow10(|ds|) == 10 * p;
      assert d * p + Accumulate(0, ds[1..]) < (d + 1) * p;
      MulMonotone(d + 1, 10, p);
    }
  }

  /** A run of digits reads as 0 exactly when every digit is '0'. */
  lemma {:induction false} AccumulateNonZero(ds: seq<byte>)
    requires |ds| > 0 && AllDigits(ds)
    ensures Accumulate(0, ds) != 0 <==> ds[0] != Zero || Accumulate(0, ds[1..]) != 0
  {
    var d := ds[0] - Zero;
    AccumulateShift(d, ds[1..]);
    if d != 0 {
      MulMonotone(1, d, Pow10(|ds[1..]|));
    }
  }

  /**
   * An exponent mark as the last byte: as written the guard reads the byte
   * after it, past the end of "1e"; corrected, the mark is left to the unit
   * reader, which knows no unit "e".
   */
  lemma {:induction false} ExponentMarkAtEnd(x: seq<byte>, mark: byte, units: seq<Unit>)
    requires |x| > 0 && AllDigits(x) && 0 < Accumulate(0, x) < Decimals.Two64
    requires IsExponentMark(mark) && UnitMatch(units, 0x65).None?
    ensures FromBytesWith(x + [mark], units, false) == None
    ensures FromBytes(x + [mark], units) == Scanned(Vme(NoBits, Accumulate(0, x), 0), ErrUnitSyntax)
  {
    var b := x + [mark];
    TrimmedAscii(b);
    ReadsScan(b, b, units, false);
    ReadsScan(b, b, units, true);
    ScanToMark(b, x, false);
    ScanToMark(b, x, true);
    assert b[|x|..|x| + 1] == [mark];
    MarkHash(mark);
  }

  /** The scan of digits x up to an exponent mark that ends the text. */
  lemma {:induction false} ScanToMark(b: seq<byte>, x: seq<byte>, fixed: bool)
    requires |x| > 0 && AllDigits(x) && Accumulate(0, x) < Decimals.Two64
    requires |b| == |x| + 1 && b[..|x|] == x && IsExponentMark(b[|x|])
    ensures ScanLoop(b, |x|, 0, Fresh(b), fixed) ==
            if fixed then Stopped(|x|, Scan(NoBits, Accumulate(0, x), 0, false, true, false)) else IndexPanic
  {
    assert b[0..|x|] == x;
    ScanDigitRun(b, |x|, 0, |x|, Fresh(b), fixed);
  }

  /** The hash of a lone exponent mark, as a unit name, is that of "e". */
  lemma {:induction false} MarkHash(mark: byte)
    requires IsExponentMark(mark)
    ensures UnitHashOf([mark]) == 0x65
  {
    var bs: seq<byte> := [mark];
    assert bs[1..] == [];
    assert RunesOf(bs) == [mark as nat];
    assert ToLower(mark) == 0x65;
    HashStepSmall(0, 0x65);
    assert HashRunes(0, [mark as nat]) == HashRunes(HashStep(0, 0x65), []);
  }
}
