/**
 * The text formatter vmetBytes (core.go:460-529) and the spelling of the
 * magic states veMagicBytes (core.go:533-563). A tuple with a mantissa is
 * written as an optional '~' (inexact, extended output only), an optional
 * '-', the digits of the mantissa with the '.' placed by the exponent and
 * the trailing zeros a positive exponent stands for; a zero mantissa is
 * "0" or the name of its magic state; the unit name and the quotes come
 * last. The functions below specify the text; the methods build it with
 * the source's loops.
 */
module TextFormat {
  import opened Bits
  import opened Vmes
  import opened TextParse

  /** 'I', 'n', 'f'. */
  const InfText: seq<byte> := [0x49, 0x6e, 0x66]
  /** 'N', 'a', 'N'. */
  const NaNText: seq<byte> := [0x4e, 0x61, 0x4e]
  /** 'n', 'u', 'l', 'l'. */
  const NullText: seq<byte> := [0x6e, 0x75, 0x6c, 0x6c]

  /**
   * veMagicBytes(v, e, ext): with extended output the infinities are
   * "+Inf" and "-Inf", the exponent 0 is "~0", MinInt64 is "+~0" or "-~0"
   * and any other exponent is "NaN"; without it near-zero and ~0 are "0"
   * and the rest "null".
   */
  function MagicText(v: V, e: int64, ext: bool): (s: seq<byte>)
    ensures ext && e == MaxInt64 ==> s == [if v.sign then Minus else Plus] + InfText
    ensures !ext ==> s == [Zero] || s == NullText
  {
    if ext then
      if e == MaxInt64 then [if v.sign then Minus else Plus] + InfText
      else if e == 0 then [Tilde, Zero]
      else if e > MinInt64 then NaNText
      else [if v.sign then Minus else Plus, Tilde, Zero]
    else if e == 0 || e == MinInt64 then [Zero]
    else NullText
  }

  function Zeros(n: nat): (s: seq<byte>)
    ensures |s| == n && forall k :: 0 <= k < n ==> s[k] == Zero
  {
    seq(n, _ => Zero)
  }

  /** The n lowest decimal digits of m as ASCII, most significant first. */
  function DecimalText(m: nat, n: nat): (ds: seq<byte>)
    ensures |ds| == n && AllDigits(ds)
  {
    if n == 0 then [] else DecimalText(m / 10, n - 1) + [DigitByte(m % 10)]
  }

  /**
   * The loop of core.go:476-494 over the digits ds of the positions
   * |ds| - 1 down to 0: the '.' goes before the digit of weight 10^-1
   * (preceded by "0" when nothing was written yet), and a digit is written
   * once one was written, when it is not 0, or from the units position
   * down. The test of the '.', `int64(i)+e+1 == 0`, cannot be met by a
   * wrapped sum, so it is written on integers; the test `int64(i)+e <= 0`
   * is IntegerDigit.
   */
  function DigitText(ds: seq<byte>, e: int64, output: bool): (s: seq<byte>)
    requires |ds| <= TenPowLen && AllDigits(ds)
  {
    if |ds| == 0 then []
    else
      var i := |ds| - 1;
      var point := i + e + 1 == 0;
      var lead := if !point then [] else if output then [Dot] else [Zero, Dot];
      var shown := output || point || ds[0] != Zero || IntegerDigit(i, e);
      (if shown then lead + [ds[0]] else lead) + DigitText(ds[1..], e, shown)
  }

  /**
   * The test `int64(i)+e <= 0` of core.go:487: the position i is at or
   * right of the units digit, or the sum wraps past MaxInt64 to a negative
   * int64.
   */
  predicate IntegerDigit(i: nat, e: int64)
  {
    i + e <= 0 || i + e > MaxInt64
  }

  /** IntegerDigit is the wrapped comparison. */
  lemma IntegerDigitWraps(i: nat, e: int64)
    requires i < TenPowLen
    ensures IntegerDigit(i, e) == (Wrap64(i + e) <= 0)
  {
    Wrap64Shift(i + e);
  }

  /** The ASCII digit of a value below 10. */
  function DigitByte(d: nat): (c: byte)
    requires d < 10
    ensures IsDigit(c) && c - Zero == d
  {
    Zero + d
  }

  /**
   * Below 10^(i+1), the leading digit is the quotient by 10^i (the
   * bits.Div64 of core.go:485) and the rest are the digits of the remainder.
   */
  lemma {:induction false} LeadingDigit(m: nat, i: nat)
    requires m < Pow10(i + 1)
    ensures m / Pow10(i) < 10 && m % Pow10(i) < Pow10(i)
    ensures DecimalText(m, i + 1) == [DigitByte(m / Pow10(i))] + DecimalText(m % Pow10(i), i)
    decreases i
  {
    DivBelow(m, Pow10(i), 10);
    if i > 0 {
      var a, p := m / 10, Pow10(i - 1);
      assert Pow10(i) == 10 * p;
      DivBelow(m, 10, Pow10(i));
      LeadingDigit(a, i - 1);
      DivideByTens(m, p);
      var r := m % Pow10(i);
      assert r / 10 == a % p && r % 10 == m % 10;
      assert DecimalText(r, i) == DecimalText(a % p, i - 1) + [DigitByte(m % 10)];
      assert DecimalText(m, i + 1) == DecimalText(a, i) + [DigitByte(m % 10)];
    }
  }

  /** Dividing by 10 * p is dividing by 10, then by p. */
  lemma DivideByTens(m: nat, p: nat)
    requires p > 0
    ensures m / (10 * p) == m / 10 / p
    ensures m % (10 * p) / 10 == m / 10 % p && m % (10 * p) % 10 == m % 10
  {
    var a, d := m / 10, m % 10;
    var q, r := a / p, a % p;
    DivModBasics(a, p);
    DivModBasics(m, 10);
    assert m == (10 * p) * q + (10 * r + d);
    DivModUnique(m, 10 * p, q, 10 * r + d);
    DivModUnique(10 * r + d, 10, r, d);
  }

  /**
   * How many zeros the two loops of core.go:496-503 append after the
   * digits: the first counts e down from e - 1 to places, the second counts
   * places down while e + places >= 0. With places = 0, as every caller
   * passes, they are the e zeros of a positive exponent.
   */
  function TrailingZeros(e: int64, places: int32): (n: nat)
    requires places >= 0
    ensures places == 0 && e > MinInt64 ==> n == if e > 0 then e as int else 0
  {
    var e1 := Wrap64(e - 1);
    var n1 := if e1 >= places then e1 - places + 1 else 0;
    var e2 := e1 - n1;
    n1 + if e2 + places >= 0 then e2 + places + 1 else 0
  }

  /**
   * The text of a tuple with a mantissa: '~' for an inexact value in
   * extended output, '-' for a negative one, the digits and the trailing
   * zeros.
   */
  function MantissaText(t: Vme, places: int32, ext: bool): (s: seq<byte>)
    requires places >= 0
  {
    (if ext && t.v.loss then [Tilde] else []) + (if t.v.sign then [Minus] else []) +
    DigitText(DecimalText(t.m, TenPowLen), t.e, false) + Zeros(TrailingZeros(t.e, places))
  }

  /** The text of a tuple without the unit and the quotes. */
  function TupleBody(t: Vme, places: int32, ext: bool): (s: seq<byte>)
    requires places >= 0
  {
    if t.m > 0 then MantissaText(t, places, ext)
    else if t.v.loss then MagicText(t.v, t.e, ext)
    else [Zero] + (if places > 0 then [Dot] + Zeros(places as int) else [])
  }

  /** What vmetBytes(b, v, m, e, places, t, ext, str) appends to b; unitName is t.u, or empty for a nil t. */
  function TupleText(t: Vme, places: int32, unitName: seq<byte>, ext: bool, str: bool): (s: seq<byte>)
    requires places >= 0
  {
    var q := if str then [Quote] else [];
    q + TupleBody(t, places, ext) + unitName + q
  }

  /** The digit loop of core.go:476-494, over the twenty digits of a mantissa. */
  method AppendDigits(b: seq<byte>, m0: uint64, e: int64) returns (out: seq<byte>)
    ensures out == b + DigitText(DecimalText(m0, TenPowLen), e, false)
  {
    Pow10Above64(20);
    out := b;
    var m: nat := m0;
    var output := false;
    var i := 19;
    ghost var ds := DecimalText(m0, TenPowLen);
    ghost var whole := b + DigitText(ds, e, false);
    while i >= 0
      invariant -1 <= i <= 19 && m < Pow10(i + 1)
      invariant ds == DecimalText(m, i + 1)
      invariant out + DigitText(ds, e, output) == whole
      decreases i + 1
    {
      LeadingDigit(m, i);
      ghost var before, output0 := out, output;
      if i + e + 1 == 0 {
        if !output {
          out := out + [Zero];
        }
        out := out + [Dot];
        output := true;
      }
      // bits.Div64(0, m, tenPow[i])
      var p := TenPow(i);
      var q, r := m / p, m % p;
      if output || q > 0 || IntegerDigit(i, e) {
        out := out + [DigitByte(q)];
        output := true;
      }
      DigitTextStep(ds, e, output0, before, out, output);
      ds := ds[1..];
      m := r;
      i := i - 1;
    }
  }

  /** One turn of the digit loop: what it appends, then the rest of the loop. */
  lemma DigitTextStep(ds: seq<byte>, e: int64, output0: bool, before: seq<byte>, out: seq<byte>, output: bool)
    requires 0 < |ds| <= TenPowLen && AllDigits(ds)
    requires var i := |ds| - 1;
             var lead := if i + e + 1 != 0 then [] else if output0 then [Dot] else [Zero, Dot];
             var shown := output0 || i + e + 1 == 0 || ds[0] != Zero || IntegerDigit(i, e);
             output == shown && out == before + lead + (if shown then [ds[0]] else [])
    ensures out + DigitText(ds[1..], e, output) == before + DigitText(ds, e, output0)
  {
  }

  /** The two zero loops of core.go:496-503, entered with e + i = e - 1. */
  method AppendTrailingZeros(b: seq<byte>, e0: int64, places0: int32) returns (out: seq<byte>)
    requires places0 >= 0
    ensures out == b + Zeros(TrailingZeros(e0, places0))
  {
    out := b;
    var e := Wrap64(e0 - 1);
    ghost var e1 := e;
    ghost var n1 := if e1 >= places0 then e1 - places0 + 1 else 0;
    while e >= places0
      invariant e <= e1 && (e1 >= places0 ==> e >= places0 - 1) && (e1 < places0 ==> e == e1)
      invariant out == b + Zeros(e1 - e)
      decreases e - places0
    {
      out := out + [Zero];
      e := e - 1;
    }
    assert e1 - e == n1;
    var places: int := places0;
    while e + places >= 0
      invariant places <= places0
      invariant e + places0 >= 0 ==> e + places >= -1
      invariant e + places0 < 0 ==> places == places0
      invariant out == b + Zeros(n1 + (places0 - places))
      decreases e + places
    {
      out := out + [Zero];
      places := places - 1;
    }
  }

  /** vmetBytes(b, v, m, e, places, t, ext, str), for places >= 0. */
  method AppendTuple(b: seq<byte>, t: Vme, places: int32, unitName: seq<byte>, ext: bool, str: bool)
    returns (out: seq<byte>)
    requires places >= 0
    ensures out == b + TupleText(t, places, unitName, ext, str)
  {
    var q: seq<byte> := if str then [Quote] else [];
    out := AppendBody(b + q, t, places, ext);
    out := out + unitName + q;
    Concat4(b, q, TupleBody(t, places, ext), unitName);
    assert out == b + (q + TupleBody(t, places, ext) + unitName) + q;
  }

  /** The body of vmetBytes between the quotes and before the unit (core.go:465-519). */
  method AppendBody(b: seq<byte>, t: Vme, places: int32, ext: bool) returns (out: seq<byte>)
    requires places >= 0
    ensures out == b + TupleBody(t, places, ext)
  {
    if t.m > 0 {
      out := AppendMantissa(b, t, places, ext);
    } else if t.v.loss {
      out := b + MagicText(t.v, t.e, ext);
    } else {
      out := AppendZero(b, places);
    }
  }

  /** The branch m > 0 of vmetBytes (core.go:465-503). */
  method AppendMantissa(b: seq<byte>, t: Vme, places: int32, ext: bool) returns (out: seq<byte>)
    requires places >= 0
    ensures out == b + MantissaText(t, places, ext)
  {
    out := b;
    if ext && t.v.loss {
      out := out + [Tilde];
    }
    if t.v.sign {
      out := out + [Minus];
    }
    ghost var signs := out[|b|..];
    assert signs == (if ext && t.v.loss then [Tilde] else []) + (if t.v.sign then [Minus] else []);
    ghost var digits := DigitText(DecimalText(t.m, TenPowLen), t.e, false);
    ghost var zeros := Zeros(TrailingZeros(t.e, places));
    out := AppendDigits(out, t.m, t.e);
    out := AppendTrailingZeros(out, t.e, places);
    Concat4(b, signs, digits, zeros);
  }
  lemma Concat4(a: seq<byte>, b: seq<byte>, c: seq<byte>, d: seq<byte>)
    ensures a + b + c + d == a + (b + c + d)
  {
  }

  /** A zero without loss: "0", then a '.' and places zeros when places > 0 (core.go:509-517). */
  method AppendZero(b: seq<byte>, places: int32) returns (out: seq<byte>)
    requires places >= 0
    ensures out == b + [Zero] + if places > 0 then [Dot] + Zeros(places as int) else []
  {
    out := b + [Zero];
    if places > 0 {
      out := out + [Dot];
      var p := places;
      while p > 0
        invariant 0 <= p <= places
        invariant out == b + [Zero, Dot] + Zeros(places - p)
      {
        out := out + [Zero];
        p := p - 1;
      }
    }
  }

  /* The text of a mantissa, digit by digit. */

  /** The digits without their leading zeros, keeping the last one. */
  function Unpadded(ds: seq<byte>): (u: seq<byte>)
    requires AllDigits(ds)
    ensures AllDigits(u) && (|ds| > 0 ==> |u| > 0)
    decreases |ds|
  {
    if |ds| > 1 && ds[0] == Zero then Unpadded(ds[1..]) else ds
  }

  /** Leading zeros add nothing to the value of the digits, whatever digits follow. */
  lemma {:induction false} UnpaddedValue(ds: seq<byte>, y: seq<byte>)
    requires AllDigits(ds) && AllDigits(y) && AllDigits(ds + y)
    ensures AllDigits(Unpadded(ds) + y) && Accumulate(0, Unpadded(ds) + y) == Accumulate(0, ds + y)
    decreases |ds|
  {
    AccumulateAppend(0, Unpadded(ds), y);
    if |ds| > 1 && ds[0] == Zero {
      assert (ds + y)[1..] == ds[1..] + y;
      UnpaddedValue(ds[1..], y);
    }
  }

  /** The n lowest digits of m read back as m modulo 10^n. */
  lemma {:induction false} DecimalTextValue(m: nat, n: nat)
    ensures Accumulate(0, DecimalText(m, n)) == m % Pow10(n)
    decreases n
  {
    if n > 0 {
      var p := Pow10(n - 1);
      var d := DigitByte(m % 10);
      DecimalTextValue(m / 10, n - 1);
      AccumulateAppend(0, DecimalText(m / 10, n - 1), [d]);
      assert Accumulate(m / 10 % p, [d]) == 10 * (m / 10 % p) + m % 10;
      DivideByTens(m, p);
      DivModBasics(m % (10 * p), 10);
    }
  }

  /** The twenty digits of a mantissa read back as the mantissa. */
  lemma MantissaDigits(m: uint64)
    ensures Accumulate(0, DecimalText(m, TenPowLen)) == m
  {
    DecimalTextValue(m, TenPowLen);
    Pow10Above64(20);
    DivModUnique(m, Pow10(20), 0, m);
  }

  /** Once a digit was written, every later digit is written, and no '.' falls among them. */
  lemma {:induction false} ShownDigits(ds: seq<byte>, e: int64)
    requires |ds| <= TenPowLen && AllDigits(ds)
    requires e >= 0 || e < -|ds|
    ensures DigitText(ds, e, true) == ds
    decreases |ds|
  {
    if |ds| > 0 {
      ShownDigits(ds[1..], e);
    }
  }

  /** The '.' before the first digit, with "0" before it when nothing was written. */
  lemma PointFirst(ds: seq<byte>, e: int64, output: bool)
    requires 0 < |ds| <= TenPowLen && AllDigits(ds) && e == -|ds|
    ensures DigitText(ds, e, output) == (if output then [Dot] else [Zero, Dot]) + ds
  {
    ShownDigits(ds[1..], e);
  }

  /**
   * An exponent of 0 or more: the digits without their leading zeros, when
   * one of them is not 0.
   */
  lemma {:induction false} IntegerDigits(ds: seq<byte>, e: int64)
    requires 0 < |ds| <= TenPowLen && AllDigits(ds) && Accumulate(0, ds) > 0
    requires 0 <= e <= MaxInt64 - TenPowLen
    ensures DigitText(ds, e, false) == Unpadded(ds)
    decreases |ds|
  {
    if ds[0] == Zero {
      assert Accumulate(0, ds) == Accumulate(0, ds[1..]);
      IntegerDigits(ds[1..], e);
    } else {
      ShownDigits(ds[1..], e);
    }
  }

  /**
   * A negative exponent -k with fewer than |ds| fractional digits: the
   * n = |ds| - k integer digits (without leading zeros unless a digit was
   * written, but always the units digit), the '.', and the k fractional
   * digits.
   */
  lemma {:induction false} FractionDigits(ds: seq<byte>, e: int64, output: bool)
    requires |ds| <= TenPowLen && AllDigits(ds) && -|ds| < e <= -1
    ensures var n := |ds| + e;
            DigitText(ds, e, output) == (if output then ds[..n] else Unpadded(ds[..n])) + [Dot] + ds[n..]
    decreases |ds|
  {
    var n := |ds| + e;
    var shown := output || ds[0] != Zero || n == 1;
    DigitTextUnfold(ds, e, output);
    if n == 1 {
      PointFirst(ds[1..], e, true);
      assert ds[..1] == [ds[0]];
    } else {
      FractionDigits(ds[1..], e, shown);
      FractionStep(ds, n, output, shown, DigitText(ds[1..], e, shown));
    }
  }

  /** A step of the digit loop where no '.' is written. */
  lemma DigitTextUnfold(ds: seq<byte>, e: int64, output: bool)
    requires 0 < |ds| <= TenPowLen && AllDigits(ds) && |ds| + e != 0
    ensures var shown := output || ds[0] != Zero || IntegerDigit(|ds| - 1, e);
            DigitText(ds, e, output) == (if shown then [ds[0]] else []) + DigitText(ds[1..], e, shown)
  {
  }

  /** The sequence bookkeeping of a step of FractionDigits. */
  lemma FractionStep(ds: seq<byte>, n: nat, output: bool, shown: bool, rest: seq<byte>)
    requires AllDigits(ds) && 1 < n < |ds|
    requires shown == (output || ds[0] != Zero)
    requires rest == (if shown then ds[1..][..n - 1] else Unpadded(ds[1..][..n - 1])) + [Dot] + ds[1..][n - 1..]
    ensures (if shown then [ds[0]] else []) + rest == (if output then ds[..n] else Unpadded(ds[..n])) + [Dot] + ds[n..]
  {
    assert ds[1..][..n - 1] == ds[..n][1..] && ds[1..][n - 1..] == ds[n..];
    assert ds[..n] == [ds[0]] + ds[..n][1..];
  }

  /** Appending n zeros multiplies by 10^n. */
  lemma {:induction false} AccumulateZeros(a: nat, n: nat)
    ensures AllDigits(Zeros(n)) && Accumulate(a, Zeros(n)) == a * Pow10(n)
    decreases n
  {
    if n > 0 {
      assert Zeros(n)[1..] == Zeros(n - 1);
      AccumulateZeros(10 * a, n - 1);
    }
  }
}
