/**
 * The binary form of a decimal (decimal.go:943-994): a flag byte holding
 * the top byte of the word with the sign bit, whose bit 0 says whether a
 * mantissa follows, then the 57-bit mantissa as an unsigned LEB128 varint
 * (the encoding of Go's binary.PutUvarint and binary.Uvarint, written out
 * here).
 */
module Binary {
  import opened Bits
  import opened Decimals

  const Two56: nat := 0x100_0000_0000_0000

  /** The maximum length of a 64-bit varint (binary.MaxVarintLen64). */
  const MaxVarintLen64: nat := 10

  /**
   * x << 7k on unbounded naturals: x times the weight of the k-th
   * seven-bit group, written as k multiplications by the constant 0x80 so
   * that the solver keeps to linear arithmetic.
   */
  function Shift(x: nat, k: nat): nat {
    if k == 0 then x else 0x80 * Shift(x, k - 1)
  }

  lemma {:induction false} ShiftAdd(a: nat, b: nat, k: nat)
    ensures Shift(a + b, k) == Shift(a, k) + Shift(b, k)
  {
    if k > 0 {
      ShiftAdd(a, b, k - 1);
    }
  }

  lemma {:induction false} ShiftMonotone(a: nat, b: nat, k: nat)
    requires a <= b
    ensures Shift(a, k) <= Shift(b, k)
  {
    if k > 0 {
      ShiftMonotone(a, b, k - 1);
    }
  }

  /** Shifting 0x80 * x by k groups is shifting x by k + 1 groups. */
  lemma {:induction false} ShiftGroup(x: nat, k: nat)
    ensures Shift(0x80 * x, k) == Shift(x, k + 1)
  {
    if k > 0 {
      ShiftGroup(x, k - 1);
    }
  }

  lemma {:induction false} ShiftPositive(x: nat, k: nat)
    requires x >= 1
    ensures Shift(x, k) >= 1
  {
    if k > 0 {
      ShiftPositive(x, k - 1);
    }
  }

  lemma {:induction false} ShiftGrows(j: nat, k: nat)
    requires j <= k
    ensures Shift(1, j) <= Shift(1, k)
  {
    if j < k {
      ShiftGrows(j, k - 1);
      ShiftPositive(1, k - 1);
    }
  }

  lemma ShiftAt9()
    ensures Shift(1, 9) == Two63 && Shift(2, 9) == Two64
  {
    ShiftAdd(1, 1, 9);
  }

  /** A group added below bit 7i keeps the value below bit 7(i + 1). */
  lemma GroupFits(acc: nat, i: nat, b: nat)
    requires acc < Shift(1, i) && b < 0x80
    ensures acc + Shift(b, i) < Shift(1, i + 1)
  {
    ShiftMonotone(b, 0x7f, i);
    ShiftAdd(0x7f, 1, i);
    ShiftGroup(1, i);
  }

  function Pow2(n: nat): (p: nat)
    ensures p >= 1
  {
    if n == 0 then 1 else 2 * Pow2(n - 1)
  }

  lemma {:induction false} Pow2Add(a: nat, b: nat)
    ensures Pow2(a + b) == Pow2(a) * Pow2(b)
  {
    if a > 0 {
      Pow2Add(a - 1, b);
    }
  }

  lemma {:induction false} Pow2OfShift(k: nat)
    ensures Pow2(7 * k) == Shift(1, k)
  {
    if k > 0 {
      Pow2OfShift(k - 1);
      Pow2Add(7, 7 * (k - 1));
      assert Pow2(7) == 0x80;
    }
  }

  lemma Pow2At64()
    ensures Pow2(64) == Two64
  {
    Pow2OfShift(9);
    Pow2Add(63, 1);
    ShiftAt9();
  }

  /** The LEB128 bytes of x: seven bits per byte, low group first, bit 7 set on all but the last. */
  function VarintBytes(x: nat): (bs: seq<byte>)
  {
    if x < 0x80 then [x] else [x % 0x80 + 0x80] + VarintBytes(x / 0x80)
  }

  /** Only the last byte of a varint has bit 7 clear. */
  lemma {:induction false} VarintShape(x: nat)
    ensures var bs := VarintBytes(x);
            1 <= |bs| && bs[|bs| - 1] < 0x80 && forall k :: 0 <= k < |bs| - 1 ==> bs[k] >= 0x80
  {
    if x >= 0x80 {
      VarintShape(x / 0x80);
    }
  }

  /** A value below 2^(7k) takes at most k bytes. */
  lemma {:induction false} VarintLength(x: nat, k: nat)
    requires 1 <= k && x < Shift(1, k)
    ensures |VarintBytes(x)| <= k
  {
    if x >= 0x80 {
      ShiftGroup(1, k - 1);
      VarintLength(x / 0x80, k - 1);
    }
  }

  /**
   * binary.PutUvarint(buf[off:], x): writes the varint of x at off and
   * returns its length, leaving every other byte alone.
   */
  method PutUvarint(buf: array<byte>, off: nat, x: uint64) returns (n: nat)
    requires off + |VarintBytes(x)| <= buf.Length
    modifies buf
    ensures n == |VarintBytes(x)| && buf[off..off + n] == VarintBytes(x)
    ensures forall j :: 0 <= j < buf.Length && !(off <= j < off + n) ==> buf[j] == old(buf[j])
  {
    var v: nat := x;
    var i := 0;
    ghost var written: seq<byte> := [];
    while v >= 0x80
      invariant off + i + |VarintBytes(v)| <= buf.Length
      invariant |written| == i && buf[off..off + i] == written
      invariant VarintBytes(x) == written + VarintBytes(v)
      invariant forall j :: 0 <= j < buf.Length && !(off <= j < off + i) ==> buf[j] == old(buf[j])
      decreases v
    {
      var b: byte := v % 0x80 + 0x80;
      VarintAppend(x, v, written);
      buf[off + i] := b;
      written := written + [b];
      v := v / 0x80;
      i := i + 1;
    }
    buf[off + i] := v;
    written := written + [v];
    n := i + 1;
  }

  lemma VarintAppend(x: nat, v: nat, written: seq<byte>)
    requires v >= 0x80 && VarintBytes(x) == written + VarintBytes(v)
    ensures VarintBytes(x) == (written + [v % 0x80 + 0x80]) + VarintBytes(v / 0x80)
    ensures |VarintBytes(v)| == 1 + |VarintBytes(v / 0x80)|
  {
    assert VarintBytes(v) == [v % 0x80 + 0x80] + VarintBytes(v / 0x80);
  }

  /** What binary.Uvarint returns: the value and the count of bytes read, 0 for too few bytes, -(i + 1) for an overflow at byte i. */
  datatype Varint = Varint(x: nat, n: int)

  /**
   * binary.Uvarint on bytes that stand at index i of the buffer: byte 10
   * is an overflow, and so is a last byte above 1 at index 9; the value is
   * counted from the first of these bytes.
   */
  function UvarintAt(bs: seq<byte>, i: nat): (r: Varint)
    requires i <= MaxVarintLen64
    decreases |bs|
  {
    if |bs| == 0 then Varint(0, 0)
    else if i == MaxVarintLen64 then Varint(0, -(i as int + 1))
    else if bs[0] < 0x80 then
      if i == MaxVarintLen64 - 1 && bs[0] > 1 then Varint(0, -(i as int + 1)) else Varint(bs[0], i + 1)
    else
      var r := UvarintAt(bs[1..], i + 1);
      if r.n <= 0 then r else Varint(bs[0] - 0x80 + 0x80 * r.x, r.n)
  }

  /** A varint read at index i is counted past i and fits in the 64 - 7i bits left. */
  lemma {:induction false} UvarintBound(bs: seq<byte>, i: nat)
    requires i <= MaxVarintLen64
    decreases |bs|
    ensures var r := UvarintAt(bs, i);
            r.n > 0 ==> i < r.n <= MaxVarintLen64 && r.x < Shift(2, MaxVarintLen64 - 1 - i)
  {
    if |bs| > 0 && i < MaxVarintLen64 {
      if bs[0] >= 0x80 {
        UvarintBound(bs[1..], i + 1);
        var r := UvarintAt(bs[1..], i + 1);
        if r.n > 0 {
          var k := MaxVarintLen64 - 2 - i;
          ShiftGroup(2, k);
          ShiftMonotone(r.x + 1, Shift(2, k), 0);
        }
      } else {
        ShiftPositive(2, MaxVarintLen64 - 1 - i);
        if i < MaxVarintLen64 - 1 {
          ShiftMonotone(1, 2, MaxVarintLen64 - 2 - i);
          ShiftGroup(1, MaxVarintLen64 - 2 - i);
          ShiftGrows(1, MaxVarintLen64 - 1 - i);
        }
      }
    }
  }

  /** The varint read back from the front of the bytes written for a value that fits. */
  lemma {:induction false} VarintRoundTrip(x: nat, i: nat, rest: seq<byte>)
    requires i < MaxVarintLen64 && x < Shift(2, MaxVarintLen64 - 1 - i)
    ensures UvarintAt(VarintBytes(x) + rest, i) == Varint(x, i + |VarintBytes(x)|)
  {
    var bs := VarintBytes(x) + rest;
    if x >= 0x80 {
      var k := MaxVarintLen64 - 1 - i;
      if k == 0 {
        assert false;
      }
      ShiftGroup(2, k - 1);
      VarintRoundTrip(x / 0x80, i + 1, rest);
      assert bs[1..] == VarintBytes(x / 0x80) + rest;
    }
  }

  /** The value accumulated from the first i bytes combined with what the remaining bytes give. */
  function Shifted(acc: nat, i: nat, r: Varint): Varint {
    if r.n <= 0 then r else Varint(acc + Shift(r.x, i), r.n)
  }

  /**
   * binary.Uvarint(buf): the loop reads a group of seven bits per byte;
   * b << s with s == 7i is Shift(b, i), and x | (b << s) is a sum because
   * x has no bit at or above s.
   */
  method Uvarint(buf: seq<byte>) returns (x: uint64, n: int)
    ensures Varint(x, n) == UvarintAt(buf, 0)
  {
    var acc: nat := 0;
    var i: nat := 0;
    while i < |buf|
      invariant i <= |buf| && i <= MaxVarintLen64 && acc < Shift(1, i)
      invariant UvarintAt(buf, 0) == Shifted(acc, i, UvarintAt(buf[i..], i))
    {
      if i == MaxVarintLen64 {
        return 0, -(i as int + 1);
      }
      var b := buf[i];
      if b < 0x80 {
        UvarintLast(buf, i, acc);
        if i == MaxVarintLen64 - 1 && b > 1 {
          return 0, -(i as int + 1);
        }
        UvarintFits(acc, i, b);
        return acc + Shift(b, i), i + 1;
      }
      UvarintNext(buf, i, acc);
      acc := acc + Shift(b - 0x80, i);
      i := i + 1;
    }
    assert buf[i..] == [];
    return 0, 0;
  }

  lemma UvarintLast(buf: seq<byte>, i: nat, acc: nat)
    requires i < |buf| && i < MaxVarintLen64 && buf[i] < 0x80
    ensures Shifted(acc, i, UvarintAt(buf[i..], i)) ==
            if i == MaxVarintLen64 - 1 && buf[i] > 1 then Varint(0, -(i as int + 1))
            else Varint(acc + Shift(buf[i], i), i + 1)
  {
    var r := UvarintAt(buf[i..], i);
    assert r == if i == MaxVarintLen64 - 1 && buf[i] > 1 then Varint(0, -(i as int + 1)) else Varint(buf[i], i + 1);
  }

  lemma UvarintNext(buf: seq<byte>, i: nat, acc: nat)
    requires i < |buf| && i < MaxVarintLen64 && buf[i] >= 0x80 && acc < Shift(1, i)
    ensures acc + Shift(buf[i] - 0x80, i) < Shift(1, i + 1)
    ensures Shifted(acc, i, UvarintAt(buf[i..], i)) ==
            Shifted(acc + Shift(buf[i] - 0x80, i), i + 1, UvarintAt(buf[i + 1..], i + 1))
  {
    assert buf[i..][1..] == buf[i + 1..];
    var b := buf[i];
    GroupFits(acc, i, b - 0x80);
    var r := UvarintAt(buf[i + 1..], i + 1);
    if r.n > 0 {
      ShiftAdd(b - 0x80, 0x80 * r.x, i);
      ShiftGroup(r.x, i);
    }
  }

  lemma UvarintFits(acc: nat, i: nat, b: nat)
    requires i < MaxVarintLen64 && acc < Shift(1, i) && b < 0x80 && (i == MaxVarintLen64 - 1 ==> b <= 1)
    ensures acc + Shift(b, i) < Two64
  {
    ShiftAt9();
    if i < MaxVarintLen64 - 1 {
      GroupFits(acc, i, b);
      ShiftGrows(i + 1, 9);
    } else {
      ShiftMonotone(b, 1, 9);
    }
  }

  /** The top byte of the magnitude with the sign bit ORed in: (u | sign) >> 56 for d < 0, u >> 56 otherwise. */
  function FlagByte(d: int64): (x: byte)
  {
    SignedBits(d) / Two56
  }

  /**
   * The magnitude with the sign bit ORed in for d < 0 (u | sign): the bits
   * the flag byte is cut from. The sign bit reads back as the sign of the
   * decimal and the low 57 bits are the mantissa.
   */
  function SignedBits(d: int64): (u: uint64)
    ensures Word(u) == d && u % Two57 == Magnitude(d) % Two57
  {
    var u := Magnitude(d);
    if d < 0 && u < Two63 then u + Two63 else u
  }

  /** The bytes MarshalBinary returns. */
  function Marshalled(d: int64): (data: seq<byte>)
  {
    var x := FlagByte(d);
    var m := Magnitude(d) % Two57;
    if m == 0 then [x] else [if x % 2 == 1 then x else x + 1] + VarintBytes(m)
  }

  /** d.MarshalBinary() (decimal.go:969-994). */
  method MarshalBinary(d: int64) returns (data: seq<byte>)
    ensures data == Marshalled(d)
  {
    var u: nat;
    var x: byte;
    if d < 0 {
      u := Magnitude(d);
      x := (if u >= Two63 then u else u + Two63) / Two56;
    } else {
      u := d;
      x := u / Two56;
    }
    assert x == FlagByte(d);
    u := u % Two57;
    assert u == Magnitude(d) % Two57;
    if u == 0 {
      data := [x];
    } else {
      var buff := new byte[10];
      buff[0] := if x % 2 == 1 then x else x + 1;
      ShiftAt9();
      VarintLength(u, 9);
      var n := PutUvarint(buff, 1, u);
      data := buff[0..n + 1];
      assert data == [buff[0]] + buff[1..n + 1];
    }
  }

  /**
   * Unmarshalling the bytes MarshalBinary writes gives the decimal back,
   * for every word, the magic ones included.
   */
  lemma MarshalRoundTrip(d: int64)
    ensures Unmarshalled(Marshalled(d)) == Some(d)
  {
    var u := SignedBits(d);
    var x := FlagByte(d);
    var m := Magnitude(d) % Two57;
    var q := u / Two57;
    assert u == q * Two57 + m;
    DivModUnique(u, Two56, 2 * q + m / Two56, m % Two56);
    assert x / 2 == q && x % 2 == m / Two56;
    if m != 0 {
      var y := if x % 2 == 1 then x else x + 1;
      assert Marshalled(d) == [y] + VarintBytes(m);
      UnmarshalVarint(y, m);
      assert (y - 1) * Two56 + m == u;
    } else {
      assert Marshalled(d) == [x];
      assert x % 2 == 0 && x * Two56 == u;
      assert Unmarshalled([x]) == Some(Word(u));
    }
  }

  /** The flag byte y (bit 0 set) and the varint of m read back as the bits (y - 1) << 56 | m. */
  lemma UnmarshalVarint(y: byte, m: nat)
    requires y % 2 == 1 && 0 < m < Two57
    ensures Unmarshalled([y] + VarintBytes(m)) == Some(Word((y - 1) * Two56 + m))
  {
    var data := [y] + VarintBytes(m);
    assert data[1..] == VarintBytes(m) + [];
    ShiftAt9();
    VarintRoundTrip(m, 0, []);
    var q := (y - 1) / 2;
    assert (y - 1) * Two56 == q * Two57;
    Pow2At57();
    BitOrDisjoint(q * Two57, m, 57);
  }

  lemma Pow2At57()
    ensures Pow2(57) == Two57
  {
    Pow2OfShift(8);
    Pow2Add(56, 1);
    assert Shift(1, 8) == Two56;
  }

  /**
   * The shape of the marshalled bytes: a single flag byte exactly when the
   * mantissa is 0, and otherwise a flag byte with bit 0 set followed by at
   * most nine varint bytes, the last one with bit 7 clear.
   */
  lemma MarshalShape(d: int64)
    ensures var data := Marshalled(d);
            1 <= |data| <= MaxVarintLen64 &&
            (|data| == 1 <==> Magnitude(d) % Two57 == 0) &&
            (data[0] % 2 == 1 <==> Magnitude(d) % Two57 != 0) &&
            (|data| > 1 ==> data[|data| - 1] < 0x80)
  {
    var m := Magnitude(d) % Two57;
    var u := SignedBits(d);
    if m == 0 {
      DivModUnique(u, Two56, u / Two57 * 2, 0);
    } else {
      ShiftAt9();
      VarintLength(m, 9);
      VarintShape(m);
    }
  }

  /** The one-byte forms of Null, Zero and the three near-zero words (decimal_test.go:1263-1302). */
  lemma MarshalZeros()
    ensures Marshalled(Null) == [0x00] && Marshalled(Zero) == [0x80]
    ensures Marshalled(Decimals.NearZero) == [0xc0]
    ensures Marshalled(NearPositiveZero) == [0x60] && Marshalled(NearNegativeZero) == [0xe0]
  {
  }

  /** 100, -320 and 1.01 (decimal_test.go:1304-1326). */
  lemma MarshalNumbers()
    ensures Marshalled(100) == [0x01, 0x64]
    ensures Marshalled(-320) == [0x81, 0xc0, 0x02]
    ensures Marshalled(0x3c00_0000_0000_0065) == [0x3d, 0x65]
  {
    assert VarintBytes(100) == [0x64];
    assert VarintBytes(320) == [0xc0, 0x02];
    assert VarintBytes(0x65) == [0x65];
  }

  /** The buffers of decimal_test.go:1217-1261, and the empty one, which is ErrFormat. */
  lemma UnmarshalExamples()
    ensures Unmarshalled([]) == None
    ensures Unmarshalled([0x00]) == Some(Null) && Unmarshalled([0x80]) == Some(Zero)
    ensures Unmarshalled([0xc0]) == Some(Decimals.NearZero)
    ensures Unmarshalled([0x60]) == Some(NearPositiveZero) && Unmarshalled([0xe0]) == Some(NearNegativeZero)
    ensures Unmarshalled([0x01, 0x64]) == Some(100)
    ensures Unmarshalled([0xbd, 0x65]) == Some(-0x3c00_0000_0000_0065)
  {
    UnmarshalVarint(0x01, 100);
    UnmarshalVarint(0xbd, 0x65);
    assert VarintBytes(100) == [0x64];
    assert VarintBytes(0x65) == [0x65];
  }

  /** Decimal(u) for a uint64 u: Go's conversion wraps to the two's-complement int64. */
  function Signed64(u: uint64): int64 {
    if u >= Two63 then u - Two64 else u
  }

  /** a | b on natural numbers, bit by bit. */
  function BitOr(a: nat, b: nat): nat
    decreases a + b
  {
    if a == 0 then b
    else if b == 0 then a
    else (if a % 2 == 1 || b % 2 == 1 then 1 else 0) + 2 * BitOr(a / 2, b / 2)
  }

  lemma {:induction false} BitOrBound(a: nat, b: nat, k: nat)
    requires a < Pow2(k) && b < Pow2(k)
    ensures BitOr(a, b) < Pow2(k)
  {
    if a != 0 && b != 0 {
      BitOrBound(a / 2, b / 2, k - 1);
    }
  }

  /** OR of a value and a multiple of 2^k above it is their sum. */
  lemma {:induction false} BitOrDisjoint(a: nat, b: nat, k: nat)
    requires a % Pow2(k) == 0 && b < Pow2(k)
    ensures BitOr(a, b) == a + b
  {
    if a != 0 && b != 0 {
      assert k > 0;
      assert a % 2 == 0 && (a / 2) % Pow2(k - 1) == 0 by {
        var q := a / Pow2(k);
        assert a == q * Pow2(k);
        assert a == 2 * (q * Pow2(k - 1));
        DivModUnique(a / 2, Pow2(k - 1), q, 0);
      }
      BitOrDisjoint(a / 2, b / 2, k - 1);
    }
  }

  /** The decimal a data buffer holds, or None for ErrFormat. */
  function Unmarshalled(data: seq<byte>): (r: Option<int64>)
  {
    if |data| == 0 then None
    else
      var u := data[0] * Two56;
      if data[0] % 2 == 1 then
        var r := UvarintAt(data[1..], 0);
        if r.n <= 0 then None
        else
          UvarintBound(data[1..], 0);
          ShiftAt9();
          Pow2At64();
          BitOrBound(u - Two56, r.x, 64);
          Some(Word(BitOr(u - Two56, r.x)))
      else Some(Word(u))
  }

  /** The word of the bits u, the sign bit read as the sign of the decimal. */
  function Word(u: uint64): int64 {
    if u >= Two63 && u != Two63 then -(u - Two63) else Signed64(u)
  }

  /** d.UnmarshalBinary(data) (decimal.go:943-966): the decimal, or None for ErrFormat. */
  method UnmarshalBinary(data: seq<byte>) returns (r: Option<int64>)
    ensures r == Unmarshalled(data)
  {
    if |data| == 0 {
      return None;
    }
    var u: uint64 := data[0] * Two56;
    if data[0] % 2 == 1 {
      u := u - Two56;
      var m, n := Uvarint(data[1..]);
      if n <= 0 {
        return None;
      }
      UvarintBound(data[1..], 0);
      ShiftAt9();
      Pow2At64();
      BitOrBound(u, m, 64);
      u := BitOr(u, m);
    }
    return Some(Word(u));
  }
}
