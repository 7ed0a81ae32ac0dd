/**
 * The pieces of Go's unicode and unicode/utf8 packages the text codec
 * relies on: decoding one rune from UTF-8 bytes (what `for _, r := range s`
 * does, core.go:390), unicode.IsSpace, unicode.ToLower on the ranges the
 * model covers, and bytes.TrimSpace (core.go:234).
 */
module Runes {
  import opened Bits

  /** utf8.RuneError, the rune an ill-formed byte decodes to. */
  const RuneError: nat := 0xFFFD

  /** One decoded rune and the number of bytes it took. */
  datatype Decoded = Decoded(r: nat, size: nat)

  predicate Continuation(b: byte) {
    0x80 <= b < 0xC0
  }

  /**
   * utf8.DecodeRune: a well-formed sequence of 1 to 4 bytes gives its rune;
   * anything else (a stray continuation byte, an overlong or surrogate
   * form, a truncated sequence, a lead byte above 0xF4) gives RuneError
   * and consumes one byte.
   */
  function DecodeRune(bs: seq<byte>): (d: Decoded)
    requires |bs| > 0
    ensures 1 <= d.size <= 4 && d.size <= |bs| && d.r <= 0x10FFFF
    ensures bs[0] < 0x80 ==> d == Decoded(bs[0], 1)
    ensures d.size == 1 && d.r != RuneError ==> d.r == bs[0] < 0x80
    ensures forall k :: 1 <= k < d.size ==> Continuation(bs[k])
  {
    var b0 := bs[0] as int;
    if b0 < 0x80 then Decoded(b0, 1)
    else if b0 < 0xC2 || b0 > 0xF4 then Decoded(RuneError, 1)
    else if b0 < 0xE0 then
      if |bs| < 2 || !Continuation(bs[1]) then Decoded(RuneError, 1)
      else Decoded((b0 - 0xC0) * 0x40 + (bs[1] as int - 0x80), 2)
    else
      var lo := if b0 == 0xE0 then 0xA0 else if b0 == 0xF0 then 0x90 else 0x80;
      var hi := if b0 == 0xED then 0xA0 else if b0 == 0xF4 then 0x90 else 0xC0;
      if |bs| < 3 || !(lo <= bs[1] < hi) || !Continuation(bs[2]) then Decoded(RuneError, 1)
      else if b0 < 0xF0 then
        Decoded((b0 - 0xE0) * 0x1000 + (bs[1] as int - 0x80) * 0x40 + (bs[2] as int - 0x80), 3)
      else if |bs| < 4 || !Continuation(bs[3]) then Decoded(RuneError, 1)
      else Decoded((b0 - 0xF0) * 0x40000 + (bs[1] as int - 0x80) * 0x1000 + (bs[2] as int - 0x80) * 0x40 + (bs[3] as int - 0x80), 4)
  }

  /** A Unicode scalar value: a code point that is not a surrogate. */
  predicate ValidRune(r: nat) {
    r <= 0x10FFFF && !(0xD800 <= r < 0xE000)
  }

  /** utf8.EncodeRune for a valid rune: the shortest UTF-8 form. */
  function EncodeRune(r: nat): (bs: seq<byte>)
    requires ValidRune(r)
    ensures 1 <= |bs| <= 4
  {
    if r < 0x80 then [r]
    else if r < 0x800 then [0xC0 + r / 0x40, 0x80 + r % 0x40]
    else if r < 0x10000 then [0xE0 + r / 0x1000, 0x80 + r / 0x40 % 0x40, 0x80 + r % 0x40]
    else [0xF0 + r / 0x40000, 0x80 + r / 0x1000 % 0x40, 0x80 + r / 0x40 % 0x40, 0x80 + r % 0x40]
  }

  /** Decoding reads back every encoded rune, whatever bytes follow it. */
  lemma DecodeEncoded(r: nat, rest: seq<byte>)
    requires ValidRune(r)
    ensures DecodeRune(EncodeRune(r) + rest) == Decoded(r, |EncodeRune(r)|)
  {
    if r >= 0x10000 {
      DecodeFour(r, rest);
    } else if r >= 0x800 {
      DecodeThree(r, rest);
    }
  }

  lemma DecodeThree(r: nat, rest: seq<byte>)
    requires 0x800 <= r < 0x10000 && !(0xD800 <= r < 0xE000)
    ensures DecodeRune(EncodeRune(r) + rest) == Decoded(r, 3)
  {
    var a, b, c := r / 0x1000, r / 0x40 % 0x40, r % 0x40;
    assert r == a * 0x1000 + b * 0x40 + c;
    assert a == 0 ==> b >= 0x20;
    assert a == 0xD ==> b < 0x20;
  }

  lemma SixBitGroups(r: nat)
    requires 0x10000 <= r <= 0x10FFFF
    ensures var a, b := r / 0x40000, r / 0x1000 % 0x40;
            r == a * 0x40000 + b * 0x1000 + r / 0x40 % 0x40 * 0x40 + r % 0x40 &&
            a <= 4 && (a == 0 ==> b >= 0x10) && (a == 4 ==> b < 0x10)
  {
  }

  lemma DecodeFour(r: nat, rest: seq<byte>)
    requires 0x10000 <= r <= 0x10FFFF
    ensures DecodeRune(EncodeRune(r) + rest) == Decoded(r, 4)
  {
    var a, b, c, e := r / 0x40000, r / 0x1000 % 0x40, r / 0x40 % 0x40, r % 0x40;
    SixBitGroups(r);
    var bs := EncodeRune(r) + rest;
    assert bs[0] == 0xF0 + a && bs[1] == 0x80 + b && bs[2] == 0x80 + c && bs[3] == 0x80 + e;
  }

  /** unicode.IsSpace: the Latin-1 spaces and the Unicode White_Space runes above them. */
  predicate IsSpace(r: nat) {
    (0x09 <= r <= 0x0D) || r == 0x20 || r == 0x85 || r == 0xA0 ||
    r == 0x1680 || (0x2000 <= r <= 0x200A) || r == 0x2028 || r == 0x2029 ||
    r == 0x202F || r == 0x205F || r == 0x3000
  }

  /**
   * unicode.ToLower on ASCII and Latin-1: the capitals A-Z and U+00C0 to
   * U+00DE except U+00D7 move up by 0x20; other runes are kept.
   */
  function ToLower(r: nat): (l: nat)
    ensures IsSpace(l) == IsSpace(r)
    ensures l <= 0x10FFFF <==> r <= 0x10FFFF
    ensures (l < 0x100) == (r < 0x100)
  {
    if 0x41 <= r <= 0x5A || (0xC0 <= r <= 0xDE && r != 0xD7) then r + 0x20 else r
  }

  /** Lowering twice lowers once. */
  lemma ToLowerIdempotent(r: nat)
    ensures ToLower(ToLower(r)) == ToLower(r)
  {
  }

  /** bytes.TrimSpace: the bytes without the space runes at either end. */
  function TrimSpace(bs: seq<byte>): (t: seq<byte>)
  {
    TrimRight(TrimLeft(bs))
  }

  /** The bytes from the first rune that is not a space on. */
  function TrimLeft(bs: seq<byte>): (t: seq<byte>)
    decreases |bs|
  {
    if |bs| == 0 then []
    else
      var d := DecodeRune(bs);
      if IsSpace(d.r) then TrimLeft(bs[d.size..]) else bs
  }

  /**
   * The bytes up to the last rune that is not a space. Runes are cut from
   * the front: a space rune is always well formed and starts at a byte that
   * is not a continuation byte, so the forward cut meets it exactly where
   * Go's backward utf8.DecodeLastRune does.
   */
  function TrimRight(bs: seq<byte>): (t: seq<byte>)
    decreases |bs|
  {
    if |bs| == 0 then []
    else
      var d := DecodeRune(bs);
      var rest := TrimRight(bs[d.size..]);
      if |rest| == 0 && IsSpace(d.r) then [] else bs[..d.size] + rest
  }

  /** The ASCII whitespace bytes. */
  predicate AsciiSpace(b: byte) {
    (0x09 <= b <= 0x0D) || b == 0x20
  }

  /**
   * TrimSpace removes exactly the surrounding blanks: it keeps a sequence
   * with no blank at either end, and strips any ASCII blanks added around
   * it.
   */
  lemma {:induction false} TrimAround(pre: seq<byte>, core: seq<byte>, post: seq<byte>)
    requires forall k :: 0 <= k < |pre| ==> AsciiSpace(pre[k])
    requires forall k :: 0 <= k < |post| ==> AsciiSpace(post[k])
    requires |core| > 0 && core[0] < 0x80 && !AsciiSpace(core[0])
    requires core[|core| - 1] < 0x80 && !AsciiSpace(core[|core| - 1])
    ensures TrimSpace(pre + core + post) == core
  {
    TrimLeftSpaces(pre, core + post);
    assert pre + core + post == pre + (core + post);
    TrimRightSpaces(core, post);
  }

  lemma {:induction false} TrimLeftSpaces(pre: seq<byte>, s: seq<byte>)
    requires forall k :: 0 <= k < |pre| ==> AsciiSpace(pre[k])
    requires |s| > 0 && s[0] < 0x80 && !AsciiSpace(s[0])
    ensures TrimLeft(pre + s) == s
    decreases |pre|
  {
    if |pre| > 0 {
      assert (pre + s)[1..] == pre[1..] + s;
      TrimLeftSpaces(pre[1..], s);
    }
  }

  lemma {:induction false} TrimRightSpaces(s: seq<byte>, post: seq<byte>)
    requires forall k :: 0 <= k < |post| ==> AsciiSpace(post[k])
    requires |s| > 0 && s[|s| - 1] < 0x80 && !AsciiSpace(s[|s| - 1])
    ensures TrimRight(s + post) == s
    decreases |s|
  {
    var size := FirstRuneInside(s, post);
    if size == |s| {
      TrimRightBlank(post);
      assert (s + post)[size..] == post;
      assert (s + post)[..size] == s;
    } else {
      assert (s + post)[size..] == s[size..] + post;
      TrimRightSpaces(s[size..], post);
      assert (s + post)[..size] + s[size..] == s;
    }
  }

  /**
   * The first rune of s + post ends inside s when s ends with an ASCII
   * byte, and it is that byte alone, not a space, when it ends there.
   */
  lemma FirstRuneInside(s: seq<byte>, post: seq<byte>) returns (size: nat)
    requires |s| > 0 && s[|s| - 1] < 0x80 && !AsciiSpace(s[|s| - 1])
    ensures size == DecodeRune(s + post).size && size <= |s|
    ensures size == |s| ==> |s| == 1 && !IsSpace(DecodeRune(s + post).r)
  {
    var bs := s + post;
    var d := DecodeRune(bs);
    size := d.size;
  }

  lemma {:induction false} TrimRightBlank(post: seq<byte>)
    requires forall k :: 0 <= k < |post| ==> AsciiSpace(post[k])
    ensures TrimRight(post) == []
    decreases |post|
  {
    if |post| > 0 {
      TrimRightBlank(post[1..]);
    }
  }

  /** Blanks are trimmed from the right only after the last ASCII byte that is not blank. */
  lemma {:induction false} TrimRightAscii(p: seq<byte>, z: seq<byte>)
    requires |p| > 0 && forall k :: 0 <= k < |p| ==> p[k] < 0x80
    requires !AsciiSpace(p[|p| - 1])
    ensures TrimRight(p + z) == p + TrimRight(z)
    decreases |p|
  {
    if |p| == 1 {
      TrimRightLast(p[0], z);
      assert p + z == [p[0]] + z && p == [p[0]];
    } else {
      var bs := p + z;
      assert bs[0] == p[0] && bs[1..] == p[1..] + z;
      TrimRightAscii(p[1..], z);
      TrimRightAsciiStep(bs, p[1..] + TrimRight(z));
      ConsAppend(p, TrimRight(z));
    }
  }

  lemma ConsAppend(p: seq<byte>, t: seq<byte>)
    requires |p| > 0
    ensures [p[0]] + (p[1..] + t) == p + t
  {
    assert p == [p[0]] + p[1..];
  }

  /** An ASCII byte that is not blank is kept in front of the trimmed rest. */
  lemma TrimRightLast(b: byte, z: seq<byte>)
    requires b < 0x80 && !AsciiSpace(b)
    ensures TrimRight([b] + z) == [b] + TrimRight(z)
  {
    var bs := [b] + z;
    assert bs[1..] == z;
    TrimRightAsciiStep(bs, TrimRight(z));
  }

  /** One step of TrimRight over an ASCII byte, rest being the trimmed remainder. */
  lemma TrimRightAsciiStep(bs: seq<byte>, rest: seq<byte>)
    requires |bs| > 0 && bs[0] < 0x80 && rest == TrimRight(bs[1..])
    ensures TrimRight(bs) == if |rest| == 0 && AsciiSpace(bs[0]) then [] else [bs[0]] + rest
  {
    assert DecodeRune(bs) == Decoded(bs[0] as int, 1);
    assert bs[..1] == [bs[0]];
  }
}
