/**
 * The unit and magic-word suffix of the text form: unitHash (core.go:388-403),
 * which folds the runes of a string, blanks skipped and letters lowered,
 * into a 64-bit hash, and vmeUnitOrMagicFromBytes (core.go:406-455), which
 * reads the suffix after the number as a unit of the table it is given or,
 * for a zero mantissa, as one of the words on, yes, no, off, nan, nil, null
 * and inf.
 */
module Units {
  import opened Bits
  import opened Vmes
  import opened Runes

  /** The first primes above 256 and above the largest rune (core.go:22-23). */
  const PrimeUnicodeLo: nat := 257
  const PrimeUnicodeHi: nat := 1114111

  /** An entry of a unit table: its text, the tag ORed into v, and its factor to the base unit. */
  datatype Unit = Unit(name: seq<byte>, tag: bv4, c: int64)

  /** The errors of the text codec; NoError stands for a nil error. */
  datatype TextError = NoError | ErrSyntax | ErrUnitSyntax

  /** A tuple with the error returned beside it. */
  datatype Scanned = Scanned(t: Vme, err: TextError)

  /** The runes of `for _, r := range string(bs)`. */
  function RunesOf(bs: seq<byte>): (rs: seq<nat>)
    decreases |bs|
  {
    if |bs| == 0 then [] else var d := DecodeRune(bs); [d.r] + RunesOf(bs[d.size..])
  }

  /** One step of unitHash: hi + lo + r over the 128-bit product h * k, wrapped to 64 bits. */
  function HashStep(h: uint64, r: nat): (h': uint64)
  {
    var k := if r >= 256 then PrimeUnicodeHi else PrimeUnicodeLo;
    var hl := Mul64(h, k);
    (hl.0 + hl.1 + r) % 0x1_0000_0000_0000_0000
  }

  /** The hash of the runes rs continued from h: blanks are skipped and the others lowered. */
  function HashRunes(h: uint64, rs: seq<nat>): uint64
    decreases rs
  {
    if |rs| == 0 then h
    else HashRunes(if IsSpace(rs[0]) then h else HashStep(h, ToLower(rs[0])), rs[1..])
  }

  /** unitHash(s). */
  function UnitHashOf(s: seq<byte>): uint64 {
    HashRunes(0, RunesOf(s))
  }

  /** unitHash (core.go:388-403): the loop over the runes of s, as Go's range over a string decodes them. */
  method UnitHash(s: seq<byte>) returns (h: uint64)
    ensures h == UnitHashOf(s)
  {
    var rs := RunesOf(s);
    h := 0;
    var i := 0;
    while i < |rs|
      invariant i <= |rs| && HashRunes(h, rs[i..]) == UnitHashOf(s)
      decreases |rs| - i
    {
      assert rs[i..][1..] == rs[i + 1..];
      var r := rs[i];
      if !IsSpace(r) {
        r := ToLower(r);
        var k := if r >= 256 then PrimeUnicodeHi else PrimeUnicodeLo;
        var hl := Mul64(h, k);
        h := (hl.0 + hl.1 + r) % 0x1_0000_0000_0000_0000;
      }
      i := i + 1;
    }
  }

  /** The runes the hash actually reads: blanks dropped, letters lowered. */
  function Folded(rs: seq<nat>): (fs: seq<nat>)
    decreases rs
  {
    if |rs| == 0 then []
    else (if IsSpace(rs[0]) then [] else [ToLower(rs[0])]) + Folded(rs[1..])
  }

  lemma {:induction false} HashOfFolded(h: uint64, rs: seq<nat>)
    ensures HashRunes(h, rs) == HashRunes(h, Folded(rs))
    decreases rs
  {
    if |rs| > 0 {
      var h' := if IsSpace(rs[0]) then h else HashStep(h, ToLower(rs[0]));
      HashOfFolded(h', rs[1..]);
      if !IsSpace(rs[0]) {
        var l := ToLower(rs[0]);
        ToLowerIdempotent(rs[0]);
        var fs := [l] + Folded(rs[1..]);
        assert Folded(rs) == fs && fs[0] == l && !IsSpace(l);
        assert fs[1..] == Folded(rs[1..]);
        assert HashRunes(h, fs) == HashRunes(HashStep(h, l), Folded(rs[1..]));
        assert HashRunes(h, rs) == HashRunes(HashStep(h, l), rs[1..]);
      } else {
        assert Folded(rs) == Folded(rs[1..]);
      }
    }
  }

  /** unitHash ignores blanks and case: texts with the same folded runes hash alike. */
  lemma HashIgnoresSpaceAndCase(a: seq<byte>, b: seq<byte>)
    requires Folded(RunesOf(a)) == Folded(RunesOf(b))
    ensures UnitHashOf(a) == UnitHashOf(b)
  {
    HashOfFolded(0, RunesOf(a));
    HashOfFolded(0, RunesOf(b));
  }

  /** Without a carry out of 64 bits a step is h * k + r. */
  lemma HashStepSmall(h: uint64, r: nat)
    requires h * (if r >= 256 then PrimeUnicodeHi else PrimeUnicodeLo) + r < 0x1_0000_0000_0000_0000
    ensures HashStep(h, r) == h * (if r >= 256 then PrimeUnicodeHi else PrimeUnicodeLo) + r
  {
    var k := if r >= 256 then PrimeUnicodeHi else PrimeUnicodeLo;
    Mul64Product(h, k);
    var hl := Mul64(h, k);
    DivModUnique(h * k, 0x1_0000_0000_0000_0000, hl.0, hl.1);
  }

  /** The hash of lower-case ASCII letters continued from h, while it stays below 2^64. */
  lemma {:induction false} HashOfLetters(h: uint64, s: seq<byte>)
    requires forall k :: 0 <= k < |s| ==> 0x61 <= s[k] <= 0x7a
    requires Horner(h, s) < 0x1_0000_0000_0000_0000
    ensures HashRunes(h, RunesOf(s)) == Horner(h, s)
    decreases |s|
  {
    if |s| > 0 {
      var r := s[0] as int;
      HornerGrows(h * PrimeUnicodeLo + r, s[1..]);
      HashStepSmall(h, r);
      HashOfLetters(h * PrimeUnicodeLo + r, s[1..]);
    }
  }

  /** h * 257^n plus the bytes of s in base 257: the hash of lower-case letters when nothing wraps. */
  function Horner(h: nat, s: seq<byte>): nat
    decreases |s|
  {
    if |s| == 0 then h else Horner(h * PrimeUnicodeLo + s[0], s[1..])
  }

  lemma {:induction false} HornerGrows(h: nat, s: seq<byte>)
    ensures h <= Horner(h, s)
    decreases |s|
  {
    if |s| > 0 {
      HornerGrows(h * PrimeUnicodeLo + s[0], s[1..]);
    }
  }

  /** The magic words, as bytes. */
  const On: seq<byte> := [0x6f, 0x6e]
  const Yes: seq<byte> := [0x79, 0x65, 0x73]
  const No: seq<byte> := [0x6e, 0x6f]
  const Off: seq<byte> := [0x6f, 0x66, 0x66]
  const NaNWord: seq<byte> := [0x6e, 0x61, 0x6e]
  const Nil: seq<byte> := [0x6e, 0x69, 0x6c]
  const NullWord: seq<byte> := [0x6e, 0x75, 0x6c, 0x6c]
  const Inf: seq<byte> := [0x69, 0x6e, 0x66]

  const HashOn: uint64 := 28637
  const HashYes: uint64 := 8018001
  const HashNo: uint64 := 28381
  const HashOff: uint64 := 7357755
  const HashNaN: uint64 := 7290429
  const HashNil: uint64 := 7292483
  const HashNull: uint64 := 1874960827
  const HashInf: uint64 := 6963517

  /** A word of lower-case letters whose base-257 value fits hashes to that value. */
  lemma HashOfWord(w: seq<byte>, v: uint64)
    requires forall k :: 0 <= k < |w| ==> 0x61 <= w[k] <= 0x7a
    requires Horner(0, w) == v
    ensures UnitHashOf(w) == v
  {
    HashOfLetters(0, w);
  }

  /** The magic words and, at the same index, the hash constant of the switch of core.go:430-448. */
  const MagicWords: seq<seq<byte>> := [On, Yes, No, Off, NaNWord, Inf, Nil, NullWord]
  const MagicHashValues: seq<uint64> := [HashOn, HashYes, HashNo, HashOff, HashNaN, HashInf, HashNil, HashNull]

  /** The constants of the switch are the hashes of the words they stand for. */
  lemma MagicHashes(i: nat)
    requires i < |MagicWords|
    ensures UnitHashOf(MagicWords[i]) == MagicHashValues[i]
  {
    HashOfWord(MagicWords[i], MagicHashValues[i]);
  }

  /** The entry u has a name whose hash is h. */
  predicate Matches(u: Unit, h: uint64) {
    u.name != [] && UnitHashOf(u.name) == h
  }

  /** The tag of the first entry of units whose name hashes to h (core.go:408-426). */
  function UnitMatch(units: seq<Unit>, h: uint64): Option<bv4>
    decreases |units|
  {
    if |units| == 0 then None
    else if Matches(units[0], h) then Some(units[0].tag)
    else UnitMatch(units[1..], h)
  }

  /** The first matching entry is the one found. */
  lemma {:induction false} UnitMatchIsFirst(units: seq<Unit>, h: uint64, k: nat)
    requires k < |units| && Matches(units[k], h)
    requires forall j :: 0 <= j < k ==> !Matches(units[j], h)
    ensures UnitMatch(units, h) == Some(units[k].tag)
    decreases k
  {
    if k > 0 {
      UnitMatchIsFirst(units[1..], h, k - 1);
    }
  }

  /** Without a matching entry nothing is found. */
  lemma {:induction false} UnitMatchNone(units: seq<Unit>, h: uint64)
    requires forall j :: 0 <= j < |units| ==> !Matches(units[j], h)
    ensures UnitMatch(units, h) == None
    decreases |units|
  {
    if |units| > 0 {
      UnitMatchNone(units[1..], h);
    }
  }

  /** The loop over the unit table, hashing each name. */
  method FindUnit(units: seq<Unit>, h: uint64) returns (r: Option<bv4>)
    ensures r == UnitMatch(units, h)
  {
    var i := 0;
    while i < |units|
      invariant i <= |units| && UnitMatch(units[i..], h) == UnitMatch(units, h)
    {
      assert units[i..][1..] == units[i + 1..];
      if units[i].name != [] {
        var nameHash := UnitHash(units[i].name);
        if h == nameHash {
          return Some(units[i].tag);
        }
      }
      i := i + 1;
    }
    return None;
  }

  /**
   * The switch of core.go:428-451 for a suffix with hash h that names no
   * unit: a magic word is read only when the mantissa is 0, and anything
   * else is ErrUnitSyntax with the tuple left as it was.
   */
  function MagicOrError(h: uint64, t: Vme): (s: Scanned)
    ensures s.err == NoError || s == Scanned(t, ErrUnitSyntax)
  {
    if t.m != 0 then Scanned(t, ErrUnitSyntax)
    else if h == HashOn || h == HashYes then Scanned(Vme(t.v, 1, 0), NoError)
    else if h == HashNo || h == HashOff then
      if t.v.loss then Scanned(Vme(t.v, 0, t.e), NoError) else Scanned(ZeroVme, NoError)
    else if h == HashNaN then Scanned(NaNVme, NoError)
    else if h == HashNil || h == HashNull then Scanned(NullVme, NoError)
    else if h == HashInf then Scanned(Vme(t.v.(loss := true), 0, MaxInt64), NoError)
    else Scanned(t, ErrUnitSyntax)
  }

  /** vmeUnitOrMagicFromBytes(b, v, m, e, units). */
  function UnitOrMagic(b: seq<byte>, t: Vme, units: seq<Unit>): (s: Scanned)
  {
    var h := UnitHashOf(b);
    if h == 0 then Scanned(t, NoError)
    else
      match UnitMatch(units, h)
      case Some(tag) => Scanned(t.(v := t.v.(unit := t.v.unit | tag)), NoError)
      case None => MagicOrError(h, t)
  }

  /** vmeUnitOrMagicFromBytes as the source runs it. */
  method UnitOrMagicFromBytes(b: seq<byte>, t: Vme, units: seq<Unit>) returns (s: Scanned)
    ensures s == UnitOrMagic(b, t, units)
  {
    var h := UnitHash(b);
    if h == 0 {
      return Scanned(t, NoError);
    }
    var found := FindUnit(units, h);
    if found.Some? {
      return Scanned(t.(v := t.v.(unit := t.v.unit | found.value)), NoError);
    }
    return MagicOrError(h, t);
  }

  /**
   * What a suffix does: nothing when it hashes to 0 (it is empty or blank),
   * the tag of the first unit it names, else a magic word or ErrUnitSyntax;
   * the mantissa and exponent are kept unless a magic word replaces them.
   */
  lemma UnitOrMagicCases(b: seq<byte>, t: Vme, units: seq<Unit>)
    ensures var s := UnitOrMagic(b, t, units);
            var h := UnitHashOf(b);
            (h == 0 ==> s == Scanned(t, NoError)) &&
            (h != 0 && UnitMatch(units, h).Some? ==>
               s.err == NoError && s.t.m == t.m && s.t.e == t.e && s.t.v.sign == t.v.sign &&
               s.t.v.unit == t.v.unit | UnitMatch(units, h).value) &&
            (h != 0 && UnitMatch(units, h).None? && t.m != 0 ==> s == Scanned(t, ErrUnitSyntax))
  {
  }

  /** Blank text changes nothing. */
  lemma {:induction false} BlankHashesToZero(b: seq<byte>)
    requires forall k :: 0 <= k < |b| ==> AsciiSpace(b[k])
    ensures UnitHashOf(b) == 0
  {
    BlankRunes(b);
  }

  lemma {:induction false} BlankRunes(b: seq<byte>)
    requires forall k :: 0 <= k < |b| ==> AsciiSpace(b[k])
    ensures HashRunes(0, RunesOf(b)) == 0
    decreases |b|
  {
    if |b| > 0 {
      BlankRunes(b[1..]);
    }
  }

  /**
   * On a zero mantissa with no unit table each magic word is read without
   * error, as the switch maps its hash.
   */
  lemma MagicWordsRead(i: nat, t: Vme)
    requires i < |MagicWords| && t.m == 0
    ensures var s := UnitOrMagic(MagicWords[i], t, []);
            s.err == NoError && s == MagicOrError(MagicHashValues[i], t)
  {
    MagicHashes(i);
  }
}
