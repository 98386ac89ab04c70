/**
 * The UCS2 branch of the USSD notification handler: the payload is read
 * as big-endian byte pairs, each pair becomes one code point, and each
 * code point is appended to an output buffer as UTF-8 by `utf8_write`.
 */
module Ucs2 {
  import opened Platform

  /** A `char` widened to `int`: sign-extended when `char` is signed. */
  function Widen(b: bv8, charIsSigned: bool): bv32 {
    if charIsSigned && b >= 0x80 then (b as bv32) | 0xFFFF_FF00 else b as bv32
  }

  /** The value of a 32-bit two's-complement `int`. */
  function Int32(w: bv32): int {
    if w < 0x8000_0000 then w as int else w as int - 0x1_0000_0000
  }

  /** The bits of `(ucs2[i] << 8) | ucs2[1 + i]` over `char` operands. */
  function UnitWord(hi: bv8, lo: bv8, charIsSigned: bool): bv32 {
    (Widen(hi, charIsSigned) << 8) | Widen(lo, charIsSigned)
  }

  /** The code point the loop computes from a pair, as written. */
  function UnitAsWritten(hi: bv8, lo: bv8, charIsSigned: bool): int {
    Int32(UnitWord(hi, lo, charIsSigned))
  }

  /** The code point a big-endian UCS2 pair stands for. */
  function Unit(hi: bv8, lo: bv8): (c: nat)
    ensures c < 0x1_0000
  {
    hi as nat * 256 + lo as nat
  }

  /** A UCS2 code unit determines its pair: high byte first, low byte second. */
  lemma UnitBigEndian(hi: bv8, lo: bv8)
    ensures Unit(hi, lo) / 256 == hi as nat && Unit(hi, lo) % 256 == lo as nat
  {
  }

  /** Distinct pairs give distinct code points. */
  lemma UnitInjective(hi: bv8, lo: bv8, hi': bv8, lo': bv8)
    requires Unit(hi, lo) == Unit(hi', lo')
    ensures hi == hi' && lo == lo'
  {
    UnitBigEndian(hi, lo);
    UnitBigEndian(hi', lo');
  }

  /** Without sign extension the word is the pair shifted and added, and its sign bit is clear. */
  lemma WordWithoutSignBits(hi: bv8, lo: bv8, charIsSigned: bool)
    requires !charIsSigned || (hi < 0x80 && lo < 0x80)
    ensures UnitWord(hi, lo, charIsSigned) == (hi as bv32) * 256 + (lo as bv32)
    ensures UnitWord(hi, lo, charIsSigned) < 0x8000_0000
  {
  }

  /** The word of an unsigned pair has the integer value `hi * 256 + lo`. */
  lemma WordValue(hi: bv8, lo: bv8)
    ensures ((hi as bv32) * 256 + (lo as bv32)) as int == hi as int * 256 + lo as int
  {
  }

  /**
   * The written expression computes the intended code point whenever no
   * sign extension happens: with unsigned `char`, or with both bytes
   * below 0x80.
   */
  lemma UnitAsWrittenMatches(hi: bv8, lo: bv8, charIsSigned: bool)
    requires !charIsSigned || (hi < 0x80 && lo < 0x80)
    ensures UnitAsWritten(hi, lo, charIsSigned) == Unit(hi, lo)
  {
    WordWithoutSignBits(hi, lo, charIsSigned);
    WordValue(hi, lo);
  }

  /**
   * With signed `char`, a low byte of 0x80 or more sign-extends over the
   * whole word: the high byte is lost and the result is negative.
   */
  lemma UnitAsWrittenSignExtends(hi: bv8, lo: bv8)
    requires lo >= 0x80
    ensures UnitAsWritten(hi, lo, true) == lo as int - 256
    ensures UnitAsWritten(hi, lo, true) < 0 && UnitAsWritten(hi, lo, true) != Unit(hi, lo)
  {
    assert UnitWord(hi, lo, true) == (lo as bv32) + 0xFFFF_FF00;
  }

  /** The pair 0x00 0xE9 ("é") gives -23 instead of 0xE9 when `char` is signed. */
  lemma SignExtensionExample()
    ensures UnitAsWritten(0x00, 0xE9, true) == -23
    ensures Unit(0x00, 0xE9) == 0xE9
  {
    UnitAsWrittenSignExtends(0x00, 0xE9);
  }

  /**
   * The byte the loop reads at payload offset `k`: past the end of the
   * payload it is whatever byte follows the frame in memory.
   */
  function ByteAt(p: seq<bv8>, k: nat, trailing: bv8): bv8 {
    if k < |p| then p[k] else trailing
  }

  /** The code points a payload stands for, one big-endian unit per (possibly incomplete) pair. */
  function CodePoints(p: seq<bv8>, trailing: bv8): (us: seq<nat>)
    ensures |us| == (|p| + 1) / 2
  {
    seq((|p| + 1) / 2, k requires 0 <= k < (|p| + 1) / 2 => Unit(p[2 * k], ByteAt(p, 2 * k + 1, trailing)))
  }

  /** The values the loop computes from a payload, one per (possibly incomplete) pair, as written. */
  function Units(p: seq<bv8>, trailing: bv8, charIsSigned: bool): (us: seq<int>)
    ensures |us| == (|p| + 1) / 2
  {
    seq((|p| + 1) / 2, k requires 0 <= k < (|p| + 1) / 2
      => UnitAsWritten(p[2 * k], ByteAt(p, 2 * k + 1, trailing), charIsSigned))
  }

  /** With unsigned `char` the loop computes exactly the payload's code points. */
  lemma UnitsUnsigned(p: seq<bv8>, trailing: bv8)
    ensures Units(p, trailing, false) == CodePoints(p, trailing)
  {
    forall k | 0 <= k < (|p| + 1) / 2
      ensures Units(p, trailing, false)[k] == CodePoints(p, trailing)[k]
    {
      UnitUnsigned(p, trailing, k);
    }
  }

  /** With unsigned `char` the k-th value the loop computes is the k-th code point. */
  lemma UnitUnsigned(p: seq<bv8>, trailing: bv8, k: nat)
    requires k < (|p| + 1) / 2
    ensures Units(p, trailing, false)[k] == CodePoints(p, trailing)[k]
  {
    UnitAsWrittenMatches(p[2 * k], ByteAt(p, 2 * k + 1, trailing), false);
  }

  /**
   * With signed `char`, a high byte of 0x80 or more and a low byte below
   * 0x80 give the code point less 0x10000: the sign fills the upper half.
   */
  lemma UnitAsWrittenHighSign(hi: bv8, lo: bv8)
    requires hi >= 0x80 && lo < 0x80
    ensures UnitAsWritten(hi, lo, true) == Unit(hi, lo) - 0x1_0000
  {
    var w := (hi as bv32) * 256 + (lo as bv32) + 0xFFFF_0000;
    assert UnitWord(hi, lo, true) == w;
    assert w >= 0x8000_0000;
    HighWordValue(hi, lo);
  }

  /** The word with the upper half filled by the sign has the value `hi * 256 + lo + 0xFFFF0000`. */
  lemma HighWordValue(hi: bv8, lo: bv8)
    ensures ((hi as bv32) * 256 + (lo as bv32) + 0xFFFF_0000) as int == hi as int * 256 + lo as int + 0xFFFF_0000
  {
  }

  /** As written, the value always ends in the low byte of the pair, signed `char` or not. */
  lemma UnitAsWrittenLowByte(hi: bv8, lo: bv8, charIsSigned: bool)
    ensures UnitAsWritten(hi, lo, charIsSigned) % 256 == lo as int
  {
    var v := UnitAsWritten(hi, lo, charIsSigned);
    if !charIsSigned || (hi < 0x80 && lo < 0x80) {
      UnitAsWrittenMatches(hi, lo, charIsSigned);
      ModLowByte(hi as int, lo as int);
    } else if lo >= 0x80 {
      UnitAsWrittenSignExtends(hi, lo);
      ModLowByte(-1, lo as int);
    } else {
      UnitAsWrittenHighSign(hi, lo);
      ModLowByte(hi as int - 256, lo as int);
    }
  }

  /** A number written as `k * 256 + lo` ends in the byte `lo`. */
  lemma ModLowByte(k: int, lo: int)
    requires 0 <= lo < 256
    ensures (k * 256 + lo) % 256 == lo
  {
  }

  /** Distinct low bytes give distinct values as written. */
  lemma UnitAsWrittenLowInjective(hi: bv8, lo: bv8, lo': bv8, charIsSigned: bool)
    requires lo != lo'
    ensures UnitAsWritten(hi, lo, charIsSigned) != UnitAsWritten(hi, lo', charIsSigned)
  {
    UnitAsWrittenLowByte(hi, lo, charIsSigned);
    UnitAsWrittenLowByte(hi, lo', charIsSigned);
  }

  /**
   * An even-length payload is decoded from its own bytes alone; for an
   * odd length every pair but the last is, and the last one takes its low
   * byte from past the payload, which then decides the result.
   */
  lemma UnitsOverread(p: seq<bv8>, t: bv8, t': bv8, charIsSigned: bool)
    ensures |p| % 2 == 0 ==> Units(p, t, charIsSigned) == Units(p, t', charIsSigned)
    ensures |p| % 2 == 1 ==> Units(p, t, charIsSigned)[..|p| / 2] == Units(p, t', charIsSigned)[..|p| / 2]
    ensures |p| % 2 == 1 ==> Units(p, t, charIsSigned)[|p| / 2] == UnitAsWritten(p[|p| - 1], t, charIsSigned)
    ensures |p| % 2 == 1 && t != t' ==> Units(p, t, charIsSigned) != Units(p, t', charIsSigned)
  {
    if |p| % 2 == 1 && t != t' {
      var last := |p| / 2;
      assert Units(p, t, charIsSigned)[last] == UnitAsWritten(p[|p| - 1], t, charIsSigned);
      assert Units(p, t', charIsSigned)[last] == UnitAsWritten(p[|p| - 1], t', charIsSigned);
      UnitAsWrittenLowInjective(p[|p| - 1], t, t', charIsSigned);
    }
  }

  /** The UTF-8 bytes `utf8_write` appends for a sequence of code points. */
  function Utf8Concat(env: Collaborators, cs: seq<int>): seq<bv8> {
    if cs == [] then [] else Utf8Concat(env, cs[..|cs| - 1]) + env.utf8Write(cs[|cs| - 1])
  }

  /** Between one and four bytes per code point. */
  lemma {:induction false} Utf8ConcatBound(env: Collaborators, cs: seq<int>)
    requires env.Valid()
    ensures |cs| <= |Utf8Concat(env, cs)| <= 4 * |cs|
  {
    if cs != [] {
      Utf8ConcatBound(env, cs[..|cs| - 1]);
      Utf8WriteLength(env, cs[|cs| - 1]);
    }
  }

  /** One code point takes one to four bytes. */
  lemma Utf8WriteLength(env: Collaborators, c: int)
    requires env.Valid()
    ensures 1 <= |env.utf8Write(c)| <= 4
  {
  }

  /** `utf8_write(buf, offset, c)`: stores the UTF-8 bytes of `c` at `offset` and returns their count. */
  method Utf8Write(env: Collaborators, buf: array<bv8>, offset: nat, c: int) returns (written: nat)
    requires env.Valid()
    requires offset + 4 <= buf.Length
    modifies buf
    ensures written == |env.utf8Write(c)| && 1 <= written <= 4
    ensures buf[..offset] == old(buf[..offset])
    ensures buf[offset..offset + written] == env.utf8Write(c)
    ensures buf[..offset + written] == old(buf[..offset]) + env.utf8Write(c)
    ensures buf[offset + written..] == old(buf[offset + written..])
  {
    var w := env.utf8Write(c);
    Utf8WriteLength(env, c);
    for j := 0 to |w|
      invariant buf[..offset] == old(buf[..offset])
      invariant buf[offset + |w|..] == old(buf[offset + |w|..])
      invariant buf[offset..offset + j] == w[..j]
    {
      buf[offset + j] := w[j];
      assert buf[offset..offset + j + 1] == buf[offset..offset + j] + [w[j]];
    }
    written := |w|;
    PrefixExtend(buf[..], offset, w, old(buf[..offset]));
  }

  /** Appending one code point appends its UTF-8 bytes. */
  lemma Utf8ConcatStep(env: Collaborators, us: seq<int>, k: nat)
    requires k < |us|
    ensures Utf8Concat(env, us[..k + 1]) == Utf8Concat(env, us[..k]) + env.utf8Write(us[k])
  {
    assert us[..k + 1][..k] == us[..k];
  }

  /**
   * The UCS2 decoding loop: a buffer of `n * 4 + 1` bytes for an `n`-byte
   * payload, `i` stepping by two, `result` the write offset, then the
   * terminating NUL at `result`. Every store stays inside the buffer, and
   * the text is the UTF-8 of the values the loop computes from the pairs,
   * which are the payload's code points when `char` is unsigned.
   */
  method DecodeUcs2(env: Collaborators, p: seq<bv8>, trailing: bv8, charIsSigned: bool)
    returns (text: seq<bv8>)
    requires env.Valid()
    ensures text == Utf8Concat(env, Units(p, trailing, charIsSigned))
    ensures !charIsSigned ==> text == Utf8Concat(env, CodePoints(p, trailing))
    ensures |text| <= 4 * ((|p| + 1) / 2) && |text| < |p| * 4 + 1
  {
    var n := |p|;
    var buf := new bv8[n * 4 + 1];
    var i, result: nat := 0, 0;
    ghost var us := Units(p, trailing, charIsSigned);
    ghost var k: nat := 0;
    while i < n
      invariant i == 2 * k && k <= |us|
      invariant result <= 4 * k
      invariant buf[..result] == Utf8Concat(env, us[..k])
    {
      var c := UnitAsWritten(p[i], ByteAt(p, i + 1, trailing), charIsSigned);
      UnitsAt(p, trailing, charIsSigned, k);
      var written := Utf8Write(env, buf, result, c);
      Utf8ConcatStep(env, us, k);
      result := result + written;
      i, k := i + 2, k + 1;
    }
    assert us[..k] == us;
    buf[result] := 0;
    text := buf[..result];
    UnitsUnsigned(p, trailing);
  }

  /** Bytes stored right behind a prefix extend it. */
  lemma PrefixExtend(a: seq<bv8>, offset: nat, w: seq<bv8>, before: seq<bv8>)
    requires offset + |w| <= |a|
    requires a[..offset] == before && a[offset..offset + |w|] == w
    ensures a[..offset + |w|] == before + w
  {
    assert a[..offset + |w|] == a[..offset] + a[offset..offset + |w|];
  }

  /** The k-th code point comes from the payload bytes at 2k and 2k+1. */
  lemma UnitsAt(p: seq<bv8>, trailing: bv8, charIsSigned: bool, k: nat)
    requires 2 * k < |p|
    ensures k < |Units(p, trailing, charIsSigned)|
    ensures Units(p, trailing, charIsSigned)[k] == UnitAsWritten(p[2 * k], ByteAt(p, 2 * k + 1, trailing), charIsSigned)
  {
  }
}
