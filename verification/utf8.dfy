/**
 * UTF-8, as produced by the platform's `TextEncoder.encode`.
 *
 * A Dafny `char` is a Unicode scalar value, so every string here is a
 * well-formed sequence of code points. `Encode` follows Table 3-6 of the
 * Unicode Standard (section 3.9); `Decode` is the strict decoder of
 * Table 3-7 (no overlong forms, no surrogates, nothing above U+10FFFF),
 * and the round trip `Decode(Encode(s)) == Some(s)` is what makes the
 * encoder injective.
 */
module Utf8 {
  import opened Wrappers

  type byte = b: int | 0 <= b < 256

  predicate IsContinuation(b: byte) {
    0x80 <= b < 0xC0
  }

  /** True of the integers that are Unicode scalar values. */
  predicate IsScalar(cp: int) {
    0 <= cp < 0xD800 || 0xE000 <= cp < 0x11_0000
  }

  /** The one to four bytes of a single code point. */
  function EncodeChar(c: char): (bs: seq<byte>)
    ensures 1 <= |bs| <= 4
    ensures bs[0] < 0x80 <==> |bs| == 1
    ensures forall i :: 1 <= i < |bs| ==> IsContinuation(bs[i])
  {
    var cp := c as int;
    if cp < 0x80 then
      [cp]
    else if cp < 0x800 then
      [0xC0 + cp / 0x40, 0x80 + cp % 0x40]
    else if cp < 0x1_0000 then
      [0xE0 + cp / 0x1000, 0x80 + (cp / 0x40) % 0x40, 0x80 + cp % 0x40]
    else
      [0xF0 + cp / 0x4_0000, 0x80 + (cp / 0x1000) % 0x40, 0x80 + (cp / 0x40) % 0x40, 0x80 + cp % 0x40]
  }

  /** The UTF-8 form of a whole string: the code points' encodings, in order. */
  function Encode(s: string): (bs: seq<byte>)
    ensures |s| <= |bs| <= 4 * |s|
    ensures s == [] <==> bs == []
  {
    if s == [] then [] else EncodeChar(s[0]) + Encode(s[1..])
  }

  /**
   * Decodes the code point at the head of `bs`, returning it with the number
   * of bytes it occupies, or None when the head is not a well-formed sequence.
   */
  function DecodeFirst(bs: seq<byte>): (r: Option<(char, nat)>)
    ensures r.Some? ==> 1 <= r.value.1 <= |bs| && r.value.1 <= 4
  {
    if |bs| == 0 then None
    else if bs[0] < 0x80 then
      Some((bs[0] as char, 1))
    else if 0xC2 <= bs[0] < 0xE0 then
      if |bs| < 2 || !IsContinuation(bs[1]) then None
      else Some((((bs[0] as int - 0xC0) * 0x40 + (bs[1] as int - 0x80)) as char, 2))
    else if 0xE0 <= bs[0] < 0xF0 then
      if |bs| < 3 || !IsContinuation(bs[1]) || !IsContinuation(bs[2]) then None
      else
        var cp := (bs[0] as int - 0xE0) * 0x1000 + (bs[1] as int - 0x80) * 0x40 + (bs[2] as int - 0x80);
        if cp < 0x800 || !IsScalar(cp) then None else Some((cp as char, 3))
    else if 0xF0 <= bs[0] < 0xF5 then
      if |bs| < 4 || !IsContinuation(bs[1]) || !IsContinuation(bs[2]) || !IsContinuation(bs[3]) then None
      else
        var cp := (bs[0] as int - 0xF0) * 0x4_0000 + (bs[1] as int - 0x80) * 0x1000 + (bs[2] as int - 0x80) * 0x40 + (bs[3] as int - 0x80);
        if cp < 0x1_0000 || !IsScalar(cp) then None else Some((cp as char, 4))
    else
      None
  }

  /** Decodes a whole byte sequence, or None if any part of it is ill-formed. */
  function Decode(bs: seq<byte>): (r: Option<string>)
    decreases |bs|
  {
    if bs == [] then Some([])
    else
      match DecodeFirst(bs)
      case None => None
      case Some((c, n)) =>
        match Decode(bs[n..])
        case None => None
        case Some(rest) => Some([c] + rest)
  }

  /** Splitting a code point into six-bit groups and joining them back is the identity. */
  lemma SixBitGroups(cp: int)
    requires 0 <= cp
    ensures (cp / 0x40) * 0x40 + cp % 0x40 == cp
    ensures (cp / 0x1000) * 0x40 + (cp / 0x40) % 0x40 == cp / 0x40
    ensures (cp / 0x4_0000) * 0x40 + (cp / 0x1000) % 0x40 == cp / 0x1000
    ensures cp / 0x1000 == (cp / 0x40) / 0x40
    ensures cp / 0x4_0000 == (cp / 0x1000) / 0x40
  {
  }

  /** Appending a six-bit group to `hi` is undone by division and remainder by 64. */
  lemma AppendGroup(hi: int, lo: int)
    requires 0 <= hi && 0 <= lo < 0x40
    ensures (hi * 0x40 + lo) / 0x40 == hi && (hi * 0x40 + lo) % 0x40 == lo
  {
  }

  lemma DecodeFirstEncodeTwo(c: char, rest: seq<byte>)
    requires 0x80 <= c as int < 0x800
    ensures DecodeFirst(EncodeChar(c) + rest) == Some((c, 2))
  {
    var cp := c as int;
    var bs := EncodeChar(c) + rest;
    SixBitGroups(cp);
    assert (bs[0] as int - 0xC0) * 0x40 + (bs[1] as int - 0x80) == cp;
  }

  lemma DecodeFirstEncodeThree(c: char, rest: seq<byte>)
    requires 0x800 <= c as int < 0x1_0000
    ensures DecodeFirst(EncodeChar(c) + rest) == Some((c, 3))
  {
    var cp := c as int;
    var bs := EncodeChar(c) + rest;
    SixBitGroups(cp);
    assert bs[0] - 0xE0 == cp / 0x1000;
    assert bs[1] - 0x80 == (cp / 0x40) % 0x40;
    assert bs[2] - 0x80 == cp % 0x40;
    assert (bs[0] as int - 0xE0) * 0x1000 + (bs[1] as int - 0x80) * 0x40 + (bs[2] as int - 0x80) == cp;
  }

  lemma DecodeFirstEncodeFour(c: char, rest: seq<byte>)
    requires 0x1_0000 <= c as int
    ensures DecodeFirst(EncodeChar(c) + rest) == Some((c, 4))
  {
    var cp := c as int;
    var bs := EncodeChar(c) + rest;
    SixBitGroups(cp);
    assert bs[0] - 0xF0 == cp / 0x4_0000;
    assert bs[1] - 0x80 == (cp / 0x1000) % 0x40;
    assert bs[2] - 0x80 == (cp / 0x40) % 0x40;
    assert bs[3] - 0x80 == cp % 0x40;
    assert (bs[0] as int - 0xF0) * 0x4_0000 + (bs[1] as int - 0x80) * 0x1000 + (bs[2] as int - 0x80) * 0x40 + (bs[3] as int - 0x80) == cp;
  }

  /** The decoder reads back exactly the code point the encoder wrote, whatever follows it. */
  lemma DecodeFirstEncodeChar(c: char, rest: seq<byte>)
    ensures DecodeFirst(EncodeChar(c) + rest) == Some((c, |EncodeChar(c)|))
  {
    var cp := c as int;
    if cp < 0x80 {
    } else if cp < 0x800 {
      DecodeFirstEncodeTwo(c, rest);
    } else if cp < 0x1_0000 {
      DecodeFirstEncodeThree(c, rest);
    } else {
      DecodeFirstEncodeFour(c, rest);
    }
  }

  /** Decoding undoes encoding: the UTF-8 form of a string determines the string. */
  lemma {:induction false} DecodeEncode(s: string)
    ensures Decode(Encode(s)) == Some(s)
  {
    if s != [] {
      var head := EncodeChar(s[0]);
      var tail := Encode(s[1..]);
      DecodeFirstEncodeChar(s[0], tail);
      assert (head + tail)[|head|..] == tail;
      DecodeEncode(s[1..]);
      assert [s[0]] + s[1..] == s;
    }
  }

  /** Distinct strings have distinct UTF-8 forms. */
  lemma EncodeInjective(s: string, t: string)
    requires Encode(s) == Encode(t)
    ensures s == t
  {
    DecodeEncode(s);
    DecodeEncode(t);
  }

  lemma EncodeTwoDecodeFirst(bs: seq<byte>)
    requires DecodeFirst(bs).Some? && 0x80 <= bs[0] < 0xE0
    ensures EncodeChar(DecodeFirst(bs).value.0) == bs[..2]
  {
    AppendGroup(bs[0] as int - 0xC0, bs[1] as int - 0x80);
  }

  lemma EncodeThreeDecodeFirst(bs: seq<byte>)
    requires DecodeFirst(bs).Some? && 0xE0 <= bs[0] < 0xF0
    ensures EncodeChar(DecodeFirst(bs).value.0) == bs[..3]
  {
    var cp := DecodeFirst(bs).value.0 as int;
    var hi := (bs[0] as int - 0xE0) * 0x40 + (bs[1] as int - 0x80);
    assert cp == hi * 0x40 + (bs[2] as int - 0x80);
    AppendGroup(hi, bs[2] as int - 0x80);
    AppendGroup(bs[0] as int - 0xE0, bs[1] as int - 0x80);
    SixBitGroups(cp);
  }

  lemma EncodeFourDecodeFirst(bs: seq<byte>)
    requires DecodeFirst(bs).Some? && 0xF0 <= bs[0]
    ensures EncodeChar(DecodeFirst(bs).value.0) == bs[..4]
  {
    var cp := DecodeFirst(bs).value.0 as int;
    var top := (bs[0] as int - 0xF0) * 0x40 + (bs[1] as int - 0x80);
    var hi := top * 0x40 + (bs[2] as int - 0x80);
    assert cp == hi * 0x40 + (bs[3] as int - 0x80);
    AppendGroup(hi, bs[3] as int - 0x80);
    AppendGroup(top, bs[2] as int - 0x80);
    AppendGroup(bs[0] as int - 0xF0, bs[1] as int - 0x80);
    SixBitGroups(cp);
  }

  /** A code point is re-encoded as exactly the bytes it was decoded from. */
  lemma EncodeCharDecodeFirst(bs: seq<byte>)
    requires DecodeFirst(bs).Some?
    ensures EncodeChar(DecodeFirst(bs).value.0) == bs[..DecodeFirst(bs).value.1]
  {
    if bs[0] < 0x80 {
    } else if bs[0] < 0xE0 {
      EncodeTwoDecodeFirst(bs);
    } else if bs[0] < 0xF0 {
      EncodeThreeDecodeFirst(bs);
    } else {
      EncodeFourDecodeFirst(bs);
    }
  }

  /**
   * A well-formed non-empty byte sequence is the encoding of its first code
   * point `c`, `n` bytes long, followed by a well-formed rest.
   */
  lemma DecodeStep(bs: seq<byte>) returns (c: char, n: nat)
    requires bs != [] && Decode(bs).Some?
    ensures 1 <= n <= |bs|
    ensures bs[..n] == EncodeChar(c)
    ensures Decode(bs[n..]).Some?
    ensures Decode(bs).value == [c] + Decode(bs[n..]).value
  {
    c, n := DecodeFirst(bs).value.0, DecodeFirst(bs).value.1;
    EncodeCharDecodeFirst(bs);
  }

  /** Encoding undoes decoding: a well-formed byte sequence is the UTF-8 form of what it decodes to. */
  lemma {:induction false} EncodeDecode(bs: seq<byte>)
    requires Decode(bs).Some?
    ensures Encode(Decode(bs).value) == bs
    decreases |bs|
  {
    if bs != [] {
      var c, n := DecodeStep(bs);
      var s := Decode(bs[n..]).value;
      EncodeDecode(bs[n..]);
      assert ([c] + s)[1..] == s;
      assert bs[..n] + bs[n..] == bs;
    }
  }
}
