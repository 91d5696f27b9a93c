/**
 * UTF-8, the encoding Python's `str.encode()` uses by default. The explicit
 * key string handed to the matcher becomes its UTF-8 bytes.
 */
module Utf8 {
  import opened PyValues

  /** An octet, one element of a Python `bytes` value. */
  newtype byte = x: int | 0 <= x < 256

  /** The code points a Dafny `char` can hold (Unicode scalar values). */
  predicate IsScalar(cp: int) {
    (0 <= cp < 0xD800) || (0xE000 <= cp < 0x11_0000)
  }

  /** A continuation byte `10xxxxxx`. */
  predicate IsContinuation(b: byte) {
    0x80 <= b < 0xC0
  }

  /** The six payload bits of a continuation byte. */
  function Low(b: byte): int {
    b as int - 0x80
  }

  /** The one to four bytes encoding a single scalar value. */
  function EncodeChar(c: char): (bs: seq<byte>)
    ensures 1 <= |bs| <= 4
    ensures !IsContinuation(bs[0])
    ensures forall k :: 1 <= k < |bs| ==> IsContinuation(bs[k])
  {
    var cp := c as int;
    if cp < 0x80 then
      [cp as byte]
    else if cp < 0x800 then
      [(0xC0 + cp / 64) as byte, (0x80 + cp % 64) as byte]
    else if cp < 0x1_0000 then
      [(0xE0 + cp / 4096) as byte, (0x80 + (cp / 64) % 64) as byte, (0x80 + cp % 64) as byte]
    else
      [(0xF0 + cp / 262144) as byte, (0x80 + (cp / 4096) % 64) as byte,
       (0x80 + (cp / 64) % 64) as byte, (0x80 + cp % 64) as byte]
  }

  /** The UTF-8 encoding of a whole string. */
  function Encode(s: string): (bs: seq<byte>)
    ensures |s| <= |bs| <= 4 * |s|
    ensures s != [] ==> bs != [] && !IsContinuation(bs[0])
  {
    if s == [] then [] else EncodeChar(s[0]) + Encode(s[1..])
  }

  /** Accepts a decoded code point if it is in range and not overlong. */
  function Finish(cp: int, n: nat, min: int): Option<(char, nat)> {
    if min <= cp && IsScalar(cp) then Some((cp as char, n)) else None
  }

  /**
   * Strict decoding of the first character of `bs`: the character and the
   * number of bytes it occupies, or None for a truncated, overlong,
   * surrogate or out-of-range sequence.
   */
  function DecodeChar(bs: seq<byte>): (r: Option<(char, nat)>)
    requires bs != []
    ensures r.Some? ==> 1 <= r.value.1 <= |bs|
  {
    var b0 := bs[0] as int;
    if b0 < 0x80 then
      Finish(b0, 1, 0)
    else if b0 < 0xC0 then
      None
    else if b0 < 0xE0 then
      if |bs| < 2 || !IsContinuation(bs[1]) then None
      else Finish((b0 - 0xC0) * 64 + Low(bs[1]), 2, 0x80)
    else if b0 < 0xF0 then
      if |bs| < 3 || !IsContinuation(bs[1]) || !IsContinuation(bs[2]) then None
      else Finish(((b0 - 0xE0) * 64 + Low(bs[1])) * 64 + Low(bs[2]), 3, 0x800)
    else if b0 < 0xF8 then
      if |bs| < 4 || !IsContinuation(bs[1]) || !IsContinuation(bs[2]) || !IsContinuation(bs[3]) then None
      else Finish((((b0 - 0xF0) * 64 + Low(bs[1])) * 64 + Low(bs[2])) * 64 + Low(bs[3]), 4, 0x1_0000)
    else
      None
  }

  /** Strict decoding of a whole byte string; None when it is not UTF-8. */
  function Decode(bs: seq<byte>): Option<string>
    decreases |bs|
  {
    if bs == [] then Some([])
    else
      match DecodeChar(bs)
      case None => None
      case Some((c, n)) =>
        match Decode(bs[n..])
        case None => None
        case Some(rest) => Some([c] + rest)
  }

  /** Decoding the front of a buffer recovers the character encoded there. */
  lemma DecodeCharOfEncodeChar(c: char, rest: seq<byte>)
    ensures DecodeChar(EncodeChar(c) + rest) == Some((c, |EncodeChar(c)|))
  {
    var cp := c as int;
    if cp < 0x80 {
    } else if cp < 0x800 {
      DecodeTwoBytes(c, rest);
    } else if cp < 0x1_0000 {
      DecodeThreeBytes(c, rest);
    } else {
      DecodeFourBytes(c, rest);
    }
  }

  /** The two-byte case of `DecodeCharOfEncodeChar`. */
  lemma DecodeTwoBytes(c: char, rest: seq<byte>)
    requires 0x80 <= c as int < 0x800
    ensures DecodeChar(EncodeChar(c) + rest) == Some((c, 2))
  {
    var cp := c as int;
    var bs := EncodeChar(c) + rest;
    assert bs[0] as int - 0xC0 == cp / 64 && Low(bs[1]) == cp % 64;
    assert cp == (cp / 64) * 64 + cp % 64;
  }

  /** The three-byte case of `DecodeCharOfEncodeChar`. */
  lemma DecodeThreeBytes(c: char, rest: seq<byte>)
    requires 0x800 <= c as int < 0x1_0000
    ensures DecodeChar(EncodeChar(c) + rest) == Some((c, 3))
  {
    var cp := c as int;
    var bs := EncodeChar(c) + rest;
    assert bs[0] as int - 0xE0 == cp / 4096;
    assert Low(bs[1]) == (cp / 64) % 64 && Low(bs[2]) == cp % 64;
    var q1 := cp / 64;
    assert cp == q1 * 64 + cp % 64;
    assert q1 == (cp / 4096) * 64 + q1 % 64;
  }

  /** Four base-64 digits of a code point put back together give the code point. */
  lemma FourDigits(cp: int)
    requires 0 <= cp
    ensures (((cp / 262144) * 64 + (cp / 4096) % 64) * 64 + (cp / 64) % 64) * 64 + cp % 64 == cp
  {
    var q1 := cp / 64;
    var q2 := cp / 4096;
    assert cp == q1 * 64 + cp % 64;
    assert q1 == q2 * 64 + q1 % 64;
    assert q2 == (cp / 262144) * 64 + q2 % 64;
  }

  /** The four-byte case of `DecodeCharOfEncodeChar`. */
  lemma DecodeFourBytes(c: char, rest: seq<byte>)
    requires 0x1_0000 <= c as int
    ensures DecodeChar(EncodeChar(c) + rest) == Some((c, 4))
  {
    var cp := c as int;
    var bs := EncodeChar(c) + rest;
    assert bs[0] as int - 0xF0 == cp / 262144;
    assert Low(bs[1]) == (cp / 4096) % 64 && Low(bs[2]) == (cp / 64) % 64 && Low(bs[3]) == cp % 64;
    FourDigits(cp);
  }

  /** Round trip: decoding an encoding gives back the string. */
  lemma {:induction false} DecodeEncode(s: string)
    ensures Decode(Encode(s)) == Some(s)
  {
    if s != [] {
      var head := EncodeChar(s[0]);
      var tail := Encode(s[1..]);
      DecodeCharOfEncodeChar(s[0], tail);
      assert (head + tail)[|head|..] == tail;
      DecodeEncode(s[1..]);
      assert [s[0]] + s[1..] == s;
    }
  }

  /** Distinct strings have distinct encodings. */
  lemma EncodeInjective(s: string, t: string)
    requires Encode(s) == Encode(t)
    ensures s == t
  {
    DecodeEncode(s);
    DecodeEncode(t);
  }
}
