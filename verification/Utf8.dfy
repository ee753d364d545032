/** Byte strings. */
module Bytes {
  type Byte = b: int | 0 <= b < 256
  type Bytes = seq<Byte>
}

/** UTF-8 as of RFC 3629, strict in decoding. */
module Utf8 {
  import opened Wrappers
  import opened Bytes

  function EncodeChar(c: char): (r: Bytes)
    ensures 1 <= |r| <= 4
  {
    var n := c as int;
    if n < 0x80 then [n]
    else if n < 0x800 then [0xC0 + n / 64, 0x80 + n % 64]
    else if n < 0x1_0000 then [0xE0 + n / 4096, 0x80 + n / 64 % 64, 0x80 + n % 64]
    else [0xF0 + n / 262144, 0x80 + n / 4096 % 64, 0x80 + n / 64 % 64, 0x80 + n % 64]
  }

  function Encode(s: string): Bytes {
    if s == "" then [] else EncodeChar(s[0]) + Encode(s[1..])
  }

  predicate IsTail(b: Byte) {
    0x80 <= b < 0xC0
  }

  function TailBits(b: Byte): (v: nat)
    requires IsTail(b)
    ensures v < 64
  {
    b as int - 0x80
  }

  predicate IsScalar(n: int) {
    0 <= n < 0xD800 || 0xE000 <= n < 0x11_0000
  }

  /** The first scalar value and how many bytes it takes; overlong forms and surrogates are refused. */
  function DecodeChar(b: Bytes): (r: Option<(char, nat)>)
    requires b != []
    ensures r.Some? ==> 1 <= r.value.1 <= |b|
  {
    var b0: int := b[0];
    if b0 < 0x80 then Some((b0 as char, 1))
    else if 0xC0 <= b0 < 0xE0 && |b| >= 2 && IsTail(b[1]) then
      Checked((b0 - 0xC0) * 64 + TailBits(b[1]), 0x80, 2)
    else if 0xE0 <= b0 < 0xF0 && |b| >= 3 && IsTail(b[1]) && IsTail(b[2]) then
      Checked((b0 - 0xE0) * 4096 + TailBits(b[1]) * 64 + TailBits(b[2]), 0x800, 3)
    else if 0xF0 <= b0 < 0xF8 && |b| >= 4 && IsTail(b[1]) && IsTail(b[2]) && IsTail(b[3]) then
      Checked((b0 - 0xF0) * 262144 + TailBits(b[1]) * 4096 + TailBits(b[2]) * 64 + TailBits(b[3]), 0x1_0000, 4)
    else None
  }

  function Checked(n: int, least: nat, width: nat): Option<(char, nat)> {
    if n >= least && IsScalar(n) then Some((n as char, width)) else None
  }

  /** `String::from_utf8`. */
  function Decode(b: Bytes): Option<string>
    decreases |b|
  {
    if b == [] then Some("")
    else match DecodeChar(b)
      case None => None
      case Some((c, n)) =>
        match Decode(b[n..])
        case Some(rest) => Some([c] + rest)
        case None => None
  }

  lemma Digits64(n: nat)
    ensures n == n / 64 * 64 + n % 64
    ensures n == n / 4096 * 4096 + n / 64 % 64 * 64 + n % 64
    ensures n == n / 262144 * 262144 + n / 4096 % 64 * 4096 + n / 64 % 64 * 64 + n % 64
  {
    assert n / 64 / 64 == n / 4096 && n / 4096 / 64 == n / 262144;
  }

  lemma DecodeEncodedChar(c: char, rest: Bytes)
    ensures DecodeChar(EncodeChar(c) + rest) == Some((c, |EncodeChar(c)|))
  {
    var n := c as int;
    Digits64(n);
    if n < 0x80 {
    } else if n < 0x800 {
      TwoBytes(c, rest);
    } else if n < 0x1_0000 {
      ThreeBytes(c, rest);
    } else {
      FourBytes(c, rest);
    }
  }

  lemma TwoBytes(c: char, rest: Bytes)
    requires 0x80 <= c as int < 0x800
    ensures DecodeChar(EncodeChar(c) + rest) == Some((c, 2))
  {
    var n := c as int;
    Digits64(n);
    var b0, b1: Byte := 0xC0 + n / 64, 0x80 + n % 64;
    var b := EncodeChar(c) + rest;
    assert b[0] == b0 && b[1] == b1 && |EncodeChar(c)| == 2;
    assert DecodeChar(b) == Checked(n, 0x80, 2);
  }

  lemma ThreeBytes(c: char, rest: Bytes)
    requires 0x800 <= c as int < 0x1_0000
    ensures DecodeChar(EncodeChar(c) + rest) == Some((c, 3))
  {
    var n := c as int;
    Digits64(n);
    var b0, b1, b2: Byte := 0xE0 + n / 4096, 0x80 + n / 64 % 64, 0x80 + n % 64;
    var b := EncodeChar(c) + rest;
    assert b[0] == b0 && b[1] == b1 && b[2] == b2 && |EncodeChar(c)| == 3;
    assert DecodeChar(b) == Checked(n, 0x800, 3);
  }

  lemma FourBytes(c: char, rest: Bytes)
    requires 0x1_0000 <= c as int
    ensures DecodeChar(EncodeChar(c) + rest) == Some((c, 4))
  {
    var n := c as int;
    Digits64(n);
    var b0, b1, b2, b3: Byte := 0xF0 + n / 262144, 0x80 + n / 4096 % 64, 0x80 + n / 64 % 64, 0x80 + n % 64;
    var b := EncodeChar(c) + rest;
    assert b[0] == b0 && b[1] == b1 && b[2] == b2 && b[3] == b3 && |EncodeChar(c)| == 4;
    assert DecodeChar(b) == Checked(n, 0x1_0000, 4);
  }

  lemma {:induction false} DecodeEncode(s: string)
    ensures Decode(Encode(s)) == Some(s)
  {
    if s != "" {
      DecodeEncodedChar(s[0], Encode(s[1..]));
      assert Encode(s)[|EncodeChar(s[0])|..] == Encode(s[1..]);
      DecodeEncode(s[1..]);
      assert s == [s[0]] + s[1..];
    }
  }

  /** The examples of section 7 of RFC 3629, and the last character there is. */
  lemma Rfc3629Examples()
    ensures EncodeChar('A') == [0x41] && EncodeChar('\U{2262}') == [0xE2, 0x89, 0xA2]
    ensures EncodeChar('\U{0391}') == [0xCE, 0x91] && EncodeChar('\U{233B4}') == [0xF0, 0xA3, 0x8E, 0xB4]
    ensures EncodeChar('\U{10FFFF}') == [0xF4, 0x8F, 0xBF, 0xBF]
  {
  }
}
