// UTF-8, as Rust's `str::from_utf8` accepts it: the shortest encoding of each
// Unicode scalar value, no surrogates, nothing above U+10FFFF. Messages reach
// the display server as bytes and are handled as `&str` only after this check.
module Utf8 {
  import opened Helpers

  type Byte = b: int | 0 <= b < 256

  predicate IsCont(b: Byte) { 0x80 <= b < 0xC0 }

  /** The code point of a scalar value, as a `char`. */
  function ToChar(cp: int): (c: char)
    requires 0 <= cp < 0xD800 || 0xE000 <= cp < 0x11_0000
    ensures c as int == cp
  {
    cp as char
  }

  /**
   * The first character of `b` and the number of bytes it takes, or None when
   * `b` does not start with a well-formed sequence.
   */
  function DecodeFirst(b: seq<Byte>): (r: Option<(char, nat)>)
    ensures r.Some? ==> 1 <= r.value.1 <= 4 && r.value.1 <= |b|
  {
    if |b| == 0 then None
    else if b[0] < 0x80 then Some((ToChar(b[0]), 1))
    else if b[0] < 0xC2 then None
    else if b[0] < 0xE0 then
      if |b| >= 2 && IsCont(b[1])
      then Some((ToChar((b[0] as int - 0xC0) * 64 + (b[1] as int - 0x80)), 2))
      else None
    else if b[0] < 0xF0 then
      var lo := if b[0] == 0xE0 then 0xA0 else 0x80;
      var hi := if b[0] == 0xED then 0xA0 else 0xC0;
      if |b| >= 3 && lo <= b[1] < hi && IsCont(b[2])
      then Some((ToChar((b[0] as int - 0xE0) * 4096 + (b[1] as int - 0x80) * 64 + (b[2] as int - 0x80)), 3))
      else None
    else if b[0] < 0xF5 then
      var lo := if b[0] == 0xF0 then 0x90 else 0x80;
      var hi := if b[0] == 0xF4 then 0x90 else 0xC0;
      if |b| >= 4 && lo <= b[1] < hi && IsCont(b[2]) && IsCont(b[3])
      then Some((ToChar((b[0] as int - 0xF0) * 262144 + (b[1] as int - 0x80) * 4096 + (b[2] as int - 0x80) * 64 + (b[3] as int - 0x80)), 4))
      else None
    else None
  }

  /** `str::from_utf8`: the decoded text, or None when `b` is not valid UTF-8. */
  function Decode(b: seq<Byte>): Option<string>
    decreases |b|
  {
    if b == [] then Some([])
    else match DecodeFirst(b)
      case None => None
      case Some((c, n)) =>
        match Decode(b[n..])
        case None => None
        case Some(rest) => Some([c] + rest)
  }

  /** The UTF-8 encoding of one character. */
  function EncodeChar(c: char): (r: seq<Byte>)
    ensures 1 <= |r| <= 4
  {
    var cp := c as int;
    if cp < 0x80 then [cp]
    else if cp < 0x800 then [0xC0 + cp / 64, 0x80 + cp % 64]
    else if cp < 0x1_0000 then [0xE0 + cp / 4096, 0x80 + (cp / 64) % 64, 0x80 + cp % 64]
    else [0xF0 + cp / 262144, 0x80 + (cp / 4096) % 64, 0x80 + (cp / 64) % 64, 0x80 + cp % 64]
  }

  /** `str::as_bytes`: the encoding of a text. */
  function Encode(s: string): seq<Byte>
  {
    if s == [] then [] else EncodeChar(s[0]) + Encode(s[1..])
  }

  /** An ASCII character is its own one-byte encoding. */
  lemma EncodeAscii(c: char)
    requires c as int < 0x80
    ensures EncodeChar(c) == [c as int]
  {
  }

  lemma {:induction false} EncodeConcat(s: string, t: string)
    ensures Encode(s + t) == Encode(s) + Encode(t)
  {
    if s != [] {
      assert (s + t)[1..] == s[1..] + t;
      EncodeConcat(s[1..], t);
    } else {
      assert s + t == t;
    }
  }

  /** Bytes of a multi-byte sequence: the lead carries the high bits, each continuation six more. */
  lemma Split2(cp: int)
    requires 0x80 <= cp < 0x800
    ensures 0xC2 <= 0xC0 + cp / 64 < 0xE0 && cp == (cp / 64) * 64 + cp % 64
  {
  }

  lemma Split3(cp: int)
    requires 0x800 <= cp < 0x1_0000
    ensures 0 <= cp / 4096 < 16 && (cp / 64) / 64 == cp / 4096
    ensures cp == (cp / 4096) * 4096 + ((cp / 64) % 64) * 64 + cp % 64
    ensures cp / 4096 == 0 ==> (cp / 64) % 64 >= 0x20
    ensures cp / 4096 == 0xD && cp < 0xD800 ==> (cp / 64) % 64 < 0x20
  {
  }

  lemma Split4(cp: int)
    requires 0x1_0000 <= cp < 0x11_0000
    ensures 0 <= cp / 262144 < 5 && (cp / 4096) / 64 == cp / 262144 && (cp / 64) / 64 == cp / 4096
    ensures cp == (cp / 262144) * 262144 + ((cp / 4096) % 64) * 4096 + ((cp / 64) % 64) * 64 + cp % 64
    ensures cp / 262144 == 0 ==> (cp / 4096) % 64 >= 0x10
    ensures cp / 262144 == 4 ==> (cp / 4096) % 64 < 0x10
  {
  }

  /** Encoding a character and decoding it back gives the character and its width. */
  lemma EncodeCharDecodes(c: char, rest: seq<Byte>)
    ensures DecodeFirst(EncodeChar(c) + rest) == Some((c, |EncodeChar(c)|))
  {
    var cp := c as int;
    var b := EncodeChar(c) + rest;
    if cp < 0x80 {
    } else if cp < 0x800 {
      Split2(cp);
      assert b[0] == 0xC0 + cp / 64 && b[1] == 0x80 + cp % 64;
    } else if cp < 0x1_0000 {
      Split3(cp);
      assert b[0] == 0xE0 + cp / 4096 && b[1] == 0x80 + (cp / 64) % 64 && b[2] == 0x80 + cp % 64;
    } else {
      Split4(cp);
      assert b[0] == 0xF0 + cp / 262144 && b[1] == 0x80 + (cp / 4096) % 64;
      assert b[2] == 0x80 + (cp / 64) % 64 && b[3] == 0x80 + cp % 64;
    }
  }

  /** Six-bit digits: the quotient and remainder of a value built from them. */
  lemma Digits64(hi: int, lo: int)
    requires 0 <= lo < 64 && 0 <= hi
    ensures (hi * 64 + lo) / 64 == hi && (hi * 64 + lo) % 64 == lo
  {
  }

  /** A two-byte sequence is the encoding of the value its payload bits make up. */
  lemma Encodes2(b0: int, b1: int)
    requires 2 <= b0 < 32 && 0 <= b1 < 64
    ensures EncodeChar(ToChar(b0 * 64 + b1)) == [0xC0 + b0, 0x80 + b1]
  {
    Digits64(b0, b1);
  }

  /** A three-byte sequence is the encoding of the value its payload bits make up. */
  lemma Encodes3(b0: int, b1: int, b2: int)
    requires 0 <= b0 < 16 && 0 <= b1 < 64 && 0 <= b2 < 64
    requires var cp := (b0 * 64 + b1) * 64 + b2; 0x800 <= cp && !(0xD800 <= cp < 0xE000)
    ensures EncodeChar(ToChar((b0 * 64 + b1) * 64 + b2)) == [0xE0 + b0, 0x80 + b1, 0x80 + b2]
  {
    var cp := (b0 * 64 + b1) * 64 + b2;
    Digits64(b0 * 64 + b1, b2);
    Digits64(b0, b1);
    assert cp / 4096 == b0;
  }

  /** A four-byte sequence is the encoding of the value its payload bits make up. */
  lemma Encodes4(b0: int, b1: int, b2: int, b3: int)
    requires 0 <= b0 < 5 && 0 <= b1 < 64 && 0 <= b2 < 64 && 0 <= b3 < 64
    requires var cp := ((b0 * 64 + b1) * 64 + b2) * 64 + b3; 0x1_0000 <= cp < 0x11_0000
    ensures EncodeChar(ToChar(((b0 * 64 + b1) * 64 + b2) * 64 + b3)) == [0xF0 + b0, 0x80 + b1, 0x80 + b2, 0x80 + b3]
  {
    var cp := ((b0 * 64 + b1) * 64 + b2) * 64 + b3;
    Digits64((b0 * 64 + b1) * 64 + b2, b3);
    Digits64(b0 * 64 + b1, b2);
    Digits64(b0, b1);
    assert cp / 4096 == b0 * 64 + b1;
    assert cp / 262144 == b0;
  }

  /** A well-formed sequence is the encoding of the character it decodes to. */
  lemma DecodedCharEncodes(b: seq<Byte>)
    requires DecodeFirst(b).Some?
    ensures var (c, n) := DecodeFirst(b).value; EncodeChar(c) == b[..n]
  {
    var n := DecodeFirst(b).value.1;
    if n == 2 {
      Encodes2(b[0] - 0xC0, b[1] - 0x80);
      assert b[..2] == [b[0], b[1]];
    } else if n == 3 {
      Encodes3(b[0] - 0xE0, b[1] - 0x80, b[2] - 0x80);
      assert b[..3] == [b[0], b[1], b[2]];
    } else if n == 4 {
      Encodes4(b[0] - 0xF0, b[1] - 0x80, b[2] - 0x80, b[3] - 0x80);
      assert b[..4] == [b[0], b[1], b[2], b[3]];
    }
  }

  /** Every text is valid once encoded, and decodes back to itself. */
  lemma {:induction false} DecodeEncode(s: string)
    ensures Decode(Encode(s)) == Some(s)
  {
    if s != [] {
      var e := EncodeChar(s[0]);
      EncodeCharDecodes(s[0], Encode(s[1..]));
      assert (e + Encode(s[1..]))[|e|..] == Encode(s[1..]);
      DecodeEncode(s[1..]);
      assert [s[0]] + s[1..] == s;
    }
  }

  /** A text that decodes is its first character followed by the decoding of the rest. */
  lemma DecodeCons(b: seq<Byte>)
    requires b != [] && Decode(b).Some?
    ensures DecodeFirst(b).Some?
    ensures Decode(b[DecodeFirst(b).value.1..]).Some?
    ensures Decode(b).value == [DecodeFirst(b).value.0] + Decode(b[DecodeFirst(b).value.1..]).value
  {
  }

  /** A character's encoding followed by the encoding of the rest makes up the text's encoding. */
  lemma Glue(b: seq<Byte>, n: nat, c: char, rest: string)
    requires n <= |b| && EncodeChar(c) == b[..n] && Encode(rest) == b[n..]
    ensures Encode([c] + rest) == b
  {
    assert ([c] + rest)[1..] == rest;
    assert b == b[..n] + b[n..];
  }

  /** Whatever decodes is the encoding of what it decodes to. */
  lemma {:induction false} EncodeDecode(b: seq<Byte>)
    requires Decode(b).Some?
    ensures Encode(Decode(b).value) == b
    decreases |b|
  {
    if b != [] {
      DecodeCons(b);
      var c, n := DecodeFirst(b).value.0, DecodeFirst(b).value.1;
      DecodedCharEncodes(b);
      EncodeDecode(b[n..]);
      Glue(b, n, c, Decode(b[n..]).value);
    }
  }
}
