/** The byte/text boundary of the pipeline: `String::from_utf8`, which the
    response parser applies to the accumulated bytes, and `str::as_bytes`,
    which turns the request text into the bytes written to the socket.
    A byte sequence is accepted exactly when it is a concatenation of the
    well-formed UTF-8 sequences of the Unicode Standard (Table 3-7): no
    overlong forms, no surrogates, nothing above U+10FFFF. */
module Utf8 {
  import opened Wrappers

  newtype byte = x: int | 0 <= x < 0x100

  predicate InRange(b: byte, lo: int, hi: int) {
    lo <= b as int <= hi
  }

  predicate IsContinuation(b: byte) {
    InRange(b, 0x80, 0xBF)
  }

  /** The one well-formed sequence at the front of `b`, decoded: the
      character and the number of bytes it takes. */
  function DecodeFirst(b: seq<byte>): (r: Option<(char, nat)>)
    requires |b| > 0
    ensures r.Some? ==> 1 <= r.value.1 <= 4 && r.value.1 <= |b|
  {
    var b0 := b[0] as int;
    if b0 < 0x80 then
      Some((b0 as char, 1))
    else if 0xC2 <= b0 <= 0xDF then
      if |b| >= 2 && IsContinuation(b[1]) then
        Some((((b0 - 0xC0) * 64 + (b[1] as int - 0x80)) as char, 2))
      else None
    else if 0xE0 <= b0 <= 0xEF then
      var lo := if b0 == 0xE0 then 0xA0 else 0x80;
      var hi := if b0 == 0xED then 0x9F else 0xBF;
      if |b| >= 3 && InRange(b[1], lo, hi) && IsContinuation(b[2]) then
        var cp := (b0 - 0xE0) * 4096 + (b[1] as int - 0x80) * 64 + (b[2] as int - 0x80);
        assert cp < 0xD800 || 0xE000 <= cp < 0x1_0000;
        Some((cp as char, 3))
      else None
    else if 0xF0 <= b0 <= 0xF4 then
      var lo := if b0 == 0xF0 then 0x90 else 0x80;
      var hi := if b0 == 0xF4 then 0x8F else 0xBF;
      if |b| >= 4 && InRange(b[1], lo, hi) && IsContinuation(b[2]) && IsContinuation(b[3]) then
        var cp := (b0 - 0xF0) * 262144 + (b[1] as int - 0x80) * 4096
                  + (b[2] as int - 0x80) * 64 + (b[3] as int - 0x80);
        assert 0x1_0000 <= cp < 0x11_0000;
        Some((cp as char, 4))
      else None
    else None
  }

  /** `String::from_utf8`: `None` stands for the `FromUtf8Error`. */
  function Decode(b: seq<byte>): Option<string>
    decreases |b|
  {
    if b == [] then Some("")
    else match DecodeFirst(b)
      case None => None
      case Some((c, n)) =>
        match Decode(b[n..])
        case None => None
        case Some(rest) => Some([c] + rest)
  }

  /** The UTF-8 encoding of one character. */
  function EncodeChar(c: char): (r: seq<byte>)
    ensures 1 <= |r| <= 4
  {
    var cp := c as int;
    if cp < 0x80 then
      [cp as byte]
    else if cp < 0x800 then
      [(0xC0 + cp / 64) as byte, (0x80 + cp % 64) as byte]
    else if cp < 0x1_0000 then
      [(0xE0 + cp / 4096) as byte, (0x80 + (cp / 64) % 64) as byte, (0x80 + cp % 64) as byte]
    else
      [(0xF0 + cp / 262144) as byte, (0x80 + (cp / 4096) % 64) as byte,
       (0x80 + (cp / 64) % 64) as byte, (0x80 + cp % 64) as byte]
  }

  /** `str::as_bytes`. */
  function Encode(s: string): seq<byte>
    decreases |s|
  {
    if s == [] then [] else EncodeChar(s[0]) + Encode(s[1..])
  }

  /** ASCII text is its own encoding, byte for byte. */
  function AsciiBytes(s: string): (r: seq<byte>)
    requires forall i :: 0 <= i < |s| ==> s[i] as int < 0x80
    ensures |r| == |s|
    ensures forall i :: 0 <= i < |s| ==> r[i] as int == s[i] as int
  {
    seq(|s|, i requires 0 <= i < |s| => s[i] as int as byte)
  }

  lemma DecodeEncodeChar(c: char, rest: seq<byte>)
    ensures DecodeFirst(EncodeChar(c) + rest) == Some((c, |EncodeChar(c)|))
  {
    var cp := c as int;
    if cp < 0x80 {
    } else if cp < 0x800 {
      DecodeEncodeTwo(c, rest);
    } else if cp < 0x1_0000 {
      DecodeEncodeThree(c, rest);
    } else {
      DecodeEncodeFour(c, rest);
    }
  }

  lemma DecodeEncodeTwo(c: char, rest: seq<byte>)
    requires 0x80 <= c as int < 0x800
    ensures DecodeFirst(EncodeChar(c) + rest) == Some((c, 2))
  {
    var e := EncodeChar(c);
    var cp := c as int;
    assert (e + rest)[0] == e[0] && (e + rest)[1] == e[1];
    assert (cp / 64) * 64 + cp % 64 == cp;
  }

  lemma DecodeEncodeThree(c: char, rest: seq<byte>)
    requires 0x800 <= c as int < 0x1_0000
    ensures DecodeFirst(EncodeChar(c) + rest) == Some((c, 3))
  {
    var e := EncodeChar(c);
    var cp := c as int;
    assert (e + rest)[0] == e[0] && (e + rest)[1] == e[1] && (e + rest)[2] == e[2];
    assert (cp / 4096) * 4096 + ((cp / 64) % 64) * 64 + cp % 64 == cp;
  }

  lemma DecodeEncodeFour(c: char, rest: seq<byte>)
    requires 0x1_0000 <= c as int
    ensures DecodeFirst(EncodeChar(c) + rest) == Some((c, 4))
  {
    var e := EncodeChar(c);
    var cp := c as int;
    assert (e + rest)[0] == e[0] && (e + rest)[1] == e[1] && (e + rest)[2] == e[2] && (e + rest)[3] == e[3];
    FourDigits(cp);
  }

  /** The base-64 digits of a supplementary code point, as the four-byte
      form spreads them. */
  lemma FourDigits(cp: int)
    requires 0x1_0000 <= cp < 0x11_0000
    ensures 0 <= cp / 262144 <= 4
    ensures cp / 262144 == 0 ==> 0x10 <= (cp / 4096) % 64
    ensures cp / 262144 == 4 ==> (cp / 4096) % 64 < 0x10
    ensures (cp / 262144) * 262144 + ((cp / 4096) % 64) * 4096 + ((cp / 64) % 64) * 64 + cp % 64 == cp
  {
    var a := cp / 64;
    var b := a / 64;
    assert cp / 4096 == b;
    assert cp / 262144 == b / 64;
  }

  /** Decoding undoes encoding: every string survives the trip through
      bytes. */
  lemma {:induction false} DecodeEncode(s: string)
    ensures Decode(Encode(s)) == Some(s)
    decreases |s|
  {
    if s != [] {
      var e := EncodeChar(s[0]);
      DecodeEncodeChar(s[0], Encode(s[1..]));
      assert (e + Encode(s[1..]))[|e|..] == Encode(s[1..]);
      DecodeEncode(s[1..]);
      assert [s[0]] + s[1..] == s;
    }
  }

  lemma DivMod64(q: int, r: int)
    requires 0 <= r < 64
    ensures (q * 64 + r) / 64 == q && (q * 64 + r) % 64 == r
  {
  }

  lemma EncodeDecodeFirst(b: seq<byte>)
    requires |b| > 0 && DecodeFirst(b).Some?
    ensures EncodeChar(DecodeFirst(b).value.0) == b[..DecodeFirst(b).value.1]
  {
    var b0 := b[0] as int;
    if b0 < 0x80 {
    } else if b0 <= 0xDF {
      EncodeTwo(b[0], b[1]);
    } else if b0 <= 0xEF {
      EncodeThree(b[0], b[1], b[2]);
    } else {
      EncodeFour(b[0], b[1], b[2], b[3]);
    }
  }

  lemma EncodeTwo(x0: byte, x1: byte)
    requires 0xC2 <= x0 as int <= 0xDF && IsContinuation(x1)
    ensures DecodeFirst([x0, x1]).Some?
    ensures EncodeChar(DecodeFirst([x0, x1]).value.0) == [x0, x1]
  {
    var cp := (x0 as int - 0xC0) * 64 + (x1 as int - 0x80);
    DivMod64(x0 as int - 0xC0, x1 as int - 0x80);
  }

  lemma EncodeThree(x0: byte, x1: byte, x2: byte)
    requires 0xE0 <= x0 as int <= 0xEF && IsContinuation(x1) && IsContinuation(x2)
    ensures DecodeFirst([x0, x1, x2]).Some? ==> EncodeChar(DecodeFirst([x0, x1, x2]).value.0) == [x0, x1, x2]
  {
    var hi := (x0 as int - 0xE0) * 64 + (x1 as int - 0x80);
    var cp := hi * 64 + (x2 as int - 0x80);
    DivMod64(hi, x2 as int - 0x80);
    DivMod64(x0 as int - 0xE0, x1 as int - 0x80);
    assert cp / 4096 == hi / 64;
  }

  lemma EncodeFour(x0: byte, x1: byte, x2: byte, x3: byte)
    requires 0xF0 <= x0 as int <= 0xF4 && IsContinuation(x1) && IsContinuation(x2) && IsContinuation(x3)
    ensures DecodeFirst([x0, x1, x2, x3]).Some? ==> EncodeChar(DecodeFirst([x0, x1, x2, x3]).value.0) == [x0, x1, x2, x3]
  {
    var top := (x0 as int - 0xF0) * 64 + (x1 as int - 0x80);
    var mid := top * 64 + (x2 as int - 0x80);
    var cp := mid * 64 + (x3 as int - 0x80);
    DivMod64(mid, x3 as int - 0x80);
    DivMod64(top, x2 as int - 0x80);
    DivMod64(x0 as int - 0xF0, x1 as int - 0x80);
    assert cp / 4096 == mid / 64;
    assert cp / 262144 == top / 64;
  }

  /** Accepted bytes are the encoding of what they decode to, so an
      accepted byte sequence decodes to exactly one string. */
  lemma {:induction false} EncodeDecode(b: seq<byte>)
    requires Decode(b).Some?
    ensures Encode(Decode(b).value) == b
    decreases |b|
  {
    if b != [] {
      var c, n := DecodeCons(b);
      EncodeDecode(b[n..]);
      EncodeCons(c, Decode(b[n..]).value);
      assert b == b[..n] + b[n..];
    }
  }

  /** A decodable non-empty sequence starts with the encoding of its first
      character, and the rest decodes on its own. */
  lemma DecodeCons(b: seq<byte>) returns (c: char, n: nat)
    requires b != [] && Decode(b).Some?
    ensures 1 <= n <= |b| && EncodeChar(c) == b[..n]
    ensures Decode(b[n..]).Some? && Decode(b).value == [c] + Decode(b[n..]).value
  {
    c, n := DecodeFirst(b).value.0, DecodeFirst(b).value.1;
    EncodeDecodeFirst(b);
  }

  lemma EncodeCons(c: char, rest: string)
    ensures Encode([c] + rest) == EncodeChar(c) + Encode(rest)
  {
    assert ([c] + rest)[1..] == rest;
  }

  /** Encoding works character by character, so it distributes over
      concatenation. */
  lemma {:induction false} EncodeAppend(a: string, b: string)
    ensures Encode(a + b) == Encode(a) + Encode(b)
    decreases |a|
  {
    if a != [] {
      assert (a + b)[0] == a[0];
      assert (a + b)[1..] == a[1..] + b;
      EncodeAppend(a[1..], b);
    } else {
      assert a + b == b;
    }
  }

  /** ASCII text is decoded character for character. */
  lemma {:induction false} EncodeAscii(s: string)
    requires forall i :: 0 <= i < |s| ==> s[i] as int < 0x80
    ensures Encode(s) == AsciiBytes(s)
    decreases |s|
  {
    if s != [] {
      EncodeAscii(s[1..]);
      var a, t := AsciiBytes(s), AsciiBytes(s[1..]);
      assert a == [a[0]] + t;
    }
  }
}
