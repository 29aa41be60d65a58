/**
 * The text encodings the handshake relies on: UTF-8 (`str.encode`), lowercase
 * hexadecimal (`bytes.hex`) and Base64 with the standard alphabet and `=`
 * padding (`base64.b64encode`, section 4 of RFC 4648). Each encoder has a
 * decoder beside it and a round-trip lemma.
 */
module Encoding {
  import opened Wrappers

  // ---------------------------------------------------------------------------
  // UTF-8
  // ---------------------------------------------------------------------------

  predicate IsContinuation(b: Byte) { 0x80 <= b < 0xC0 }

  /** The UTF-8 encoding of one Unicode scalar value (1 to 4 bytes). */
  function Utf8Char(c: char): (r: seq<Byte>)
    ensures 1 <= |r| <= 4
    ensures (c as int < 0x80) <==> |r| == 1
    ensures |r| == 1 ==> r[0] == c as int
    ensures forall j :: 1 <= j < |r| ==> IsContinuation(r[j])
  {
    var n := c as int;
    if n < 0x80 then [n]
    else if n < 0x800 then [0xC0 + n / 64, 0x80 + n % 64]
    else if n < 0x10000 then [0xE0 + n / 4096, 0x80 + (n / 64) % 64, 0x80 + n % 64]
    else [0xF0 + n / 262144, 0x80 + (n / 4096) % 64, 0x80 + (n / 64) % 64, 0x80 + n % 64]
  }

  /** `s.encode("utf-8")` */
  function Utf8(s: string): (r: seq<Byte>)
    ensures |s| <= |r| <= 4 * |s|
    decreases |s|
  {
    if s == [] then [] else Utf8Char(s[0]) + Utf8(s[1..])
  }

  /** Decodes the first scalar value of `b`; gives it with the number of bytes used. */
  function DecodeFirst(b: seq<Byte>): (r: Option<(char, nat)>)
    ensures r.Some? ==> 1 <= r.value.1 <= |b|
  {
    if |b| == 0 then None
    else
      var b0 := b[0] as int;
      if b0 < 0x80 then Some((b0 as char, 1))
      else if 0xC0 <= b0 < 0xE0 && |b| >= 2 && IsContinuation(b[1]) then
        var n := (b0 - 0xC0) * 64 + (b[1] as int - 0x80);
        if n < 0x80 then None else Some((n as char, 2))
      else if 0xE0 <= b0 < 0xF0 && |b| >= 3 && IsContinuation(b[1]) && IsContinuation(b[2]) then
        var n := (b0 - 0xE0) * 4096 + (b[1] as int - 0x80) * 64 + (b[2] as int - 0x80);
        if n < 0x800 || (0xD800 <= n < 0xE000) then None else Some((n as char, 3))
      else if 0xF0 <= b0 < 0xF8 && |b| >= 4 && IsContinuation(b[1]) && IsContinuation(b[2]) && IsContinuation(b[3]) then
        var n := (b0 - 0xF0) * 262144 + (b[1] as int - 0x80) * 4096 + (b[2] as int - 0x80) * 64 + (b[3] as int - 0x80);
        if n < 0x10000 || n >= 0x110000 then None else Some((n as char, 4))
      else None
  }

  /** Strict UTF-8 decoding: overlong forms, surrogates and stray bytes are rejected. */
  function Utf8Decode(b: seq<Byte>): Option<string>
    decreases |b|
  {
    if b == [] then Some("")
    else match DecodeFirst(b)
      case None => None
      case Some((c, k)) =>
        match Utf8Decode(b[k..])
        case None => None
        case Some(rest) => Some([c] + rest)
  }

  lemma DecodeFirstUtf8Char(c: char, rest: seq<Byte>)
    ensures DecodeFirst(Utf8Char(c) + rest) == Some((c, |Utf8Char(c)|))
  {
    var n := c as int;
    var b := Utf8Char(c) + rest;
    if n < 0x80 {
    } else if n < 0x800 {
      assert n == (n / 64) * 64 + n % 64;
    } else if n < 0x10000 {
      assert n / 64 == (n / 4096) * 64 + (n / 64) % 64;
      assert n == (n / 4096) * 4096 + ((n / 64) % 64) * 64 + n % 64;
    } else {
      assert n / 4096 == (n / 262144) * 64 + (n / 4096) % 64;
      assert n / 64 == (n / 4096) * 64 + (n / 64) % 64;
      assert n == (n / 262144) * 262144 + ((n / 4096) % 64) * 4096 + ((n / 64) % 64) * 64 + n % 64;
    }
  }

  /** Decoding undoes `Utf8`: the encoding loses nothing. */
  lemma {:induction false} Utf8RoundTrip(s: string)
    ensures Utf8Decode(Utf8(s)) == Some(s)
    decreases |s|
  {
    if s != [] {
      var b := Utf8(s);
      DecodeFirstUtf8Char(s[0], Utf8(s[1..]));
      assert b[|Utf8Char(s[0])|..] == Utf8(s[1..]);
      Utf8RoundTrip(s[1..]);
      assert [s[0]] + s[1..] == s;
    }
  }

  /** `Utf8` is injective, so distinct strings never encode alike. */
  lemma Utf8Injective(s: string, t: string)
    requires Utf8(s) == Utf8(t)
    ensures s == t
  {
    Utf8RoundTrip(s);
    Utf8RoundTrip(t);
  }

  /** Encoding commutes with concatenation. */
  lemma {:induction false} Utf8Append(s: string, t: string)
    ensures Utf8(s + t) == Utf8(s) + Utf8(t)
    decreases |s|
  {
    if s == [] {
      assert s + t == t;
    } else {
      assert (s + t)[1..] == s[1..] + t;
      Utf8Append(s[1..], t);
    }
  }

  predicate IsAscii(s: string) { forall i :: 0 <= i < |s| ==> s[i] as int < 0x80 }

  /** An ASCII string encodes to its character codes, one byte each. */
  lemma {:induction false} Utf8Ascii(s: string)
    requires IsAscii(s)
    ensures |Utf8(s)| == |s|
    ensures forall i :: 0 <= i < |s| ==> Utf8(s)[i] == s[i] as int
    decreases |s|
  {
    if s != [] {
      Utf8Ascii(s[1..]);
    }
  }

  // ---------------------------------------------------------------------------
  // Lowercase hexadecimal
  // ---------------------------------------------------------------------------

  predicate IsLowerHexDigit(c: char) { '0' <= c <= '9' || 'a' <= c <= 'f' }

  function HexDigit(v: int): (c: char)
    requires 0 <= v < 16
    ensures IsLowerHexDigit(c)
  {
    if v < 10 then ('0' as int + v) as char else ('a' as int + v - 10) as char
  }

  /** The value of a hexadecimal digit (either case), as `bytes.fromhex` reads it. */
  function HexValue(c: char): Option<int>
  {
    if '0' <= c <= '9' then Some(c as int - '0' as int)
    else if 'a' <= c <= 'f' then Some(c as int - 'a' as int + 10)
    else if 'A' <= c <= 'F' then Some(c as int - 'A' as int + 10)
    else None
  }

  /** `bytes.hex()`: two lowercase digits per byte, high nibble first. */
  function Hex(d: seq<Byte>): (s: string)
    ensures |s| == 2 * |d|
    ensures forall i :: 0 <= i < |s| ==> IsLowerHexDigit(s[i])
    decreases |d|
  {
    if d == [] then "" else [HexDigit(d[0] / 16), HexDigit(d[0] % 16)] + Hex(d[1..])
  }

  function HexDecode(s: string): Option<seq<Byte>>
    decreases |s|
  {
    if s == [] then Some([])
    else if |s| == 1 then None
    else match (HexValue(s[0]), HexValue(s[1]), HexDecode(s[2..]))
      case (Some(hi), Some(lo), Some(rest)) =>
        if 0 <= hi < 16 && 0 <= lo < 16 then Some([hi * 16 + lo] + rest) else None
      case _ => None
  }

  lemma {:induction false} HexRoundTrip(d: seq<Byte>)
    ensures HexDecode(Hex(d)) == Some(d)
    decreases |d|
  {
    if d != [] {
      var s := Hex(d);
      assert s[2..] == Hex(d[1..]);
      HexRoundTrip(d[1..]);
      assert d[0] == (d[0] / 16) * 16 + d[0] % 16;
      assert [d[0]] + d[1..] == d;
    }
  }

  lemma HexIsAscii(d: seq<Byte>)
    ensures IsAscii(Hex(d))
  {
  }

  // ---------------------------------------------------------------------------
  // Base64, section 4 of RFC 4648
  // ---------------------------------------------------------------------------

  /** The character for a 6-bit value in the standard alphabet. */
  function Base64Char(v: int): (c: char)
    requires 0 <= v < 64
    ensures c != '='
  {
    if v < 26 then ('A' as int + v) as char
    else if v < 52 then ('a' as int + v - 26) as char
    else if v < 62 then ('0' as int + v - 52) as char
    else if v == 62 then '+'
    else '/'
  }

  /** The 6-bit value of an alphabet character, or -1. */
  function Base64Value(c: char): (v: int)
    ensures -1 <= v < 64
    ensures 0 <= v ==> Base64Char(v) == c
  {
    if 'A' <= c <= 'Z' then c as int - 'A' as int
    else if 'a' <= c <= 'z' then c as int - 'a' as int + 26
    else if '0' <= c <= '9' then c as int - '0' as int + 52
    else if c == '+' then 62
    else if c == '/' then 63
    else -1
  }

  lemma Base64ValueOfChar(v: int)
    requires 0 <= v < 64
    ensures Base64Value(Base64Char(v)) == v
  {
  }

  /** Three bytes as four characters: each character carries six bits, high bits first. */
  function EncodeTriple(b0: Byte, b1: Byte, b2: Byte): string
  {
    var x0, x1, x2 := b0 as int, b1 as int, b2 as int;
    [Base64Char(x0 / 4), Base64Char((x0 % 4) * 16 + x1 / 16), Base64Char((x1 % 16) * 4 + x2 / 64), Base64Char(x2 % 64)]
  }

  /** The final group of the encoding: one or two bytes, the unused bits zero, and `=` padding. */
  function EncodeTail(b: seq<Byte>): string
    requires 1 <= |b| <= 2
  {
    var x0 := b[0] as int;
    if |b| == 1 then
      [Base64Char(x0 / 4), Base64Char((x0 % 4) * 16), '=', '=']
    else
      var x1 := b[1] as int;
      [Base64Char(x0 / 4), Base64Char((x0 % 4) * 16 + x1 / 16), Base64Char((x1 % 16) * 4), '=']
  }

  /** `base64.b64encode(b).decode()` */
  function Base64Encode(b: seq<Byte>): (s: string)
    ensures |s| == 4 * ((|b| + 2) / 3)
    ensures IsAscii(s)
    decreases |b|
  {
    if b == [] then ""
    else if |b| < 3 then EncodeTail(b)
    else EncodeTriple(b[0], b[1], b[2]) + Base64Encode(b[3..])
  }

  /** Decodes one group of four characters; `final` says whether padding may appear. */
  function DecodeQuad(q: string, final: bool): Option<seq<Byte>>
    requires |q| == 4
  {
    var v0, v1, v2, v3 := Base64Value(q[0]), Base64Value(q[1]), Base64Value(q[2]), Base64Value(q[3]);
    if v0 < 0 || v1 < 0 then None
    else if 0 <= v2 && 0 <= v3 then
      Some([v0 * 4 + v1 / 16, (v1 % 16) * 16 + v2 / 4, (v2 % 4) * 64 + v3])
    else if final && 0 <= v2 && q[3] == '=' then
      if v2 % 4 == 0 then Some([v0 * 4 + v1 / 16, (v1 % 16) * 16 + v2 / 4]) else None
    else if final && q[2] == '=' && q[3] == '=' then
      if v1 % 16 == 0 then Some([v0 * 4 + v1 / 16]) else None
    else None
  }

  /** Strict decoding: whole groups only, padding only at the end, no stray bits. */
  function Base64Decode(s: string): Option<seq<Byte>>
    decreases |s|
  {
    if s == [] then Some([])
    else if |s| < 4 then None
    else match (DecodeQuad(s[..4], |s| == 4), Base64Decode(s[4..]))
      case (Some(g), Some(rest)) => Some(g + rest)
      case _ => None
  }

  lemma DecodeEncodeTriple(b0: Byte, b1: Byte, b2: Byte, final: bool)
    ensures DecodeQuad(EncodeTriple(b0, b1, b2), final) == Some([b0, b1, b2])
  {
    var x0, x1, x2 := b0 as int, b1 as int, b2 as int;
    Base64ValueOfChar(x0 / 4);
    Base64ValueOfChar((x0 % 4) * 16 + x1 / 16);
    Base64ValueOfChar((x1 % 16) * 4 + x2 / 64);
    Base64ValueOfChar(x2 % 64);
    assert ((x0 % 4) * 16 + x1 / 16) / 16 == x0 % 4;
    assert ((x0 % 4) * 16 + x1 / 16) % 16 == x1 / 16;
    assert ((x1 % 16) * 4 + x2 / 64) / 4 == x1 % 16;
    assert ((x1 % 16) * 4 + x2 / 64) % 4 == x2 / 64;
  }

  lemma DecodeEncodeTail(b: seq<Byte>)
    requires 1 <= |b| <= 2
    ensures DecodeQuad(EncodeTail(b), true) == Some(b)
  {
    var x0 := b[0] as int;
    Base64ValueOfChar(x0 / 4);
    if |b| == 1 {
      Base64ValueOfChar((x0 % 4) * 16);
      assert ((x0 % 4) * 16) / 16 == x0 % 4;
      assert [b[0]] == b;
    } else {
      var x1 := b[1] as int;
      Base64ValueOfChar((x0 % 4) * 16 + x1 / 16);
      Base64ValueOfChar((x1 % 16) * 4);
      assert ((x0 % 4) * 16 + x1 / 16) / 16 == x0 % 4;
      assert ((x0 % 4) * 16 + x1 / 16) % 16 == x1 / 16;
      assert ((x1 % 16) * 4) / 4 == x1 % 16;
      assert [b[0], b[1]] == b;
    }
  }

  /** Decoding undoes `Base64Encode`. */
  lemma {:induction false} Base64RoundTrip(b: seq<Byte>)
    ensures Base64Decode(Base64Encode(b)) == Some(b)
    decreases |b|
  {
    var s := Base64Encode(b);
    if b == [] {
    } else if |b| < 3 {
      DecodeEncodeTail(b);
      assert s[..4] == s;
      assert Base64Decode(s[4..]) == Some([]);
      assert b + [] == b;
    } else {
      var q := EncodeTriple(b[0], b[1], b[2]);
      assert s[..4] == q;
      assert s[4..] == Base64Encode(b[3..]);
      DecodeEncodeTriple(b[0], b[1], b[2], |s| == 4);
      Base64RoundTrip(b[3..]);
      assert [b[0], b[1], b[2]] + b[3..] == b;
    }
  }

  /** `Base64Encode` is injective. */
  lemma Base64Injective(b: seq<Byte>, c: seq<Byte>)
    requires Base64Encode(b) == Base64Encode(c)
    ensures b == c
  {
    Base64RoundTrip(b);
    Base64RoundTrip(c);
  }
}
