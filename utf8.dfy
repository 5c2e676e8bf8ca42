/** UTF-8 as Python's strict `bytes.decode('utf-8')` reads it: only the
    well-formed sequences of the Unicode standard (table 3-7) decode; an
    overlong form, an encoded surrogate, a code point past U+10FFFF, a
    stray continuation octet or a truncated sequence is an error. */
module Utf8 {
  import opened Wrappers
  import opened Bytes

  predicate InRange(b: Byte, lo: int, hi: int)
  {
    lo <= b <= hi
  }

  predicate IsContinuation(b: Byte)
  {
    InRange(b, 0x80, 0xBF)
  }

  /** The character at the front of `b` and the number of octets it takes,
      or None when `b` does not start with a well-formed sequence. */
  function DecodeFirst(b: seq<Byte>): (r: Option<(char, nat)>)
    requires |b| > 0
    ensures r.Some? ==> 1 <= r.value.1 <= |b| && r.value.1 <= 4
  {
    var b0: int := b[0];
    if b0 < 0x80 then
      Some((b0 as char, 1))
    else if InRange(b0, 0xC2, 0xDF) then
      if |b| >= 2 && IsContinuation(b[1]) then
        Some((((b0 - 0xC0) * 64 + (b[1] as int - 0x80)) as char, 2))
      else None
    else if InRange(b0, 0xE0, 0xEF) then
      var lo := if b0 == 0xE0 then 0xA0 else 0x80;
      var hi := if b0 == 0xED then 0x9F else 0xBF;
      if |b| >= 3 && InRange(b[1], lo, hi) && IsContinuation(b[2]) then
        Some((((b0 - 0xE0) * 4096 + (b[1] as int - 0x80) * 64 + (b[2] as int - 0x80)) as char, 3))
      else None
    else if InRange(b0, 0xF0, 0xF4) then
      var lo := if b0 == 0xF0 then 0x90 else 0x80;
      var hi := if b0 == 0xF4 then 0x8F else 0xBF;
      if |b| >= 4 && InRange(b[1], lo, hi) && IsContinuation(b[2]) && IsContinuation(b[3]) then
        Some((((b0 - 0xF0) * 262144 + (b[1] as int - 0x80) * 4096 + (b[2] as int - 0x80) * 64 + (b[3] as int - 0x80)) as char, 4))
      else None
    else None
  }

  /** `bytes.decode('utf-8')`; None stands for UnicodeDecodeError. */
  function Decode(b: seq<Byte>): Option<string>
    decreases |b|
  {
    if |b| == 0 then Some("")
    else
      match DecodeFirst(b)
      case None => None
      case Some((c, n)) =>
        match Decode(b[n..])
        case None => None
        case Some(rest) => Some([c] + rest)
  }

  /** The shortest UTF-8 form of one character. */
  function EncodeChar(c: char): (r: seq<Byte>)
    ensures 1 <= |r| <= 4
  {
    var cp := c as int;
    var q1 := cp / 64;
    var q2 := q1 / 64;
    if cp < 0x80 then [cp]
    else if cp < 0x800 then [0xC0 + q1, 0x80 + cp % 64]
    else if cp < 0x10000 then [0xE0 + q2, 0x80 + q1 % 64, 0x80 + cp % 64]
    else [0xF0 + q2 / 64, 0x80 + q2 % 64, 0x80 + q1 % 64, 0x80 + cp % 64]
  }

  /** `str.encode('utf-8')`. */
  function Encode(s: string): seq<Byte>
  {
    if |s| == 0 then [] else EncodeChar(s[0]) + Encode(s[1..])
  }

  /** The decoder reads back the character the encoder wrote, whatever follows. */
  lemma DecodeFirstEncodeChar(c: char, rest: seq<Byte>)
    ensures DecodeFirst(EncodeChar(c) + rest) == Some((c, |EncodeChar(c)|))
  {
    var cp := c as int;
    if cp < 0x80 {
    } else if cp < 0x800 {
      DecodeFirstTwo(c, rest);
    } else if cp < 0x10000 {
      DecodeFirstThree(c, rest);
    } else {
      DecodeFirstFour(c, rest);
    }
  }

  lemma DecodeFirstTwo(c: char, rest: seq<Byte>)
    requires 0x80 <= c as int < 0x800
    ensures DecodeFirst(EncodeChar(c) + rest) == Some((c, 2))
  {
    var cp: int := c as int;
    var q1, r0 := cp / 64, cp % 64;
    var b := EncodeChar(c) + rest;
    assert b[0] as int == 0xC0 + q1 && b[1] as int == 0x80 + r0;
  }

  lemma DecodeFirstThree(c: char, rest: seq<Byte>)
    requires 0x800 <= c as int < 0x10000
    ensures DecodeFirst(EncodeChar(c) + rest) == Some((c, 3))
  {
    var cp: int := c as int;
    var q1, r0 := cp / 64, cp % 64;
    var q2, r1 := q1 / 64, q1 % 64;
    assert cp == q2 * 4096 + r1 * 64 + r0;
    var b := EncodeChar(c) + rest;
    assert b[0] as int == 0xE0 + q2 && b[1] as int == 0x80 + r1 && b[2] as int == 0x80 + r0;
  }

  lemma DecodeFirstFour(c: char, rest: seq<Byte>)
    requires 0x10000 <= c as int
    ensures DecodeFirst(EncodeChar(c) + rest) == Some((c, 4))
  {
    var cp: int := c as int;
    var q1, r0 := cp / 64, cp % 64;
    var q2, r1 := q1 / 64, q1 % 64;
    var q3, r2 := q2 / 64, q2 % 64;
    assert cp == q3 * 262144 + r2 * 4096 + r1 * 64 + r0;
    var b := EncodeChar(c) + rest;
    assert b[0] as int == 0xF0 + q3 && b[1] as int == 0x80 + r2;
    assert b[2] as int == 0x80 + r1 && b[3] as int == 0x80 + r0;
  }

  /** Whatever the decoder accepts at the front is exactly the shortest
      form of the character it returns: no overlong form gets through. */
  lemma EncodeCharDecodeFirst(b: seq<Byte>)
    requires |b| > 0 && DecodeFirst(b).Some?
    ensures EncodeChar(DecodeFirst(b).value.0) == b[..DecodeFirst(b).value.1]
  {
    var n := DecodeFirst(b).value.1;
    if n == 2 {
      EncodeTwo(b);
    } else if n == 3 {
      EncodeThree(b);
    } else if n == 4 {
      EncodeFour(b);
    }
  }

  lemma EncodeTwo(b: seq<Byte>)
    requires |b| > 0 && DecodeFirst(b).Some? && DecodeFirst(b).value.1 == 2
    ensures EncodeChar(DecodeFirst(b).value.0) == b[..2]
  {
    var cp := DecodeFirst(b).value.0 as int;
    var x0: int, x1: int := b[0], b[1];
    assert cp == (x0 - 0xC0) * 64 + (x1 - 0x80);
    assert cp / 64 == x0 - 0xC0 && cp % 64 == x1 - 0x80;
  }

  lemma EncodeThree(b: seq<Byte>)
    requires |b| > 0 && DecodeFirst(b).Some? && DecodeFirst(b).value.1 == 3
    ensures EncodeChar(DecodeFirst(b).value.0) == b[..3]
  {
    var cp := DecodeFirst(b).value.0 as int;
    var x0: int, x1: int, x2: int := b[0], b[1], b[2];
    var q1 := (x0 - 0xE0) * 64 + (x1 - 0x80);
    assert cp == q1 * 64 + (x2 - 0x80);
    assert cp / 64 == q1 && cp % 64 == x2 - 0x80;
    assert q1 / 64 == x0 - 0xE0 && q1 % 64 == x1 - 0x80;
  }

  lemma EncodeFour(b: seq<Byte>)
    requires |b| > 0 && DecodeFirst(b).Some? && DecodeFirst(b).value.1 == 4
    ensures EncodeChar(DecodeFirst(b).value.0) == b[..4]
  {
    var cp := DecodeFirst(b).value.0 as int;
    var x0: int, x1: int, x2: int, x3: int := b[0], b[1], b[2], b[3];
    var q2 := (x0 - 0xF0) * 64 + (x1 - 0x80);
    var q1 := q2 * 64 + (x2 - 0x80);
    assert cp == q1 * 64 + (x3 - 0x80);
    assert cp / 64 == q1 && cp % 64 == x3 - 0x80;
    assert q1 / 64 == q2 && q1 % 64 == x2 - 0x80;
    assert q2 / 64 == x0 - 0xF0 && q2 % 64 == x1 - 0x80;
  }

  /** Round trip one way: every string survives encoding and decoding. */
  lemma {:induction false} DecodeEncode(s: string)
    ensures Decode(Encode(s)) == Some(s)
  {
    if |s| > 0 {
      var e := EncodeChar(s[0]);
      DecodeFirstEncodeChar(s[0], Encode(s[1..]));
      assert (e + Encode(s[1..]))[|e|..] == Encode(s[1..]);
      DecodeEncode(s[1..]);
      assert [s[0]] + s[1..] == s;
    }
  }

  /** One step of the decoder: a decodable text starts with the shortest
      form of its first character, `n` octets long, and the rest decodes. */
  lemma DecodeStep(b: seq<Byte>) returns (n: nat)
    requires |b| > 0 && Decode(b).Some?
    ensures 1 <= n <= |b| && Decode(b[n..]).Some?
    ensures Encode(Decode(b).value) == b[..n] + Encode(Decode(b[n..]).value)
    ensures b[..n] + b[n..] == b
  {
    var c;
    c, n := DecodeFirst(b).value.0, DecodeFirst(b).value.1;
    var rest := Decode(b[n..]).value;
    assert Decode(b).value == [c] + rest;
    EncodeCharDecodeFirst(b);
    EncodeCons(Decode(b).value, c, rest, b[..n]);
  }

  /** The encoding of a text is the form of its first character followed
      by the encoding of the rest. */
  lemma EncodeCons(s: string, c: char, rest: string, head: seq<Byte>)
    requires s == [c] + rest && EncodeChar(c) == head
    ensures Encode(s) == head + Encode(rest)
  {
    assert s[1..] == rest;
  }

  /** Round trip the other way: whatever decodes re-encodes to the very
      same octets, so the decoder accepts only shortest forms. */
  lemma {:induction false} EncodeDecode(b: seq<Byte>)
    requires Decode(b).Some?
    ensures Encode(Decode(b).value) == b
    decreases |b|
  {
    if |b| > 0 {
      var n := DecodeStep(b);
      EncodeDecode(b[n..]);
    }
  }

  /** ASCII text encodes octet for octet. */
  lemma {:induction false} EncodeAscii(s: string)
    requires IsAsciiText(s)
    ensures |Encode(s)| == |s|
    ensures forall i :: 0 <= i < |s| ==> Encode(s)[i] == s[i] as int
  {
    if |s| > 0 {
      EncodeAscii(s[1..]);
    }
  }
}
