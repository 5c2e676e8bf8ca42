/** Base64 over the standard alphabet of section 4 of RFC 4648, as Python's
    `base64.b64decode(s)` applies it when `validate` is left false: the text
    must be ASCII, characters outside the alphabet are discarded, and a pad
    sequence ends the input. Decoding follows CPython's `binascii.a2b_base64`
    in its non-strict mode, one character at a time. */
module Base64 {
  import opened Wrappers
  import opened Bytes

  /** The 6-bit value one alphabet character stands for. */
  type Sextet = x: int | 0 <= x < 64

  const Pad: char := '='

  /** The alphabet character for a sextet: A-Z, a-z, 0-9, '+', '/'. */
  function CharOf(v: Sextet): (c: char)
    ensures c as int < 128 && c != Pad
  {
    if v < 26 then ('A' as int + v) as char
    else if v < 52 then ('a' as int + (v - 26)) as char
    else if v < 62 then ('0' as int + (v - 52)) as char
    else if v == 62 then '+'
    else '/'
  }

  /** The decoding table: the sextet of an alphabet character, None for
      every other character (the characters the lenient decoder skips). */
  function SextetOf(c: char): (r: Option<Sextet>)
    ensures r.Some? ==> CharOf(r.value) == c
    ensures c == Pad ==> r.None?
  {
    if 'A' <= c <= 'Z' then Some(c as int - 'A' as int)
    else if 'a' <= c <= 'z' then Some(c as int - 'a' as int + 26)
    else if '0' <= c <= '9' then Some(c as int - '0' as int + 52)
    else if c == '+' then Some(62)
    else if c == '/' then Some(63)
    else None
  }

  lemma SextetOfCharOf(v: Sextet)
    ensures SextetOf(CharOf(v)) == Some(v)
  {
  }

  /** The four characters of three octets. */
  function Quad(x: Byte, y: Byte, z: Byte): (s: string)
    ensures |s| == 4 && IsAsciiText(s)
  {
    [CharOf(x / 4), CharOf(x % 4 * 16 + y / 16), CharOf(y % 16 * 4 + z / 64), CharOf(z % 64)]
  }

  /** The final quad of a one-octet tail: two data characters, two pads. */
  function TailOne(x: Byte): (s: string)
    ensures |s| == 4 && IsAsciiText(s)
  {
    [CharOf(x / 4), CharOf(x % 4 * 16), Pad, Pad]
  }

  /** The final quad of a two-octet tail: three data characters, one pad. */
  function TailTwo(x: Byte, y: Byte): (s: string)
    ensures |s| == 4 && IsAsciiText(s)
  {
    [CharOf(x / 4), CharOf(x % 4 * 16 + y / 16), CharOf(y % 16 * 4), Pad]
  }

  /** Standard padded encoding, three octets to four characters. */
  function Encode(b: seq<Byte>): (s: string)
    ensures |s| == (|b| + 2) / 3 * 4
    ensures IsAsciiText(s)
  {
    if |b| == 0 then ""
    else if |b| == 1 then TailOne(b[0])
    else if |b| == 2 then TailTwo(b[0], b[1])
    else
      assert (|b| + 2) / 3 == (|b| - 1) / 3 + 1;
      Quad(b[0], b[1], b[2]) + Encode(b[3..])
  }

  /** The bits still owed to the next octet are fewer than a sextet's worth
      after the first character of a quad, and shrink by two each step. */
  predicate PendingFits(quadPos: nat, leftChar: int)
  {
    && quadPos <= 3
    && 0 <= leftChar
    && leftChar < (if quadPos == 0 then 1 else if quadPos == 1 then 64 else if quadPos == 2 then 16 else 4)
  }

  /** One alphabet character fed to the decoder: the next position in
      the quad, the bits still pending, and the output with the octet the
      character completes, if any. */
  function Feed(quadPos: nat, leftChar: int, out: seq<Byte>, v: Sextet): (r: (nat, int, seq<Byte>))
    requires PendingFits(quadPos, leftChar)
    ensures PendingFits(r.0, r.1)
    ensures r.0 == (quadPos + 1) % 4
    ensures out <= r.2
  {
    if quadPos == 0 then (1, v, out)
    else if quadPos == 1 then (2, v % 16, out + [leftChar * 4 + v / 16])
    else if quadPos == 2 then (3, v % 4, out + [leftChar * 16 + v / 4])
    else (0, 0, out + [leftChar * 64 + v])
  }

  /** The decoder loop from position `quadPos` of a quad, with `leftChar`
      the pending bits, `pads` the pad characters seen since the last data
      character and `out` the octets produced so far. None is the
      `binascii.Error` raised when the input ends inside a quad. */
  function DecodeFrom(quadPos: nat, leftChar: int, pads: nat, out: seq<Byte>, s: string): (r: Option<seq<Byte>>)
    requires PendingFits(quadPos, leftChar)
    ensures r.Some? ==> out <= r.value
    decreases |s|
  {
    if |s| == 0 then
      if quadPos == 0 then Some(out) else None
    else if s[0] == Pad then
      if quadPos >= 2 && quadPos + pads + 1 >= 4 then Some(out)
      else DecodeFrom(quadPos, leftChar, if quadPos >= 2 then pads + 1 else pads, out, s[1..])
    else
      match SextetOf(s[0])
      case None => DecodeFrom(quadPos, leftChar, pads, out, s[1..])
      case Some(v) =>
        var next := Feed(quadPos, leftChar, out, v);
        DecodeFrom(next.0, next.1, 0, next.2, s[1..])
  }

  /** `base64.b64decode(s)` for a text argument: None stands for the
      ValueError of a non-ASCII text and for `binascii.Error`. */
  function Decode(s: string): Option<seq<Byte>>
  {
    if IsAsciiText(s) then DecodeFrom(0, 0, 0, [], s) else None
  }

  /** The characters the lenient decoder looks at: alphabet and pad. */
  predicate Significant(c: char)
  {
    SextetOf(c).Some? || c == Pad
  }

  /** The input with every character the decoder ignores taken out. */
  function Discard(s: string): (r: string)
    ensures |r| <= |s|
    ensures forall i :: 0 <= i < |r| ==> Significant(r[i])
  {
    if |s| == 0 then ""
    else if Significant(s[0]) then [s[0]] + Discard(s[1..])
    else Discard(s[1..])
  }

  /** The decoder takes an alphabet character in one step. */
  lemma DecodeData(quadPos: nat, leftChar: int, pads: nat, out: seq<Byte>, v: Sextet, rest: string,
                   quadPos': nat, leftChar': int, out': seq<Byte>)
    requires PendingFits(quadPos, leftChar)
    requires Feed(quadPos, leftChar, out, v) == (quadPos', leftChar', out')
    ensures PendingFits(quadPos', leftChar')
    ensures DecodeFrom(quadPos, leftChar, pads, out, [CharOf(v)] + rest) == DecodeFrom(quadPos', leftChar', 0, out', rest)
  {
    SextetOfCharOf(v);
    var s := [CharOf(v)] + rest;
    assert s[0] == CharOf(v) && s[1..] == rest;
  }

  /** The four sextets of three octets carry exactly their bits. */
  lemma QuadBits(x: Byte, y: Byte, z: Byte)
    ensures x / 4 * 4 + (x % 4 * 16 + y / 16) / 16 == x
    ensures (x % 4 * 16 + y / 16) % 16 * 16 + (y % 16 * 4 + z / 64) / 4 == y
    ensures (y % 16 * 4 + z / 64) % 4 * 64 + z % 64 == z
  {
  }

  /** The decoder states while it reads the quad of three octets. */
  lemma FeedQuad(out: seq<Byte>, x: Byte, y: Byte, z: Byte)
    ensures var v0, v1, v2, v3 := x / 4, x % 4 * 16 + y / 16, y % 16 * 4 + z / 64, z % 64;
            && Feed(0, 0, out, v0) == (1, v0, out)
            && Feed(1, v0, out, v1) == (2, v1 % 16, out + [x])
            && Feed(2, v1 % 16, out + [x], v2) == (3, v2 % 4, out + [x, y])
            && Feed(3, v2 % 4, out + [x, y], v3) == (0, 0, out + [x, y, z])
  {
    QuadBits(x, y, z);
    assert out + [x] + [y] == out + [x, y] && out + [x, y] + [z] == out + [x, y, z];
  }

  /** One full quad of an encoding yields its three octets. */
  lemma DecodeQuad(out: seq<Byte>, pads: nat, x: Byte, y: Byte, z: Byte, rest: string)
    ensures DecodeFrom(0, 0, pads, out, Quad(x, y, z) + rest) == DecodeFrom(0, 0, 0, out + [x, y, z], rest)
  {
    var v0, v1, v2, v3 := x / 4, x % 4 * 16 + y / 16, y % 16 * 4 + z / 64, z % 64;
    var r3 := [CharOf(v3)] + rest;
    var r2 := [CharOf(v2)] + r3;
    var r1 := [CharOf(v1)] + r2;
    assert Quad(x, y, z) + rest == [CharOf(v0)] + r1;
    FeedQuad(out, x, y, z);
    DecodeData(0, 0, pads, out, v0, r1, 1, v0, out);
    DecodeData(1, v0, 0, out, v1, r2, 2, v1 % 16, out + [x]);
    DecodeData(2, v1 % 16, 0, out + [x], v2, r3, 3, v2 % 4, out + [x, y]);
    DecodeData(3, v2 % 4, 0, out + [x, y], v3, rest, 0, 0, out + [x, y, z]);
  }

  /** The final quad of a one-octet tail, two data characters and two pads. */
  lemma DecodeTailOne(out: seq<Byte>, pads: nat, x: Byte)
    ensures DecodeFrom(0, 0, pads, out, TailOne(x)) == Some(out + [x])
  {
    var v0, v1 := x / 4, x % 4 * 16;
    SextetOfCharOf(v0);
    SextetOfCharOf(v1);
    var s := [CharOf(v0), CharOf(v1), Pad, Pad];
    assert s[1..] == [CharOf(v1), Pad, Pad] && s[1..][1..] == [Pad, Pad] && [Pad, Pad][1..] == [Pad];
    assert v0 * 4 + v1 / 16 == x;
    calc {
      DecodeFrom(0, 0, pads, out, s);
      DecodeFrom(1, v0, 0, out, s[1..]);
      DecodeFrom(2, v1 % 16, 0, out + [x], [Pad, Pad]);
      DecodeFrom(2, v1 % 16, 1, out + [x], [Pad]);
      Some(out + [x]);
    }
  }

  /** The final quad of a two-octet tail, three data characters and a pad. */
  lemma DecodeTailTwo(out: seq<Byte>, pads: nat, x: Byte, y: Byte)
    ensures DecodeFrom(0, 0, pads, out, TailTwo(x, y)) == Some(out + [x, y])
  {
    var v0, v1, v2 := x / 4, x % 4 * 16 + y / 16, y % 16 * 4;
    SextetOfCharOf(v0);
    SextetOfCharOf(v1);
    SextetOfCharOf(v2);
    var s := [CharOf(v0), CharOf(v1), CharOf(v2), Pad];
    assert s[1..] == [CharOf(v1), CharOf(v2), Pad] && s[1..][1..] == [CharOf(v2), Pad] && s[1..][1..][1..] == [Pad];
    assert v0 * 4 + v1 / 16 == x;
    assert v1 % 16 * 16 + v2 / 4 == y;
    calc {
      DecodeFrom(0, 0, pads, out, s);
      DecodeFrom(1, v0, 0, out, s[1..]);
      DecodeFrom(2, v1 % 16, 0, out + [x], s[1..][1..]);
      DecodeFrom(3, v2 % 4, 0, out + [x] + [y], [Pad]);
      Some(out + [x] + [y]);
      { assert out + [x] + [y] == out + [x, y]; }
      Some(out + [x, y]);
    }
  }

  /** Encoding then decoding gives back the octets, appended to `out`. */
  lemma {:induction false} DecodeFromEncode(out: seq<Byte>, pads: nat, b: seq<Byte>)
    ensures DecodeFrom(0, 0, pads, out, Encode(b)) == Some(out + b)
    decreases |b|
  {
    if |b| == 0 {
      assert out + b == out;
    } else if |b| == 1 {
      DecodeTailOne(out, pads, b[0]);
      assert b == [b[0]];
    } else if |b| == 2 {
      DecodeTailTwo(out, pads, b[0], b[1]);
      assert b == [b[0], b[1]];
    } else {
      var head := [b[0], b[1], b[2]];
      var rest := Encode(b[3..]);
      assert Encode(b) == Quad(b[0], b[1], b[2]) + rest;
      DecodeQuad(out, pads, b[0], b[1], b[2], rest);
      DecodeFromEncode(out + head, 0, b[3..]);
      assert head + b[3..] == b;
      AppendAssoc(out, head, b[3..]);
    }
  }

  /** Round trip: `b64decode(b64encode(b)) == b` for every octet string. */
  lemma DecodeEncode(b: seq<Byte>)
    ensures Decode(Encode(b)) == Some(b)
  {
    DecodeFromEncode([], 0, b);
    assert [] + b == b;
  }

  /** Characters outside the alphabet never change the decoder's answer:
      decoding is the same as decoding the input with them discarded. */
  lemma {:induction false} DecodeFromDiscard(quadPos: nat, leftChar: int, pads: nat, out: seq<Byte>, s: string)
    requires PendingFits(quadPos, leftChar)
    ensures DecodeFrom(quadPos, leftChar, pads, out, s) == DecodeFrom(quadPos, leftChar, pads, out, Discard(s))
    decreases |s|
  {
    if |s| > 0 {
      var d := Discard(s[1..]);
      if Significant(s[0]) {
        assert Discard(s) == [s[0]] + d;
        assert ([s[0]] + d)[0] == s[0] && ([s[0]] + d)[1..] == d;
        if s[0] == Pad {
          var pads' := if quadPos >= 2 then pads + 1 else pads;
          DecodeFromDiscard(quadPos, leftChar, pads', out, s[1..]);
        } else {
          var next := Feed(quadPos, leftChar, out, SextetOf(s[0]).value);
          DecodeFromDiscard(next.0, next.1, 0, next.2, s[1..]);
        }
      } else {
        DecodeFromDiscard(quadPos, leftChar, pads, out, s[1..]);
      }
    }
  }

  /** `b64decode` without validation ignores every non-alphabet character
      of an ASCII text, wherever it stands. */
  lemma DecodeIgnoresNoise(s: string)
    requires IsAsciiText(s)
    ensures Decode(s) == DecodeFrom(0, 0, 0, [], Discard(s))
  {
    DecodeFromDiscard(0, 0, 0, [], s);
  }

  /** The number of alphabet characters in a text. */
  function DataCount(s: string): nat
  {
    if |s| == 0 then 0
    else (if SextetOf(s[0]).Some? then 1 else 0) + DataCount(s[1..])
  }

  /** Without a pad character, decoding succeeds exactly when the alphabet
      characters fill whole quads; otherwise binascii reports incorrect
      padding or a dangling character. */
  lemma {:induction false} UnpaddedDecodeFrom(quadPos: nat, leftChar: int, pads: nat, out: seq<Byte>, s: string)
    requires PendingFits(quadPos, leftChar)
    requires Pad !in s
    ensures DecodeFrom(quadPos, leftChar, pads, out, s).Some? <==> (quadPos + DataCount(s)) % 4 == 0
    decreases |s|
  {
    if |s| > 0 {
      assert s[0] != Pad && Pad !in s[1..];
      match SextetOf(s[0])
      case None =>
        UnpaddedDecodeFrom(quadPos, leftChar, pads, out, s[1..]);
      case Some(v) =>
        var next := Feed(quadPos, leftChar, out, v);
        UnpaddedDecodeFrom(next.0, next.1, 0, next.2, s[1..]);
    }
  }

  /** An ASCII text without padding decodes iff its alphabet characters
      come in whole quads. */
  lemma UnpaddedDecode(s: string)
    requires IsAsciiText(s) && Pad !in s
    ensures Decode(s).Some? <==> DataCount(s) % 4 == 0
  {
    UnpaddedDecodeFrom(0, 0, 0, [], s);
  }
}
