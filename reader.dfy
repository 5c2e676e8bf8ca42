/** A reader for the staged file, the way a loader of newline-delimited
    JSON reads it back: each line is one JSON object with the fields
    `id`, `name`, `description` and `price`. It is the partner of the
    writer: every line the writer produces reads back as the record it
    was written from. */
module Reader {
  import opened Wrappers
  import opened Decimals
  import opened Json
  import opened Cdc
  import opened Staging

  /** The text after `lit`, when the text starts with `lit`. */
  function Expect(lit: string, s: string): (r: Option<string>)
    ensures r.Some? ==> s == lit + r.value
  {
    if lit <= s then Some(s[|lit|..]) else None
  }

  lemma ExpectOf(lit: string, rest: string)
    ensures Expect(lit, lit + rest) == Some(rest)
  {
    assert lit <= lit + rest;
    assert (lit + rest)[|lit|..] == rest;
  }

  /** A hexadecimal digit of either case. */
  function HexValue(c: char): (r: Option<int>)
    ensures r.Some? ==> 0 <= r.value < 16
  {
    if '0' <= c <= '9' then Some(c as int - '0' as int)
    else if 'a' <= c <= 'f' then Some(c as int - 'a' as int + 10)
    else if 'A' <= c <= 'F' then Some(c as int - 'A' as int + 10)
    else None
  }

  /** Four hexadecimal digits, most significant first. */
  function ReadHex4(s: string): (r: Option<(int, string)>)
    ensures r.Some? ==> |s| >= 4 && 0 <= r.value.0 < 0x10000 && r.value.1 == s[4..]
  {
    if |s| < 4 then None
    else
      match (HexValue(s[0]), HexValue(s[1]), HexValue(s[2]), HexValue(s[3]))
      case (Some(a), Some(b), Some(c), Some(d)) => Some((((a * 16 + b) * 16 + c) * 16 + d, s[4..]))
      case _ => None
  }

  lemma ReadHex4Of(v: int, rest: string)
    requires 0 <= v < 0x10000
    ensures ReadHex4(UnicodeEscape(v)[2..] + rest) == Some((v, rest))
  {
    var q1 := v / 16;
    var q2 := q1 / 16;
    var s := UnicodeEscape(v)[2..] + rest;
    assert s[..4] == [HexDigit(q2 / 16), HexDigit(q2 % 16), HexDigit(q1 % 16), HexDigit(v % 16)];
    assert s[4..] == rest;
    HexDigitValue(q2 / 16);
    HexDigitValue(q2 % 16);
    HexDigitValue(q1 % 16);
    HexDigitValue(v % 16);
    HexPlaces(v);
  }

  /** Each digit the writer uses reads back as its value. */
  lemma HexDigitValue(d: int)
    requires 0 <= d < 16
    ensures HexValue(HexDigit(d)) == Some(d)
  {
  }

  /** A number below 0x10000 is its four base-16 digits. */
  lemma HexPlaces(v: int)
    requires 0 <= v < 0x10000
    ensures ((v / 16 / 16 / 16 * 16 + v / 16 / 16 % 16) * 16 + v / 16 % 16) * 16 + v % 16 == v
  {
  }

  /** The four hexadecimal digits after `\u`: a character outside the
      surrogate range stands for itself, a high surrogate must be followed
      by a `\u` escape of a low one, and a lone low surrogate is an error. */
  function ReadUnicode(s: string): (r: Option<(char, string)>)
    ensures r.Some? ==> |r.value.1| < |s|
  {
    match ReadHex4(s)
    case None => None
    case Some((v, more)) =>
      if v < 0xD800 || 0xE000 <= v then Some((v as char, more))
      else if 0xDC00 <= v then None
      else ReadLowSurrogate(v, more)
  }

  /** The `\uXXXX` escape of the low surrogate that completes the high
      surrogate `hi`, and the character the pair encodes. */
  function ReadLowSurrogate(hi: int, s: string): (r: Option<(char, string)>)
    requires 0xD800 <= hi < 0xDC00
    ensures r.Some? ==> |r.value.1| < |s|
  {
    match Expect("\\u", s)
    case None => None
    case Some(more) =>
      match ReadHex4(more)
      case None => None
      case Some((lo, tail)) =>
        if 0xDC00 <= lo < 0xE000 then Some(((0x10000 + (hi - 0xD800) * 1024 + (lo - 0xDC00)) as char, tail))
        else None
  }

  /** One character of a string literal's body, escape sequences
      included, and the text after it. A control character, an unknown
      escape and a surrogate that does not come in a pair are errors. */
  function ReadChar(s: string): (r: Option<(char, string)>)
    requires |s| > 0
    ensures r.Some? ==> |r.value.1| < |s|
  {
    if s[0] == '\\' then
      if |s| < 2 then None
      else
        var e, rest := s[1], s[2..];
        if e == '"' then Some(('"', rest))
        else if e == '\\' then Some(('\\', rest))
        else if e == '/' then Some(('/', rest))
        else if e == 'n' then Some((0x0A as char, rest))
        else if e == 'r' then Some((0x0D as char, rest))
        else if e == 't' then Some((0x09 as char, rest))
        else if e == 'b' then Some((0x08 as char, rest))
        else if e == 'f' then Some((0x0C as char, rest))
        else if e == 'u' then ReadUnicode(rest)
        else None
    else if s[0] < ' ' then None
    else Some((s[0], s[1..]))
  }

  /** A string literal's body up to its closing quote, and the text after
      the quote. */
  function ReadBody(s: string): (r: Option<(string, string)>)
    ensures r.Some? ==> |r.value.1| < |s|
    decreases |s|
  {
    if |s| == 0 then None
    else if s[0] == '"' then Some(("", s[1..]))
    else
      match ReadChar(s)
      case None => None
      case Some((c, more)) =>
        match ReadBody(more)
        case None => None
        case Some((body, rest)) => Some(([c] + body, rest))
  }

  /** A string literal: its text and the text after it. */
  function ReadString(s: string): (r: Option<(string, string)>)
  {
    match Expect("\"", s)
    case None => None
    case Some(more) => ReadBody(more)
  }

  /** Each escape the writer produces reads back as its one character. */
  lemma ReadEscapeChar(c: char, more: string)
    ensures EscapeChar(c)[0] != '"'
    ensures ReadChar(EscapeChar(c) + more) == Some((c, more))
  {
    var cp := c as int;
    if c == '"' || c == '\\' || cp == 0x0A || cp == 0x0D || cp == 0x09 || cp == 0x08 || cp == 0x0C {
      ReadShortEscape(c, more);
    } else if ' ' <= c <= '~' {
      ReadPlainChar(c, more);
    } else if cp < 0x10000 {
      ReadBmpEscape(c, more);
    } else {
      ReadPairEscape(c, more);
    }
  }

  lemma ReadShortEscape(c: char, more: string)
    requires c == '"' || c == '\\' || c as int in {0x0A, 0x0D, 0x09, 0x08, 0x0C}
    ensures EscapeChar(c)[0] != '"'
    ensures ReadChar(EscapeChar(c) + more) == Some((c, more))
  {
    var s := EscapeChar(c) + more;
    assert |EscapeChar(c)| == 2 && EscapeChar(c)[0] == '\\';
    assert s[0] == '\\' && s[1] == EscapeChar(c)[1];
    assert s[2..] == more;
  }

  lemma ReadPlainChar(c: char, more: string)
    requires ' ' <= c <= '~' && c != '"' && c != '\\'
    ensures EscapeChar(c)[0] != '"'
    ensures ReadChar(EscapeChar(c) + more) == Some((c, more))
  {
    assert EscapeChar(c) == [c];
    assert ([c] + more)[1..] == more;
  }

  lemma ReadBmpEscape(c: char, more: string)
    requires !(' ' <= c <= '~') && c as int < 0x10000
    requires c as int !in {0x0A, 0x0D, 0x09, 0x08, 0x0C}
    ensures EscapeChar(c)[0] != '"'
    ensures ReadChar(EscapeChar(c) + more) == Some((c, more))
  {
    var u := UnicodeEscape(c as int);
    assert EscapeChar(c) == u;
    ReadUnicodeEscape(u, more);
    ReadHex4Of(c as int, more);
  }

  /** A `\u` escape is read by the escape reader. */
  lemma ReadUnicodeEscape(u: string, more: string)
    requires |u| >= 2 && u[0] == '\\' && u[1] == 'u'
    ensures ReadChar(u + more) == ReadUnicode(u[2..] + more)
  {
    var s := u + more;
    assert s[0] == '\\' && s[1] == 'u' && s[2..] == u[2..] + more;
  }

  lemma ReadPairEscape(c: char, more: string)
    requires 0x10000 <= c as int
    ensures EscapeChar(c)[0] != '"'
    ensures ReadChar(EscapeChar(c) + more) == Some((c, more))
  {
    var v := c as int - 0x10000;
    var hi, lo := 0xD800 + v / 1024, 0xDC00 + v % 1024;
    EscapePair(c);
    AppendAssoc(UnicodeEscape(hi), UnicodeEscape(lo), more);
    ReadCharPair(hi, lo, more);
    PairValue(v);
  }

  /** Past U+FFFF the writer emits the high and then the low surrogate escape. */
  lemma EscapePair(c: char)
    requires 0x10000 <= c as int
    ensures var v := c as int - 0x10000;
            EscapeChar(c) == UnicodeEscape(0xD800 + v / 1024) + UnicodeEscape(0xDC00 + v % 1024)
  {
  }

  /** The surrogates of a code point put back together give the code point. */
  lemma PairValue(v: int)
    requires 0 <= v
    ensures 0x10000 + ((0xD800 + v / 1024) - 0xD800) * 1024 + ((0xDC00 + v % 1024) - 0xDC00) == 0x10000 + v
  {
  }

  /** A surrogate pair of `\uXXXX` escapes reads as the one character
      they encode. */
  lemma ReadCharPair(hi: int, lo: int, more: string)
    requires 0xD800 <= hi < 0xDC00 && 0xDC00 <= lo < 0xE000
    ensures ReadChar(UnicodeEscape(hi) + (UnicodeEscape(lo) + more))
            == Some(((0x10000 + (hi - 0xD800) * 1024 + (lo - 0xDC00)) as char, more))
  {
    var tail := UnicodeEscape(lo) + more;
    ReadUnicodeEscape(UnicodeEscape(hi), tail);
    ReadHex4Of(hi, tail);
    ReadLowSurrogateOf(hi, lo, more);
  }

  lemma ReadLowSurrogateOf(hi: int, lo: int, more: string)
    requires 0xD800 <= hi < 0xDC00 && 0xDC00 <= lo < 0xE000
    ensures ReadLowSurrogate(hi, UnicodeEscape(lo) + more)
            == Some(((0x10000 + (hi - 0xD800) * 1024 + (lo - 0xDC00)) as char, more))
  {
    var ul := UnicodeEscape(lo);
    assert ul + more == "\\u" + (ul[2..] + more);
    ExpectOf("\\u", ul[2..] + more);
    ReadHex4Of(lo, more);
  }

  /** A quoted body reads back as the text it was written from, whatever
      follows the closing quote. */
  lemma {:induction false} ReadEscapeBody(t: string, rest: string)
    ensures ReadBody(EscapeBody(t) + "\"" + rest) == Some((t, rest))
    decreases |t|
  {
    var s := EscapeBody(t) + "\"" + rest;
    if |t| == 0 {
      assert s == "\"" + rest;
      assert s[1..] == rest;
    } else {
      var e := EscapeChar(t[0]);
      var more := EscapeBody(t[1..]) + "\"" + rest;
      assert s == e + more;
      ReadEscapeChar(t[0], more);
      ReadEscapeBody(t[1..], rest);
      assert [t[0]] + t[1..] == t;
    }
  }

  /** `json.dumps` of a string reads back as that string. */
  lemma ReadQuote(t: string, rest: string)
    ensures ReadString(Quote(t) + rest) == Some((t, rest))
  {
    var e := EscapeBody(t);
    var body := e + "\"" + rest;
    assert Quote(t) == "\"" + e + "\"";
    assert Quote(t) + rest == "\"" + body;
    ExpectOf("\"", body);
    ReadEscapeBody(t, rest);
  }

  /** A run of digits, at least one, read in base ten. */
  function ReadNat(s: string): (r: Option<(nat, string)>)
    ensures r.Some? ==> |r.value.1| < |s|
  {
    var split := SplitDigits(s);
    if split.0 == "" then None else Some((DigitsValue(split.0), split.1))
  }

  /** An integer: an optional minus and at least one digit. */
  function ReadInt(s: string): (r: Option<(int, string)>)
    ensures r.Some? ==> |r.value.1| < |s|
  {
    if |s| > 0 && s[0] == '-' then
      match ReadNat(s[1..])
      case None => None
      case Some((m, rest)) => Some((-(m as int), rest))
    else
      match ReadNat(s)
      case None => None
      case Some((m, rest)) => Some((m as int, rest))
  }

  /** What may follow a number on a line: a separator, never a digit. */
  predicate Delimited(rest: string)
  {
    rest == "" || !IsDigit(rest[0])
  }

  lemma ReadNatDigits(m: nat, rest: string)
    requires Delimited(rest)
    ensures ReadNat(NatDigits(m) + rest) == Some((m, rest))
  {
    SplitDigitsOf(NatDigits(m), rest);
  }

  lemma ReadIntText(i: int, rest: string)
    requires Delimited(rest)
    ensures ReadInt(IntText(i) + rest) == Some((i, rest))
  {
    var m: nat := if i < 0 then -i else i;
    if i < 0 {
      ReadNegative(m, rest);
      AppendAssoc("-", NatDigits(m), rest);
    } else {
      ReadNonNegative(m, rest);
    }
  }

  lemma ReadNegative(m: nat, rest: string)
    requires Delimited(rest)
    ensures ReadInt("-" + (NatDigits(m) + rest)) == Some((-(m as int), rest))
  {
    var t := NatDigits(m) + rest;
    ReadNatDigits(m, rest);
    assert ("-" + t)[1..] == t;
  }

  lemma ReadNonNegative(m: nat, rest: string)
    requires Delimited(rest)
    ensures ReadInt(NatDigits(m) + rest) == Some((m as int, rest))
  {
    var digits := NatDigits(m);
    ReadNatDigits(m, rest);
    assert IsDigit(digits[0]);
    assert (digits + rest)[0] == digits[0];
  }

  /** A field value: null, a truth value, a string or an integer. */
  function ReadValue(s: string): (r: Option<(Value, string)>)
  {
    if "null" <= s then Some((Null, s[4..]))
    else if "true" <= s then Some((Bool(true), s[4..]))
    else if "false" <= s then Some((Bool(false), s[5..]))
    else if |s| > 0 && s[0] == '"' then
      match ReadString(s)
      case None => None
      case Some((t, rest)) => Some((Str(t), rest))
    else
      match ReadInt(s)
      case None => None
      case Some((i, rest)) => Some((Int(i), rest))
  }

  /** Every value the writer dumps reads back as itself. */
  lemma ReadDumps(v: Value, rest: string)
    requires Delimited(rest)
    ensures ReadValue(Dumps(v) + rest) == Some((v, rest))
  {
    match v
    case Null => ReadLiteralValue("null", Null, rest);
    case Bool(b) =>
      if b {
        ReadLiteralValue("true", v, rest);
      } else {
        ReadLiteralValue("false", v, rest);
      }
    case Str(t) => ReadStrValue(t, rest);
    case Int(i) => ReadIntValue(i, rest);
  }

  lemma ReadLiteralValue(lit: string, v: Value, rest: string)
    requires (lit, v) in {("null", Null), ("true", Bool(true)), ("false", Bool(false))}
    ensures ReadValue(lit + rest) == Some((v, rest))
  {
    var s := lit + rest;
    assert s[..|lit|] == lit && s[|lit|..] == rest;
    assert s[0] == lit[0];
  }

  lemma ReadStrValue(t: string, rest: string)
    ensures ReadValue(Quote(t) + rest) == Some((Str(t), rest))
  {
    var s := Quote(t) + rest;
    ReadQuote(t, rest);
    assert s[0] == '"';
  }

  lemma ReadIntValue(i: int, rest: string)
    requires Delimited(rest)
    ensures ReadValue(IntText(i) + rest) == Some((Int(i), rest))
  {
    var s := IntText(i) + rest;
    ReadIntText(i, rest);
    NumberStart(i, rest);
    NotPrefix("null", s);
    NotPrefix("true", s);
    NotPrefix("false", s);
  }

  /** A number's text starts with a minus or a digit. */
  lemma NumberStart(i: int, rest: string)
    ensures |IntText(i) + rest| > 0
    ensures (IntText(i) + rest)[0] == '-' || IsDigit((IntText(i) + rest)[0])
  {
    var m: nat := if i < 0 then -i else i;
    assert IsDigit(NatDigits(m)[0]);
  }

  lemma NotPrefix(lit: string, s: string)
    requires |lit| > 0 && |s| > 0 && lit[0] != s[0]
    ensures !(lit <= s)
  {
  }

  /** An optional minus and a run of digits: the sign and magnitude of a
      coefficient, where `-0` keeps its sign. */
  function ReadSigned(s: string): (r: Option<(bool, nat, string)>)
  {
    var negative := |s| > 0 && s[0] == '-';
    match ReadNat(if negative then s[1..] else s)
    case None => None
    case Some((m, rest)) => Some((negative, m, rest))
  }

  /** An optional `e` exponent; none means zero. */
  function ReadExponent(s: string): (r: Option<(int, string)>)
  {
    if |s| > 0 && s[0] == 'e' then ReadInt(s[1..]) else Some((0, s))
  }

  /** A price: null, or the exact decimal the writer spells as an
      optionally negative coefficient and an optional `e` exponent. */
  function ReadPrice(s: string): (r: Option<(Option<Decimal>, string)>)
  {
    if "null" <= s then Some((None, s[4..]))
    else
      match ReadSigned(s)
      case None => None
      case Some((negative, m, more)) =>
        match ReadExponent(more)
        case None => None
        case Some((e, rest)) => Some((Some(Decimal(negative, m, e)), rest))
  }

  lemma ReadSignedOf(negative: bool, m: nat, rest: string)
    requires Delimited(rest)
    ensures ReadSigned((if negative then "-" else "") + (NatDigits(m) + rest)) == Some((negative, m, rest))
  {
    if negative {
      ReadMinus(m, rest);
    } else {
      ReadUnsigned(m, rest);
    }
  }

  lemma ReadMinus(m: nat, rest: string)
    requires Delimited(rest)
    ensures ReadSigned("-" + (NatDigits(m) + rest)) == Some((true, m, rest))
  {
    var t := NatDigits(m) + rest;
    ReadNatDigits(m, rest);
    var s := "-" + t;
    assert s[0] == '-' && s[1..] == t;
  }

  lemma ReadUnsigned(m: nat, rest: string)
    requires Delimited(rest)
    ensures ReadSigned("" + (NatDigits(m) + rest)) == Some((false, m, rest))
  {
    var digits := NatDigits(m);
    ReadNatDigits(m, rest);
    assert IsDigit(digits[0]);
    assert "" + (digits + rest) == digits + rest;
    assert (digits + rest)[0] == digits[0];
  }

  lemma ReadExponentOf(e: int, rest: string)
    requires rest == "" || (!IsDigit(rest[0]) && rest[0] != 'e')
    ensures ReadExponent((if e == 0 then "" else "e" + IntText(e)) + rest) == Some((e, rest))
  {
    if e == 0 {
      assert "" + rest == rest;
    } else {
      assert ("e" + IntText(e)) + rest == "e" + (IntText(e) + rest);
      ReadWrittenExponent(e, rest);
    }
  }

  lemma ReadWrittenExponent(e: int, rest: string)
    requires rest == "" || (!IsDigit(rest[0]) && rest[0] != 'e')
    ensures ReadExponent("e" + (IntText(e) + rest)) == Some((e, rest))
  {
    var t := IntText(e) + rest;
    assert ("e" + t)[1..] == t;
    ReadIntText(e, rest);
  }

  lemma ReadPriceText(price: Option<Decimal>, rest: string)
    requires rest == "" || (!IsDigit(rest[0]) && rest[0] != 'e')
    ensures ReadPrice(PriceText(price) + rest) == Some((price, rest))
  {
    match price
    case None =>
      var s := "null" + rest;
      assert s[..4] == "null" && s[4..] == rest;
    case Some(d) =>
      var sign := if d.negative then "-" else "";
      var e := if d.exponent == 0 then "" else "e" + IntText(d.exponent);
      assert PriceText(price) + rest == sign + NatDigits(d.coefficient) + (e + rest);
      ReadDecimalPrice(d, rest);
  }

  lemma ReadDecimalPrice(d: Decimal, rest: string)
    requires rest == "" || (!IsDigit(rest[0]) && rest[0] != 'e')
    ensures var e := if d.exponent == 0 then "" else "e" + IntText(d.exponent);
            ReadPrice((if d.negative then "-" else "") + NatDigits(d.coefficient) + (e + rest)) == Some((Some(d), rest))
  {
    var sign := if d.negative then "-" else "";
    var digits := NatDigits(d.coefficient);
    var e := if d.exponent == 0 then "" else "e" + IntText(d.exponent);
    var s := sign + digits + (e + rest);
    assert s == sign + (digits + (e + rest));
    assert IsDigit(digits[0]);
    assert s[0] == '-' || IsDigit(s[0]) by {
      if d.negative {
        assert s[0] == '-';
      } else {
        assert s == digits + (e + rest);
        assert s[0] == digits[0];
      }
    }
    NotPrefix("null", s);
    assert Delimited(e + rest) by {
      if d.exponent != 0 {
        assert (e + rest)[0] == 'e';
      } else {
        assert e + rest == rest;
      }
    }
    ReadSignedOf(d.negative, d.coefficient, e + rest);
    ReadExponentOf(d.exponent, rest);
  }

  /** A member of the object: its key as the writer spells it, then its value. */
  function ReadField(key: string, s: string): (r: Option<(Value, string)>)
  {
    match Expect(key, s)
    case None => None
    case Some(more) => ReadValue(more)
  }

  /** The last member, the price, and the closing brace that ends the line. */
  function ReadLast(s: string): (r: Option<Option<Decimal>>)
  {
    match Expect(", \"price\": ", s)
    case None => None
    case Some(more) =>
      match ReadPrice(more)
      case None => None
      case Some((price, rest)) => if rest == "}" then Some(price) else None
  }

  /** One line: the object the writer spells, with nothing after it. */
  function ReadRecord(line: string): Option<Record>
  {
    match ReadField("{\"id\": ", line)
    case None => None
    case Some((id, s1)) =>
      match ReadField(", \"name\": ", s1)
      case None => None
      case Some((name, s2)) =>
        match ReadField(", \"description\": ", s2)
        case None => None
        case Some((description, s3)) =>
          match ReadLast(s3)
          case None => None
          case Some(price) => Some(Record(id, name, description, price))
  }

  lemma ReadFieldOf(key: string, v: Value, rest: string)
    requires Delimited(rest)
    ensures ReadField(key, key + (Dumps(v) + rest)) == Some((v, rest))
  {
    ExpectOf(key, Dumps(v) + rest);
    ReadDumps(v, rest);
  }

  lemma ReadLastOf(price: Option<Decimal>)
    ensures ReadLast(", \"price\": " + (PriceText(price) + "}")) == Some(price)
  {
    ExpectOf(", \"price\": ", PriceText(price) + "}");
    ReadPriceText(price, "}");
  }

  /** Every line the writer produces reads back as the record it was
      written from. */
  lemma ReadRecordLine(r: Record)
    ensures ReadRecord(RecordLine(r)) == Some(r)
  {
    var k1, k2, k3, k4 := "{\"id\": ", ", \"name\": ", ", \"description\": ", ", \"price\": ";
    var t3 := k4 + (PriceText(r.price) + "}");
    var t2 := k3 + (Dumps(r.description) + t3);
    var t1 := k2 + (Dumps(r.name) + t2);
    RecordLineShape(r);
    ReadLastOf(r.price);
    ReadFieldOf(k3, r.description, t3);
    ReadFieldOf(k2, r.name, t2);
    ReadFieldOf(k1, r.id, t1);
  }

  lemma RecordLineShape(r: Record)
    ensures RecordLine(r) == "{\"id\": " + (Dumps(r.id) + (", \"name\": " + (Dumps(r.name) + (", \"description\": " + (Dumps(r.description) + (", \"price\": " + (PriceText(r.price) + "}")))))))
  {
  }

  /** Every line of a staged file, read as a record. */
  function ReadAll(lines: seq<string>): (r: seq<Option<Record>>)
    ensures |r| == |lines|
  {
    if |lines| == 0 then [] else ReadAll(lines[..|lines| - 1]) + [ReadRecord(lines[|lines| - 1])]
  }

  lemma {:induction false} ReadAllAt(lines: seq<string>, k: nat)
    requires k < |lines|
    ensures ReadAll(lines)[k] == ReadRecord(lines[k])
  {
    if k < |lines| - 1 {
      ReadAllAt(lines[..|lines| - 1], k);
    }
  }

  /** Loading the staged file gives back exactly the records written, one
      per line, in order, none lost and none unreadable. */
  lemma LoadArtifact(rows: seq<Record>)
    ensures |ReadAll(SplitLines(Artifact(rows)))| == |rows|
    ensures forall k :: 0 <= k < |rows| ==> ReadAll(SplitLines(Artifact(rows)))[k] == Some(rows[k])
  {
    SplitArtifact(rows);
    forall k | 0 <= k < |rows|
      ensures ReadAll(Lines(rows))[k] == Some(rows[k])
    {
      ReadAllAt(Lines(rows), k);
      LinesAt(rows, k);
      ReadRecordLine(rows[k]);
    }
  }
}
