/** The JSON values a row snapshot field can hold in this model, and
    `json.dumps` of them with Python's defaults (`ensure_ascii=True`):
    strings are quoted, and the quote, the backslash, control characters
    and every character outside printable ASCII are escaped. */
module Json {
  import opened Decimals

  datatype Value = Null | Bool(b: bool) | Int(i: int) | Str(s: string)

  /** True when every character is printable ASCII (space to tilde); such
      a text holds no line break. */
  predicate Printable(s: string)
  {
    forall i :: 0 <= i < |s| ==> ' ' <= s[i] <= '~'
  }

  lemma PrintableAppend(a: string, b: string)
    requires Printable(a) && Printable(b)
    ensures Printable(a + b)
  {
  }

  /** A lower-case hexadecimal digit. */
  function HexDigit(v: int): (c: char)
    requires 0 <= v < 16
    ensures ' ' <= c <= '~'
  {
    if v < 10 then ('0' as int + v) as char else ('a' as int + (v - 10)) as char
  }

  /** `\uXXXX` with four lower-case hexadecimal digits. */
  function UnicodeEscape(v: int): (s: string)
    requires 0 <= v < 0x10000
    ensures |s| == 6 && Printable(s)
    ensures s[0] == '\\' && s[1] == 'u'
  {
    var q1 := v / 16;
    var q2 := q1 / 16;
    "\\u" + [HexDigit(q2 / 16), HexDigit(q2 % 16), HexDigit(q1 % 16), HexDigit(v % 16)]
  }

  /** How the ASCII encoder writes one character inside a string: the two
      character escapes, the short control escapes, the character itself
      when printable, `\uXXXX` otherwise, and a surrogate pair of them
      past U+FFFF. */
  function EscapeChar(c: char): (s: string)
    ensures |s| > 0 && Printable(s)
  {
    var cp := c as int;
    if c == '"' then "\\\""
    else if c == '\\' then "\\\\"
    else if cp == 0x0A then "\\n"
    else if cp == 0x0D then "\\r"
    else if cp == 0x09 then "\\t"
    else if cp == 0x08 then "\\b"
    else if cp == 0x0C then "\\f"
    else if ' ' <= c <= '~' then [c]
    else if cp < 0x10000 then UnicodeEscape(cp)
    else
      var v := cp - 0x10000;
      UnicodeEscape(0xD800 + v / 1024) + UnicodeEscape(0xDC00 + v % 1024)
  }

  function EscapeBody(s: string): (r: string)
    ensures Printable(r)
  {
    if |s| == 0 then "" else EscapeChar(s[0]) + EscapeBody(s[1..])
  }

  /** Text the encoder needs no escape for: printable ASCII other than the
      quote and the backslash. */
  predicate Plain(s: string)
  {
    forall i :: 0 <= i < |s| ==> ' ' <= s[i] <= '~' && s[i] != '"' && s[i] != '\\'
  }

  /** Plain text is written as it is. */
  lemma {:induction false} EscapePlain(s: string)
    requires Plain(s)
    ensures EscapeBody(s) == s
  {
    if |s| > 0 {
      EscapePlain(s[1..]);
      assert [s[0]] + s[1..] == s;
    }
  }

  /** A string literal as `json.dumps` writes it. */
  function Quote(s: string): (r: string)
    ensures Printable(r)
  {
    "\"" + EscapeBody(s) + "\""
  }

  /** Python's `str(i)` of an integer. */
  function IntText(i: int): (s: string)
    ensures Printable(s)
  {
    if i < 0 then "-" + NatDigits(-i) else NatDigits(i)
  }

  /** `json.dumps(v)`. */
  function Dumps(v: Value): (s: string)
    ensures Printable(s)
  {
    match v
    case Null => "null"
    case Bool(b) => if b then "true" else "false"
    case Int(i) => IntText(i)
    case Str(s) => Quote(s)
  }
}
