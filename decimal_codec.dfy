/** `decode_decimal` (airflow/dags/debezium_to_bigquery.py, lines 14-22):
    the price field of a row snapshot is a Base64 text whose octets are
    the UTF-8 text of a decimal number. An absent value gives no value;
    every failure on the way also gives no value and is reported, never
    raised. */
module DecimalCodec {
  import opened Wrappers
  import opened Bytes
  import Base64
  import Utf8
  import opened Decimals
  import opened Json

  /** What happened to a token: it was absent (`None`, no report), it
      decoded, or one of the steps raised and the handler reported it. */
  datatype Outcome = Absent | Decoded(value: Decimal) | Failed

  /** The steps of line 18-19 in turn. A non-text token makes
      `b64decode` raise TypeError, a non-ASCII text ValueError; the other
      failures are `binascii.Error`, UnicodeDecodeError and
      `decimal.InvalidOperation`. The handler of line 20 catches them all. */
  function Classify(token: Value): (r: Outcome)
    ensures r == Absent <==> token == Null
  {
    match token
    case Null => Absent
    case Str(s) =>
      (match Base64.Decode(s)
       case None => Failed
       case Some(octets) =>
         match Utf8.Decode(octets)
         case None => Failed
         case Some(text) =>
           match Parse(text)
           case None => Failed
           case Some(d) => Decoded(d))
    case _ => Failed
  }

  /** `decode_decimal(token)`: the decimal, or None both for an absent
      token and for one that failed to decode. */
  function DecodeDecimal(token: Value): (r: Option<Decimal>)
    ensures token == Null ==> r == None
    ensures r.Some? ==> token.Str?
  {
    match Classify(token)
    case Decoded(d) => Some(d)
    case _ => None
  }

  /** The token a producer writes for a decimal text: the Base64 form of
      its UTF-8 octets. */
  function EncodeText(text: string): Value
  {
    Str(Base64.Encode(Utf8.Encode(text)))
  }

  /** Round trip on the grammar: encoding the text of any well-formed
      numeral and running `decode_decimal` on it gives the numeral's value. */
  lemma DecodeEncodedNumeral(n: Numeral)
    requires WellFormed(n)
    ensures DecodeDecimal(EncodeText(Render(n))) == Some(ValueOf(n))
    ensures Classify(EncodeText(Render(n))) == Decoded(ValueOf(n))
  {
    var octets := Utf8.Encode(Render(n));
    Base64.DecodeEncode(octets);
    Utf8.DecodeEncode(Render(n));
    ParseValue(n);
    ClassifySteps(Base64.Encode(octets), octets, Render(n), ValueOf(n));
  }

  /** A token whose three steps all succeed is decoded. */
  lemma ClassifySteps(s: string, octets: seq<Byte>, text: string, d: Decimal)
    requires Base64.Decode(s) == Some(octets) && Utf8.Decode(octets) == Some(text) && Parse(text) == Some(d)
    ensures Classify(Str(s)) == Decoded(d)
  {
  }

  /** Round trip on values: `decode(encode(x)) == x` for every decimal. */
  lemma DecodeEncodedDecimal(d: Decimal)
    ensures DecodeDecimal(EncodeText(Format(d))) == Some(d)
  {
    DecodeEncodedNumeral(Canonical(d));
  }

  /** Soundness: a decoded value always comes from a text token whose
      Base64 payload is exactly the UTF-8 form of a well-formed numeral
      that denotes it. */
  lemma DecodedComesFromNumeral(token: Value)
    requires DecodeDecimal(token).Some?
    ensures token.Str?
    ensures exists n :: WellFormed(n) && ValueOf(n) == DecodeDecimal(token).value
                        && Base64.Decode(token.s) == Some(Utf8.Encode(Render(n)))
  {
    var octets := Base64.Decode(token.s).value;
    var text := Utf8.Decode(octets).value;
    Utf8.EncodeDecode(octets);
    ParseNumeralSound(text);
    var n := ParseNumeral(text).value;
    assert WellFormed(n) && ValueOf(n) == DecodeDecimal(token).value;
    assert Render(n) == text;
  }

  /** Base64 noise is tolerated: inserting characters outside the alphabet
      into an ASCII token never changes what `decode_decimal` returns. */
  lemma NoiseIgnored(s: string, t: string)
    requires IsAsciiText(s) && IsAsciiText(t)
    requires Base64.Discard(s) == Base64.Discard(t)
    ensures DecodeDecimal(Str(s)) == DecodeDecimal(Str(t))
  {
    Base64.DecodeIgnoresNoise(s);
    Base64.DecodeIgnoresNoise(t);
  }

  /** A token whose data characters do not fill whole quads, and that has
      no padding, never decodes. */
  lemma RaggedTokenFails(s: string)
    requires IsAsciiText(s) && Base64.Pad !in s
    requires Base64.DataCount(s) % 4 != 0
    ensures Classify(Str(s)) == Failed
  {
    Base64.UnpaddedDecode(s);
  }
}
