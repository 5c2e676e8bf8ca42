/** Worked examples of the pipeline on single envelopes, as they are
    produced by the connector for the `inventory.products` table. */
module Scenarios {
  import opened Wrappers
  import opened Decimals
  import opened Json
  import opened Cdc
  import opened Staging
  import DecimalCodec
  import Bytes
  import Utf8
  import Base64

  /** The numeral `19.99`. */
  function NineteenNinetyNine(): (n: Numeral)
    ensures WellFormed(n) && Render(n) == "19.99"
    ensures ValueOf(n) == Decimal(false, 1999, -2)
  {
    var n := Numeral(Unsigned, "19", true, "99", None);
    assert DigitsValue("1999") == 1999 by {
      assert "1999"[..3] == "199" && "199"[..2] == "19" && "19"[..1] == "1";
    }
    assert "19" + "99" == "1999";
    n
  }

  /** The UTF-8 octets of `19.99`. */
  lemma WidgetPriceOctets()
    ensures Utf8.Encode("19.99") == [49, 57, 46, 57, 57]
  {
    Utf8.EncodeAscii("19.99");
  }

  /** The Base64 text of those octets. */
  lemma WidgetPriceBase64()
    ensures Base64.Encode([49, 57, 46, 57, 57]) == "MTkuOTk="
  {
    var octets: seq<Bytes.Byte> := [49, 57, 46, 57, 57];
    assert octets[3..] == [57, 57];
    assert Base64.Encode([57, 57]) == "OTk=";
  }

  /** The token the producer writes for `19.99` is `MTkuOTk=`, and
      `decode_decimal` reads it back as 1999 hundredths. */
  lemma WidgetPriceToken()
    ensures DecimalCodec.EncodeText("19.99") == Str("MTkuOTk=")
    ensures DecimalCodec.Classify(Str("MTkuOTk=")) == DecimalCodec.Decoded(Decimal(false, 1999, -2))
    ensures DecimalCodec.DecodeDecimal(Str("MTkuOTk=")) == Some(Decimal(false, 1999, -2))
  {
    WidgetPriceOctets();
    WidgetPriceBase64();
    DecimalCodec.DecodeEncodedNumeral(NineteenNinetyNine());
  }

  /** The row snapshot of a create of product 1 with a price of 19.99. */
  function WidgetRow(): Row
  {
    map["id" := Int(1), "name" := Str("Widget"), "description" := Str("A widget"), "price" := Str("MTkuOTk=")]
  }

  function WidgetCreate(): Envelope
  {
    Envelope(Str("c"), None, Some(WidgetRow()))
  }

  /** `data.get` finds each field of the snapshot. */
  lemma WidgetFields()
    ensures |WidgetRow()| > 0
    ensures Field(WidgetRow(), "id") == Int(1) && Field(WidgetRow(), "name") == Str("Widget")
    ensures Field(WidgetRow(), "description") == Str("A widget") && Field(WidgetRow(), "price") == Str("MTkuOTk=")
  {
    assert "id" in WidgetRow();
  }

  /** The loop body keeps the create as a record with the exact price and
      no warning. */
  lemma WidgetStep()
    ensures Normalize(WidgetCreate()) == Kept(Record(Int(1), Str("Widget"), Str("A widget"), Some(Decimal(false, 1999, -2))), [])
  {
    WidgetFields();
    WidgetPriceToken();
  }

  /** The create yields one record with the snapshot's fields and the
      exact price, and prints nothing. */
  lemma WidgetIsNormalized()
    ensures NormalizeAll([WidgetCreate()]) == [Record(Int(1), Str("Widget"), Str("A widget"), Some(Decimal(false, 1999, -2)))]
    ensures Diagnostics([WidgetCreate()]) == []
  {
    WidgetStep();
    assert [WidgetCreate()][..0] == [];
  }

  /** The create stages exactly one line. */
  lemma WidgetIsStaged()
    ensures |SplitLines(Artifact(NormalizeAll([WidgetCreate()])))| == 1
  {
    WidgetIsNormalized();
    SplitArtifact(NormalizeAll([WidgetCreate()]));
  }

  /** A delete of product 2: the record comes from `before`. */
  lemma DeleteUsesBefore()
    ensures var e := Envelope(Str("d"), Some(map["id" := Int(2), "name" := Str("Gizmo")]), None);
            NormalizeAll([e]) == [Record(Int(2), Str("Gizmo"), Null, None)] && Diagnostics([e]) == []
  {
    var e := Envelope(Str("d"), Some(map["id" := Int(2), "name" := Str("Gizmo")]), None);
    assert [e][..0] == [];
  }

  /** A snapshot read yields no record and no warning. */
  lemma ReadIsSkipped()
    ensures var e := Envelope(Str("r"), None, Some(map["id" := Int(3)]));
            NormalizeAll([e]) == [] && Diagnostics([e]) == []
  {
    var e := Envelope(Str("r"), None, Some(map["id" := Int(3)]));
    assert [e][..0] == [];
  }

  /** A create whose id is null yields no record and exactly one warning. */
  lemma NullIdIsReported()
    ensures var row := map["id" := Null, "name" := Str("Orphan")];
            var e := Envelope(Str("c"), None, Some(row));
            NormalizeAll([e]) == [] && Diagnostics([e]) == [NullId(row)]
  {
    var row := map["id" := Null, "name" := Str("Orphan")];
    var e := Envelope(Str("c"), None, Some(row));
    assert [e][..0] == [];
  }
}
