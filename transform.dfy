/** `transform_data` (airflow/dags/debezium_to_bigquery.py, lines 64-101):
    the loop that filters and normalizes the collected envelopes, and the
    loop that writes one JSON line per kept row. */
module Transform {
  import opened Json
  import opened Cdc
  import opened Staging
  import opened DecimalCodec

  /** Lines 68-97. `messages` is the list pulled from the collector's
      entry; `transformed` is `transformed_data`, `warnings` what the loop
      prints (a missing id, a price that fails to decode) and `contents`
      the text written to the staging file. */
  method TransformData(messages: seq<Envelope>) returns (transformed: seq<Record>, warnings: seq<Diagnostic>, contents: string)
    ensures transformed == NormalizeAll(messages)
    ensures warnings == Diagnostics(messages)
    ensures contents == Artifact(transformed)
    ensures |transformed| <= |messages|
    ensures SplitLines(contents) == Lines(transformed)
    ensures LineFeeds(contents) == |transformed|
  {
    transformed, warnings := FilterChanges(messages);
    contents := WriteLines(transformed);
    NormalizeAllBounds(messages);
  }

  /** The `for` loop of lines 70-92. */
  method FilterChanges(messages: seq<Envelope>) returns (transformed: seq<Record>, warnings: seq<Diagnostic>)
    ensures transformed == NormalizeAll(messages)
    ensures warnings == Diagnostics(messages)
  {
    transformed := [];
    warnings := [];
    for i := 0 to |messages|
      invariant transformed == NormalizeAll(messages[..i])
      invariant warnings == Diagnostics(messages[..i])
    {
      NormalizeStep(messages, i);
      var message := messages[i];
      var op := message.op;
      if !(op == Str("c") || op == Str("u") || op == Str("d")) {
        continue;
      }
      var data := if op == Str("c") || op == Str("u") then message.after else message.before;
      if data.None? || |data.value| == 0 {
        continue;
      }
      var row := data.value;
      var rowId := Field(row, "id");
      if rowId == Null {
        warnings := warnings + [NullId(row)];
        continue;
      }
      var priceEncoded := Field(row, "price");
      var priceDecoded := DecodeDecimal(priceEncoded);
      if Classify(priceEncoded).Failed? {
        warnings := warnings + [BadPrice(priceEncoded)];
      }
      var record := Record(rowId, Field(row, "name"), Field(row, "description"), priceDecoded);
      transformed := transformed + [record];
    }
    assert messages[..|messages|] == messages;
  }

  /** The `for` loop of lines 95-97: `json.dumps(row) + "\n"` for each row. */
  method WriteLines(transformed: seq<Record>) returns (contents: string)
    ensures contents == Artifact(transformed)
    ensures SplitLines(contents) == Lines(transformed)
    ensures LineFeeds(contents) == |transformed|
  {
    contents := "";
    for k := 0 to |transformed|
      invariant contents == Artifact(transformed[..k])
    {
      assert transformed[..k + 1][..k] == transformed[..k];
      assert transformed[..k + 1][k] == transformed[k];
      assert Lines(transformed[..k + 1])[..k] == Lines(transformed[..k]);
      contents := contents + RecordLine(transformed[k]) + [LineFeed];
    }
    assert transformed[..|transformed|] == transformed;
    SplitArtifact(transformed);
    ArtifactLineFeeds(transformed);
  }
}
