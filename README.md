# Debezium to BigQuery: a verified model of the pipeline core

This project models the core of an Airflow pipeline that moves change
events from Kafka to BigQuery. Debezium captures those events from the
`inventory.products` table. The pipeline has four parts, all in
`airflow/dags/debezium_to_bigquery.py`:

- **Decimal codec** (`decode_decimal`). The price field of a snapshot
  arrives as a Base64 token. The token's octets are the UTF-8 text of a
  decimal number. An absent token gives no value. Every failure also gives
  no value, with a printed warning, and never raises.
- **Event filter and normalizer** (the per-message body of
  `transform_data`). It keeps create, update and delete events. It reads
  `after` for create and update and `before` for delete. It drops an
  absent or empty snapshot silently. It drops a row without an id and
  prints a warning. Otherwise it produces a record of id, name,
  description and decoded price.
- **Staging writer** (the second loop of `transform_data`). It writes one
  JSON line per record.
- **Batch collector and readiness sensor** (`consume_from_kafka`,
  `check_kafka_messages`). The collector polls until it has `batch_size`
  envelopes or its 30-second window has passed. It publishes the batch
  only when the batch is non-empty. The sensor is true exactly when a
  non-empty batch is there.

## Modules

- `Wrappers`, `Bytes`: the `Option` type, octets, ASCII text.
- `Base64`: CPython's lenient `b64decode` (`binascii.a2b_base64` in
  non-strict mode, as in Python 3.11 and later). It decodes one character
  at a time. Characters outside the alphabet are discarded. A pad
  sequence ends the input. A quad left unfinished is an error. The module
  also holds the standard padded encoder of section 4 of RFC 4648.
- `Utf8`: strict UTF-8 decoding, following table 3-7 of the Unicode
  standard, and the encoder. The two are proved to be inverse bijections.
- `Decimals`: the decimal value and the modelled part of
  `Decimal(text)`'s grammar, with a parser, a printer and their round
  trips.
- `Json`: the field values and `json.dumps` with `ensure_ascii`.
- `DecimalCodec`: `decode_decimal`.
- `Cdc`: the normalizer, as a function of one envelope and of a batch.
- `Staging`: the line of one record and the text of the staged file.
- `Transform`: `transform_data`'s two loops, as methods proved against
  `Cdc` and `Staging`.
- `Collector`: the collection loop as a method, the published entry and
  the sensor.
- `Reader`: a reader for the staged file, the writer's partner. Every
  written line reads back as its record.
- `Scenarios`: worked examples on single envelopes.

The wall clock of the collector is a parameter: the sequence of readings
that `time.time()` returns. What each `consumer.poll` returns is also a
parameter. Printed warnings come back as a list of diagnostics.

## Model

| member | source | states |
|---|---|---|
| Base64.Decode | airflow/dags/debezium_to_bigquery.py:18 | `b64decode` of a text: None for a non-ASCII text; otherwise the lenient decoder run from the start of a quad |
| Base64.DecodeFrom | airflow/dags/debezium_to_bigquery.py:18 | the lenient decoder never takes back an octet it has already produced |
| Base64.Feed | airflow/dags/debezium_to_bigquery.py:18 | an alphabet character moves the decoder one place along the quad, keeps the pending bits short of a full octet and only appends to the output |
| Base64.Encode | airflow/dags/debezium_to_bigquery.py:18 | the producer's encoding: four ASCII characters for every three octets or part of three |
| Base64.Quad | airflow/dags/debezium_to_bigquery.py:18 | three octets become four ASCII characters |
| Base64.TailOne | airflow/dags/debezium_to_bigquery.py:18 | a one-octet tail becomes four ASCII characters, two of them pads |
| Base64.TailTwo | airflow/dags/debezium_to_bigquery.py:18 | a two-octet tail becomes four ASCII characters, one of them a pad |
| Base64.SextetOfCharOf | airflow/dags/debezium_to_bigquery.py:18 | the decoding table inverts the alphabet |
| Base64.SextetOf | airflow/dags/debezium_to_bigquery.py:18 | the decoding table: an alphabet character gives the sextet the alphabet maps back to it, the pad and every other character give none |
| Base64.DecodeEncode | airflow/dags/debezium_to_bigquery.py:18 | decoding an encoding gives back exactly the octets |
| Base64.DecodeFromEncode | airflow/dags/debezium_to_bigquery.py:18 | from any pad count and any prior output, decoding an encoding appends exactly its octets |
| Base64.DecodeQuad | airflow/dags/debezium_to_bigquery.py:18 | one full encoded quad yields its three octets and returns to the start of a quad |
| Base64.DecodeData | airflow/dags/debezium_to_bigquery.py:18 | the decoder takes an alphabet character in exactly one step |
| Base64.QuadBits | airflow/dags/debezium_to_bigquery.py:18 | the four sextets of three octets carry exactly the bits of those octets |
| Base64.FeedQuad | airflow/dags/debezium_to_bigquery.py:18 | reading an encoded quad, the decoder emits its first, second and third octet in turn and ends at the start of the next quad |
| Base64.DecodeTailOne | airflow/dags/debezium_to_bigquery.py:18 | a final quad with two pads yields its one octet |
| Base64.DecodeTailTwo | airflow/dags/debezium_to_bigquery.py:18 | a final quad with one pad yields its two octets |
| Base64.DecodeFromDiscard | airflow/dags/debezium_to_bigquery.py:18 | in every decoder state, removing the characters outside the alphabet does not change the result |
| Base64.DecodeIgnoresNoise | airflow/dags/debezium_to_bigquery.py:18 | an ASCII token decodes as the token with its noise characters removed |
| Base64.Discard | airflow/dags/debezium_to_bigquery.py:18 | the filtered text is no longer than the input and holds only alphabet and pad characters |
| Base64.UnpaddedDecodeFrom | airflow/dags/debezium_to_bigquery.py:18 | without pads, decoding succeeds if and only if the data characters close the current quad |
| Base64.UnpaddedDecode | airflow/dags/debezium_to_bigquery.py:18 | an unpadded ASCII token decodes if and only if its data characters come in whole quads |
| Utf8.DecodeFirst | airflow/dags/debezium_to_bigquery.py:18 | a well-formed front sequence takes one to four octets and never more than the input has |
| Utf8.Decode | airflow/dags/debezium_to_bigquery.py:18 | `.decode('utf-8')`: the text of the characters read front to back, or None (UnicodeDecodeError) as soon as a front sequence is ill-formed |
| Utf8.DecodeFirstEncodeChar | airflow/dags/debezium_to_bigquery.py:18 | the decoder reads back the character the encoder wrote, whatever follows it |
| Utf8.DecodeFirstTwo | airflow/dags/debezium_to_bigquery.py:18 | the same for two-octet characters |
| Utf8.DecodeFirstThree | airflow/dags/debezium_to_bigquery.py:18 | the same for three-octet characters |
| Utf8.DecodeFirstFour | airflow/dags/debezium_to_bigquery.py:18 | the same for four-octet characters |
| Utf8.EncodeCharDecodeFirst | airflow/dags/debezium_to_bigquery.py:18 | every accepted front sequence is the shortest form of its character, so no overlong form gets through |
| Utf8.EncodeTwo | airflow/dags/debezium_to_bigquery.py:18 | an accepted two-octet sequence is the shortest form of its character |
| Utf8.EncodeThree | airflow/dags/debezium_to_bigquery.py:18 | an accepted three-octet sequence is the shortest form of its character |
| Utf8.EncodeFour | airflow/dags/debezium_to_bigquery.py:18 | an accepted four-octet sequence is the shortest form of its character |
| Utf8.DecodeStep | airflow/dags/debezium_to_bigquery.py:18 | a decodable text starts with the shortest form of its first character, and the rest decodes |
| Utf8.EncodeCons | airflow/dags/debezium_to_bigquery.py:18 | the encoding of a text is the form of its first character followed by the encoding of the rest |
| Utf8.DecodeEncode | airflow/dags/debezium_to_bigquery.py:18 | `s.encode().decode('utf-8') == s` for every string |
| Utf8.EncodeDecode | airflow/dags/debezium_to_bigquery.py:18 | whatever decodes re-encodes to the same octets |
| Utf8.EncodeAscii | airflow/dags/debezium_to_bigquery.py:18 | ASCII text encodes octet for octet |
| Utf8.EncodeChar | airflow/dags/debezium_to_bigquery.py:18 | a character's UTF-8 form is one to four octets |
| Decimals.ParseNumeral | airflow/dags/debezium_to_bigquery.py:19 | whatever is accepted is a well-formed numeral |
| Decimals.ParseNumeralSound | airflow/dags/debezium_to_bigquery.py:19 | an accepted text is exactly the text of the numeral it is read as |
| Decimals.ParseExponentSound | airflow/dags/debezium_to_bigquery.py:19 | an accepted exponent part is exactly the text of the exponent read |
| Decimals.ParseRender | airflow/dags/debezium_to_bigquery.py:19 | every well-formed numeral's text is read back as that numeral |
| Decimals.ParseExponentOf | airflow/dags/debezium_to_bigquery.py:19 | every exponent's text is read back as that exponent |
| Decimals.SplitDigitsOf | airflow/dags/debezium_to_bigquery.py:19 | a digit run followed by a non-digit splits off exactly |
| Decimals.SplitSignOf | airflow/dags/debezium_to_bigquery.py:19 | a written sign splits off exactly |
| Decimals.SplitDigits | airflow/dags/debezium_to_bigquery.py:19 | the text is cut into its longest digit prefix and the rest |
| Decimals.SplitSign | airflow/dags/debezium_to_bigquery.py:19 | the text is cut into its sign and the rest |
| Decimals.SplitPoint | airflow/dags/debezium_to_bigquery.py:19 | the text is cut into an optional point and the rest |
| Decimals.ParseExponent | airflow/dags/debezium_to_bigquery.py:19 | an accepted exponent has at least one digit and only digits |
| Decimals.ValueOf | airflow/dags/debezium_to_bigquery.py:19 | the value a numeral denotes: its sign, the whole and fraction digits as coefficient, the written exponent lowered by one per fraction digit |
| Decimals.Parse | airflow/dags/debezium_to_bigquery.py:19 | `Decimal(text)`: the value of the numeral the text spells, or None (InvalidOperation) for a text outside the grammar |
| Decimals.ParseValue | airflow/dags/debezium_to_bigquery.py:19 | `Decimal(text)` of a well-formed numeral is the value the numeral denotes |
| Decimals.ParseFormat | airflow/dags/debezium_to_bigquery.py:19 | every decimal value, once printed, reads back as itself |
| Decimals.NatDigits | airflow/dags/debezium_to_bigquery.py:19 | a non-empty digit string denoting the number |
| Decimals.Canonical | airflow/dags/debezium_to_bigquery.py:19 | a well-formed numeral denoting the given decimal |
| DecimalCodec.Classify | airflow/dags/debezium_to_bigquery.py:14-22 | the outcome is Absent exactly for a null token |
| DecimalCodec.DecodeDecimal | airflow/dags/debezium_to_bigquery.py:16-17 | a null token gives no value; a value only ever comes from a text token |
| DecimalCodec.DecodeEncodedNumeral | airflow/dags/debezium_to_bigquery.py:18-19 | the Base64 of the UTF-8 of any numeral in the grammar decodes to that numeral's value |
| DecimalCodec.ClassifySteps | airflow/dags/debezium_to_bigquery.py:18-19 | a token whose Base64, UTF-8 and Decimal steps all succeed decodes to the parsed value |
| DecimalCodec.DecodeEncodedDecimal | airflow/dags/debezium_to_bigquery.py:18-19 | `decode(encode(x)) == x` for every decimal |
| DecimalCodec.DecodedComesFromNumeral | airflow/dags/debezium_to_bigquery.py:18-19 | a decoded value comes from a text token whose payload is exactly the UTF-8 of a well-formed numeral for it |
| DecimalCodec.NoiseIgnored | airflow/dags/debezium_to_bigquery.py:18 | two ASCII tokens that agree after their noise characters are removed decode alike |
| DecimalCodec.RaggedTokenFails | airflow/dags/debezium_to_bigquery.py:18-22 | an unpadded token whose data characters do not fill whole quads fails, and the failure is reported |
| Json.UnicodeEscape | airflow/dags/debezium_to_bigquery.py:97 | a `\uXXXX` escape is six printable characters |
| Json.EscapeChar | airflow/dags/debezium_to_bigquery.py:97 | every character is written as a non-empty printable text |
| Json.EscapeBody | airflow/dags/debezium_to_bigquery.py:97 | an escaped string body is printable |
| Json.EscapePlain | airflow/dags/debezium_to_bigquery.py:97 | printable text with no quote or backslash is written as it is |
| Json.Quote | airflow/dags/debezium_to_bigquery.py:97 | a string literal is printable, of ASCII only and with no line break |
| Json.IntText | airflow/dags/debezium_to_bigquery.py:97 | an integer's text is printable |
| Json.Dumps | airflow/dags/debezium_to_bigquery.py:97 | every field value's JSON text is printable, so it cannot break a line |
| Cdc.Field | airflow/dags/debezium_to_bigquery.py:79-89 | `data.get(key)`: the field's value, null when the key is missing |
| Cdc.IsChange | airflow/dags/debezium_to_bigquery.py:72 | the operations kept are exactly `c`, `u` and `d` |
| Cdc.Snapshot | airflow/dags/debezium_to_bigquery.py:75 | `after` for a create or update, `before` for any other operation |
| Cdc.Normalize | airflow/dags/debezium_to_bigquery.py:70-92 | a kept record has a non-null id and comes with at most one warning |
| Cdc.NormalizeKeepsPassing | airflow/dags/debezium_to_bigquery.py:71-92 | an envelope yields a record if and only if it passes the op, snapshot and id checks; the record carries the snapshot's fields and the decoded price |
| Cdc.NonChangeIsSilent | airflow/dags/debezium_to_bigquery.py:71-73 | an op other than c, u or d (such as the snapshot read) yields nothing and prints nothing |
| Cdc.EmptySnapshotIsSilent | airflow/dags/debezium_to_bigquery.py:75-77 | an absent or empty snapshot drops the envelope without a warning |
| Cdc.NullIdWarnsOnce | airflow/dags/debezium_to_bigquery.py:79-82 | a missing or null id drops the row with exactly one warning, which names the snapshot |
| Cdc.DeleteReadsBefore | airflow/dags/debezium_to_bigquery.py:75 | a delete's result does not depend on `after` |
| Cdc.UpsertReadsAfter | airflow/dags/debezium_to_bigquery.py:75 | a create's or update's result does not depend on `before` |
| Cdc.WithPrice | airflow/dags/debezium_to_bigquery.py:84 | the envelope whose selected snapshot has the given price token; the operation and the other snapshot are unchanged |
| Cdc.PriceNeverDrops | airflow/dags/debezium_to_bigquery.py:84-92 | whatever the price token, a passing row is kept with the same other fields; its price is the decoded token; a decode failure only adds one warning |
| Cdc.NormalizeAll | airflow/dags/debezium_to_bigquery.py:68-92 | `transformed_data` after the loop: each envelope's record, if it has one, appended in order |
| Cdc.Diagnostics | airflow/dags/debezium_to_bigquery.py:68-92 | the warnings the loop prints, each envelope's in order (null id at line 81, bad price at line 21) |
| Cdc.NormalizeAllAppend | airflow/dags/debezium_to_bigquery.py:70-92 | the loop over two halves gives the records of the whole batch |
| Cdc.NormalizeStep | airflow/dags/debezium_to_bigquery.py:70-92 | each envelope adds exactly its own records and warnings to those of the envelopes before it |
| Cdc.DiagnosticsAppend | airflow/dags/debezium_to_bigquery.py:70-92 | the loop over two halves prints the warnings of the whole batch |
| Cdc.PassingPositionsExact | airflow/dags/debezium_to_bigquery.py:70-92 | the positions of the passing envelopes are in range, strictly increasing, and exactly those that pass |
| Cdc.NormalizeAllIsFilterMap | airflow/dags/debezium_to_bigquery.py:68-92 | the batch's records are the records of the passing envelopes, one each, in arrival order |
| Cdc.NormalizeAllBounds | airflow/dags/debezium_to_bigquery.py:68-92 | there are never more records than envelopes, and every record has a non-null id |
| Cdc.PositionsShorter | airflow/dags/debezium_to_bigquery.py:68-92 | a strictly increasing list of positions below n has at most n entries |
| Cdc.NullIdWarningsAppend | airflow/dags/debezium_to_bigquery.py:81 | null-id warnings add up over a split of the warning list |
| Cdc.NullIdWarningsCount | airflow/dags/debezium_to_bigquery.py:79-82 | a batch prints exactly one null-id warning per envelope dropped for its id |
| Cdc.ReadsOnlyBatchIsEmpty | airflow/dags/debezium_to_bigquery.py:71-73 | a batch without changes yields no records and no warnings |
| Staging.PriceText | airflow/dags/debezium_to_bigquery.py:90 | the price's JSON text is printable |
| Staging.RecordLine | airflow/dags/debezium_to_bigquery.py:86-91 | a record's JSON text is printable, so it holds no line break |
| Staging.Terminated | airflow/dags/debezium_to_bigquery.py:96-97 | the lines written one after the other, each followed by a line feed |
| Staging.Artifact | airflow/dags/debezium_to_bigquery.py:95-97 | the staged file text: each record's line followed by a line feed, in order |
| Staging.Lines | airflow/dags/debezium_to_bigquery.py:96-97 | one line per record |
| Staging.LinesAt | airflow/dags/debezium_to_bigquery.py:96-97 | line k is the JSON text of record k |
| Staging.LinesPrintable | airflow/dags/debezium_to_bigquery.py:96-97 | no written line holds a line break |
| Staging.LineEnd | airflow/dags/debezium_to_bigquery.py:97 | the position of the first line feed, with none before it |
| Staging.LineEndOf | airflow/dags/debezium_to_bigquery.py:97 | a line ends exactly at the line feed written after it |
| Staging.SplitLinesCons | airflow/dags/debezium_to_bigquery.py:97 | a line, a line feed and more text read as that line and then the rest's lines |
| Staging.TerminatedFront | airflow/dags/debezium_to_bigquery.py:96-97 | terminated lines, seen from the front, are the first line, a line feed and the rest |
| Staging.SplitTerminated | airflow/dags/debezium_to_bigquery.py:96-97 | reading terminated lines back gives exactly those lines |
| Staging.SplitArtifact | airflow/dags/debezium_to_bigquery.py:95-97 | the staged file reads back as exactly one whole line per record, in order |
| Staging.LineFeedsPrintable | airflow/dags/debezium_to_bigquery.py:97 | printable text holds no line feed |
| Staging.LineFeedsAppend | airflow/dags/debezium_to_bigquery.py:97 | line feeds add up over a concatenation |
| Staging.TerminatedLineFeeds | airflow/dags/debezium_to_bigquery.py:96-97 | terminated printable lines hold one line feed per line |
| Staging.ArtifactLineFeeds | airflow/dags/debezium_to_bigquery.py:95-97 | the staged file holds exactly one line feed per record |
| Transform.TransformData | airflow/dags/debezium_to_bigquery.py:68-97 | the rows are the normalized batch and the warnings are its warnings; the file text is the artifact of the rows: at most one row per envelope, one whole line per row |
| Transform.FilterChanges | airflow/dags/debezium_to_bigquery.py:68-92 | the `for` loop leaves exactly the normalized batch and prints exactly its warnings |
| Transform.WriteLines | airflow/dags/debezium_to_bigquery.py:96-97 | the written text is the staged artifact: one line per row, in order, one line feed per row |
| Collector.Flatten | airflow/dags/debezium_to_bigquery.py:46-48 | one poll's payloads, partition by partition, each partition's records in order |
| Collector.Gathered | airflow/dags/debezium_to_bigquery.py:42-48 | everything a run of polls delivers, poll after poll |
| Collector.ConsumeBatch | airflow/dags/debezium_to_bigquery.py:42-48 | the batch is the polls' payloads in poll order; each poll happened while the count was short and the clock before the deadline; the loop stops only when the count is reached or the window has passed; the batch exceeds its size only by less than the last poll |
| Collector.Drain | airflow/dags/debezium_to_bigquery.py:46-48 | after one poll the batch is the batch before it followed by every payload of that poll, partition by partition |
| Collector.GatheredAppend | airflow/dags/debezium_to_bigquery.py:46-48 | payloads are appended in poll order |
| Collector.GatheredPrefix | airflow/dags/debezium_to_bigquery.py:44-48 | what earlier polls gathered is a prefix of what later ones gathered |
| Collector.Overshoot | airflow/dags/debezium_to_bigquery.py:44-48 | with batch size 1, a first poll of two records yields a batch of two |
| Collector.Publish | airflow/dags/debezium_to_bigquery.py:50-54 | an entry is pushed exactly when the batch is not empty, and it is the batch itself |
| Collector.ReadyIffCollected | airflow/dags/debezium_to_bigquery.py:50-61 | the sensor is true if and only if the collector gathered at least one envelope, and the pulled list is then the batch |
| Collector.IsReady | airflow/dags/debezium_to_bigquery.py:61 | ready exactly when an entry is present and non-empty |
| Reader.Expect | airflow/dags/debezium_to_bigquery.py:97 | an accepted text is the literal followed by the rest |
| Reader.ExpectOf | airflow/dags/debezium_to_bigquery.py:97 | a literal at the front is taken off exactly |
| Reader.HexValue | airflow/dags/debezium_to_bigquery.py:97 | a hexadecimal digit's value is below 16 |
| Reader.ReadHex4 | airflow/dags/debezium_to_bigquery.py:97 | four hexadecimal digits give a value below 0x10000 |
| Reader.ReadHex4Of | airflow/dags/debezium_to_bigquery.py:97 | the digits of a `\uXXXX` escape read back as its value |
| Reader.HexDigitValue | airflow/dags/debezium_to_bigquery.py:97 | every hexadecimal digit the writer uses reads back as its value |
| Reader.HexPlaces | airflow/dags/debezium_to_bigquery.py:97 | a number below 0x10000 is made up of its four base-16 digits |
| Reader.ReadChar | airflow/dags/debezium_to_bigquery.py:97 | reading a character consumes input |
| Reader.ReadUnicode | airflow/dags/debezium_to_bigquery.py:97 | reading the digits of a `\u` escape consumes input |
| Reader.ReadLowSurrogate | airflow/dags/debezium_to_bigquery.py:97 | reading the low half of a surrogate pair consumes input |
| Reader.ReadBody | airflow/dags/debezium_to_bigquery.py:97 | reading a string body consumes input |
| Reader.ReadEscapeChar | airflow/dags/debezium_to_bigquery.py:97 | every escape `json.dumps` writes reads back as its one character, and none starts with a quote |
| Reader.ReadShortEscape | airflow/dags/debezium_to_bigquery.py:97 | the two-character escapes read back |
| Reader.ReadPlainChar | airflow/dags/debezium_to_bigquery.py:97 | printable characters read back as themselves |
| Reader.ReadBmpEscape | airflow/dags/debezium_to_bigquery.py:97 | `\uXXXX` escapes below U+10000 read back |
| Reader.ReadUnicodeEscape | airflow/dags/debezium_to_bigquery.py:97 | a character that starts with a `\u` escape is read by the escape reader |
| Reader.ReadPairEscape | airflow/dags/debezium_to_bigquery.py:97 | surrogate-pair escapes read back as the character past U+FFFF |
| Reader.EscapePair | airflow/dags/debezium_to_bigquery.py:97 | a character past U+FFFF is written as its high and its low surrogate escape |
| Reader.PairValue | airflow/dags/debezium_to_bigquery.py:97 | joining the two surrogates of a code point gives back the code point |
| Reader.ReadCharPair | airflow/dags/debezium_to_bigquery.py:97 | a surrogate pair of escapes reads as the one character it encodes |
| Reader.ReadLowSurrogateOf | airflow/dags/debezium_to_bigquery.py:97 | the escape of a low surrogate completes the character begun by its high surrogate |
| Reader.ReadEscapeBody | airflow/dags/debezium_to_bigquery.py:97 | an escaped body and its closing quote read back as the text |
| Reader.ReadQuote | airflow/dags/debezium_to_bigquery.py:97 | a dumped string reads back as itself |
| Reader.ReadNat | airflow/dags/debezium_to_bigquery.py:97 | reading digits consumes input |
| Reader.ReadInt | airflow/dags/debezium_to_bigquery.py:97 | reading an integer consumes input |
| Reader.ReadNatDigits | airflow/dags/debezium_to_bigquery.py:97 | a number's digits read back as the number |
| Reader.ReadIntText | airflow/dags/debezium_to_bigquery.py:97 | `str(i)` reads back as i |
| Reader.ReadNegative | airflow/dags/debezium_to_bigquery.py:97 | a minus and digits read back as the negated number |
| Reader.ReadNonNegative | airflow/dags/debezium_to_bigquery.py:97 | digits read back as the number |
| Reader.ReadDumps | airflow/dags/debezium_to_bigquery.py:97 | every field value's JSON text reads back as that value |
| Reader.ReadLiteralValue | airflow/dags/debezium_to_bigquery.py:97 | `null`, `true` and `false` read back |
| Reader.ReadStrValue | airflow/dags/debezium_to_bigquery.py:97 | string values read back |
| Reader.ReadIntValue | airflow/dags/debezium_to_bigquery.py:97 | integer values read back |
| Reader.NumberStart | airflow/dags/debezium_to_bigquery.py:97 | a number's text starts with a minus or a digit |
| Reader.NotPrefix | airflow/dags/debezium_to_bigquery.py:97 | texts that differ in their first character are not prefixes of each other |
| Reader.ReadSignedOf | airflow/dags/debezium_to_bigquery.py:90 | a coefficient's sign and digits read back, minus zero included |
| Reader.ReadExponentOf | airflow/dags/debezium_to_bigquery.py:90 | the written exponent reads back, an omitted one as zero |
| Reader.ReadWrittenExponent | airflow/dags/debezium_to_bigquery.py:90 | an `e` followed by an integer reads back as that exponent |
| Reader.ReadPriceText | airflow/dags/debezium_to_bigquery.py:90 | the written price reads back as the exact decimal, or as null |
| Reader.ReadDecimalPrice | airflow/dags/debezium_to_bigquery.py:90 | a non-null written price reads back as its decimal |
| Reader.ReadFieldOf | airflow/dags/debezium_to_bigquery.py:86-89 | a key and a dumped value read back as the value |
| Reader.ReadLastOf | airflow/dags/debezium_to_bigquery.py:90-91 | the price member and the closing brace read back as the price |
| Reader.RecordLineShape | airflow/dags/debezium_to_bigquery.py:86-91 | a record's line is its four members in insertion order with `json.dumps`'s separators |
| Reader.ReadRecordLine | airflow/dags/debezium_to_bigquery.py:86-97 | every written line reads back as the record it was written from |
| Reader.ReadAll | airflow/dags/debezium_to_bigquery.py:96-97 | one reading per line |
| Reader.ReadAllAt | airflow/dags/debezium_to_bigquery.py:96-97 | reading k is line k read |
| Reader.LoadArtifact | airflow/dags/debezium_to_bigquery.py:95-97 | loading the staged file gives back exactly the records written, in order, none lost and none unreadable |
| Scenarios.NineteenNinetyNine | airflow/dags/debezium_to_bigquery.py:19 | the numeral `19.99` denotes 1999 hundredths |
| Scenarios.WidgetPriceOctets | airflow/dags/debezium_to_bigquery.py:18 | the UTF-8 of `19.99` |
| Scenarios.WidgetPriceBase64 | airflow/dags/debezium_to_bigquery.py:18 | the Base64 of those octets is `MTkuOTk=` |
| Scenarios.WidgetPriceToken | airflow/dags/debezium_to_bigquery.py:14-22 | `decode_decimal("MTkuOTk=")` is `Decimal('19.99')` |
| Scenarios.WidgetFields | airflow/dags/debezium_to_bigquery.py:79-89 | `data.get` finds each field of the create's snapshot |
| Scenarios.WidgetStep | airflow/dags/debezium_to_bigquery.py:70-92 | the loop body keeps the create as one record with the exact price and no warning |
| Scenarios.WidgetIsNormalized | airflow/dags/debezium_to_bigquery.py:70-92 | a create of product 1 at 19.99 yields its one record and no warning |
| Scenarios.WidgetIsStaged | airflow/dags/debezium_to_bigquery.py:95-97 | that record stages exactly one line |
| Scenarios.DeleteUsesBefore | airflow/dags/debezium_to_bigquery.py:75 | a delete's record is built from `before` |
| Scenarios.ReadIsSkipped | airflow/dags/debezium_to_bigquery.py:71-73 | a snapshot read yields no record and no warning |
| Scenarios.NullIdIsReported | airflow/dags/debezium_to_bigquery.py:79-82 | a null id yields no record and one warning |

## Left out

- Kafka: building the consumer, the connection lookup, auto-commit and
  `consumer.poll`. These are network I/O and a foreign library. What each
  poll returns is an input sequence. Taking `msg.value['payload']`, and
  the KeyError when a message has no payload, are not modelled: a poll
  returns the payloads directly.
- `time.time()`: the sequence of readings is an input.
- Collector.ConsumeBatch: requires that the last reading is at or past
  the deadline and that there are enough poll results. This stands for
  time moving on. Each poll's own wait of up to 1000 ms is not modelled,
  so nothing bounds how long a poll takes.
- XCom: the push and pull, their keys and the task-instance key, the DAG
  wiring and the sensor's scheduling (poke interval, 600 s timeout). They
  are orchestration. An entry is an `Option` of the batch.
- Transform.TransformData: takes the pulled list itself. The `TypeError`
  that iterating over `None` would raise, when no batch was pushed, is not
  modelled; the sensor keeps that case from happening.
- The temporary file: creating, writing and closing it, and pushing its
  path. This is filesystem I/O. Only the text written is modelled.
- The `bq load` command. It is an external tool.
- `float(price_decoded)`: floating point. The price is written as the
  exact decimal (`1999e-2` for 19.99), not as Python's float repr.
- `print`: the warnings come back as a list of diagnostics. Their text,
  and the success messages, are not modelled.
- `Decimal(text)` beyond the modelled grammar: surrounding whitespace,
  underscores, NaN, Infinity and non-ASCII digits are all read as
  errors here. In the source `Decimal` accepts these, so
  `decode_decimal` returns a value without a warning. For NaN and
  Infinity, `float()` on line 90 then gives nan or inf, which
  `json.dumps` writes as the non-JSON tokens `NaN` and `Infinity`. For
  sNaN, `float()` raises ValueError outside the `try`, which aborts the
  whole `transform_data` batch.
- Decimals.Parse: does not bound the exponent. CPython's `Decimal(text)`
  raises InvalidOperation when the adjusted exponent is above
  10^18 - 1 or below the smallest subnormal exponent (64-bit builds), so
  `decode_decimal` returns None with a warning for a token such as the
  Base64 of `1E1000000000000000000`, where the model returns a value.
- Lone surrogates in `name` or `description`: `json.loads` accepts an
  escaped `\ud800` on its own, but a Dafny `char` cannot hold a
  surrogate, so such a string is read as malformed here and its
  re-escaping by `json.dumps` is not modelled.
- `batch_size` is a parameter of `Collector.ConsumeBatch`; its default of
  100 (line 28) and the 10 the DAG passes (line 118) are configuration.
- `b64decode` before Python 3.11, whose pad handling differs.
- A `bytes` price token: field values hold no bytes here. Every token
  that is neither a string nor null fails, as with the TypeError that
  `b64decode` raises for an integer or a boolean.
- Field values other than null, booleans, integers and strings (floats,
  arrays, nested objects), snapshots that are not objects, and envelopes
  that are not objects.

## Notes on the source

- The comment of line 43 says `wait max 30s`, but the guard of line 44
  reads the clock only before each poll, and `consumer.poll(timeout_ms=1000)`
  on line 45 may wait up to a second. So a run can end up to one poll
  timeout past the window. `Collector.ConsumeBatch` states what the code
  does: every poll it performs started before the deadline.
- Lines 18-19 read the price token as Base64 of decimal text, and the
  model follows that.
