/** The event filter and normalizer: the body of the `for` loop of
    `transform_data` (airflow/dags/debezium_to_bigquery.py, lines 70-92),
    stated as a function of one change envelope, and the whole batch
    as the map-and-filter that loop performs. */
module Cdc {
  import opened Wrappers
  import opened Decimals
  import opened Json
  import DecimalCodec

  /** A row snapshot: field name to value (a Python dict). */
  type Row = map<string, Value>

  /** A change envelope: its `op` value and its optional `before` and
      `after` snapshots; a missing key reads as absent, like `dict.get`. */
  datatype Envelope = Envelope(op: Value, before: Option<Row>, after: Option<Row>)

  /** One staged row: `id`, `name` and `description` as found in the
      snapshot, and the decoded price. */
  datatype Record = Record(id: Value, name: Value, description: Value, price: Option<Decimal>)

  /** A printed warning: a snapshot without an id (line 81) or a price
      that failed to decode (line 21). */
  datatype Diagnostic = NullId(row: Row) | BadPrice(token: Value)

  /** `data.get(key)`: the field's value, or null when it is missing. */
  function Field(row: Row, key: string): Value
  {
    if key in row then row[key] else Null
  }

  /** The operations the normalizer keeps: create, update and delete. */
  predicate IsChange(op: Value)
  {
    op == Str("c") || op == Str("u") || op == Str("d")
  }

  /** The snapshot a change describes: `after` for create and update,
      `before` otherwise (line 75). */
  function Snapshot(e: Envelope): Option<Row>
  {
    if e.op == Str("c") || e.op == Str("u") then e.after else e.before
  }

  /** What the loop body does with one envelope. */
  datatype Step = Skipped | Dropped(diagnostic: Diagnostic) | Kept(record: Record, notes: seq<Diagnostic>)

  /** The loop body of lines 71-92 for one envelope. */
  function Normalize(e: Envelope): (r: Step)
    ensures r.Kept? ==> r.record.id != Null
    ensures r.Kept? ==> |r.notes| <= 1
  {
    if !IsChange(e.op) then Skipped
    else
      match Snapshot(e)
      case None => Skipped
      case Some(data) =>
        if |data| == 0 then Skipped
        else if Field(data, "id") == Null then Dropped(NullId(data))
        else
          var token := Field(data, "price");
          var outcome := DecimalCodec.Classify(token);
          var price := DecimalCodec.DecodeDecimal(token);
          Kept(Record(Field(data, "id"), Field(data, "name"), Field(data, "description"), price),
               if outcome.Failed? then [BadPrice(token)] else [])
  }

  /** The records one step contributes. */
  function Emitted(s: Step): seq<Record>
  {
    if s.Kept? then [s.record] else []
  }

  /** The warnings one step prints. */
  function Notes(s: Step): seq<Diagnostic>
  {
    match s
    case Skipped => []
    case Dropped(d) => [d]
    case Kept(_, notes) => notes
  }

  /** `transformed_data` after the loop has run over `batch`. */
  function NormalizeAll(batch: seq<Envelope>): seq<Record>
  {
    if |batch| == 0 then []
    else NormalizeAll(batch[..|batch| - 1]) + Emitted(Normalize(batch[|batch| - 1]))
  }

  /** Every warning the loop prints over `batch`, in order. */
  function Diagnostics(batch: seq<Envelope>): seq<Diagnostic>
  {
    if |batch| == 0 then []
    else Diagnostics(batch[..|batch| - 1]) + Notes(Normalize(batch[|batch| - 1]))
  }

  /** The three checks of lines 72, 76 and 80 that an envelope must pass
      to produce a record. */
  predicate Passes(e: Envelope)
  {
    && IsChange(e.op)
    && Snapshot(e).Some?
    && |Snapshot(e).value| > 0
    && Field(Snapshot(e).value, "id") != Null
  }

  /** The positions of the envelopes that pass, in increasing order. */
  function PassingPositions(batch: seq<Envelope>): seq<nat>
  {
    if |batch| == 0 then []
    else PassingPositions(batch[..|batch| - 1]) + (if Passes(batch[|batch| - 1]) then [|batch| - 1] else [])
  }

  /** What a passing envelope becomes. */
  function RecordOf(e: Envelope): Record
    requires Passes(e)
  {
    var data := Snapshot(e).value;
    Record(Field(data, "id"), Field(data, "name"), Field(data, "description"),
           DecimalCodec.DecodeDecimal(Field(data, "price")))
  }

  /** One envelope: it yields a record exactly when it passes the three
      checks, and the record carries its snapshot's fields and decoded price. */
  lemma NormalizeKeepsPassing(e: Envelope)
    ensures Normalize(e).Kept? <==> Passes(e)
    ensures Passes(e) ==> Normalize(e).record == RecordOf(e)
  {
  }

  /** An envelope that is not a create, update or delete (a snapshot read
      "r", say, or one without `op`) yields nothing and prints nothing. */
  lemma NonChangeIsSilent(e: Envelope)
    requires !IsChange(e.op)
    ensures Normalize(e) == Skipped && Notes(Normalize(e)) == []
  {
  }

  /** A change whose snapshot is absent or empty is dropped without a warning. */
  lemma EmptySnapshotIsSilent(e: Envelope)
    requires IsChange(e.op)
    requires Snapshot(e).None? || |Snapshot(e).value| == 0
    ensures Normalize(e) == Skipped
  {
  }

  /** A change whose snapshot has no id, or a null one, is dropped with
      exactly one warning, which names that snapshot. */
  lemma NullIdWarnsOnce(e: Envelope)
    requires IsChange(e.op) && Snapshot(e).Some? && |Snapshot(e).value| > 0
    requires Field(Snapshot(e).value, "id") == Null
    ensures Emitted(Normalize(e)) == []
    ensures Notes(Normalize(e)) == [NullId(Snapshot(e).value)]
  {
  }

  /** A delete reads only `before`: replacing `after` changes nothing. */
  lemma DeleteReadsBefore(e: Envelope, other: Option<Row>)
    requires e.op == Str("d")
    ensures Normalize(e.(after := other)) == Normalize(e)
  {
  }

  /** A create or update reads only `after`: replacing `before` changes nothing. */
  lemma UpsertReadsAfter(e: Envelope, other: Option<Row>)
    requires e.op == Str("c") || e.op == Str("u")
    ensures Normalize(e.(before := other)) == Normalize(e)
  {
  }

  /** The envelope with the price field of the snapshot it reads set to `token`. */
  function WithPrice(e: Envelope, token: Value): (e': Envelope)
    requires Snapshot(e).Some?
    ensures e'.op == e.op && Snapshot(e') == Some(Snapshot(e).value["price" := token])
    ensures if e.op == Str("c") || e.op == Str("u") then e'.before == e.before else e'.after == e.after
  {
    var data := Snapshot(e).value["price" := token];
    if e.op == Str("c") || e.op == Str("u") then e.(after := Some(data)) else e.(before := Some(data))
  }

  /** The price never decides whether a row is kept: with any other price
      token the envelope is still kept, with the same id, name and
      description; a token that fails to decode only nulls the price and
      adds one warning. */
  lemma PriceNeverDrops(e: Envelope, token: Value)
    requires Passes(e)
    ensures Normalize(WithPrice(e, token)).Kept?
    ensures Normalize(WithPrice(e, token)).record.(price := None) == Normalize(e).record.(price := None)
    ensures Normalize(WithPrice(e, token)).record.price == DecimalCodec.DecodeDecimal(token)
    ensures Notes(Normalize(WithPrice(e, token))) == (if DecimalCodec.Classify(token).Failed? then [BadPrice(token)] else [])
  {
    var data := Snapshot(e).value;
    var data' := data["price" := token];
    assert Field(data', "id") == Field(data, "id");
    assert Field(data', "name") == Field(data, "name");
    assert Field(data', "description") == Field(data, "description");
    assert Field(data', "price") == token;
    assert |data'| > 0 by {
      assert "price" in data';
    }
  }

  /** Going from the first `i` envelopes to the first `i + 1` adds what
      envelope `i` contributes, records and warnings alike. */
  lemma NormalizeStep(batch: seq<Envelope>, i: nat)
    requires i < |batch|
    ensures NormalizeAll(batch[..i + 1]) == NormalizeAll(batch[..i]) + Emitted(Normalize(batch[i]))
    ensures Diagnostics(batch[..i + 1]) == Diagnostics(batch[..i]) + Notes(Normalize(batch[i]))
  {
    assert batch[..i + 1][..i] == batch[..i];
    assert batch[..i + 1][i] == batch[i];
  }

  /** The normalizer distributes over a split of the batch: normalizing
      two halves one after the other is normalizing the whole. */
  lemma {:induction false} NormalizeAllAppend(a: seq<Envelope>, b: seq<Envelope>)
    ensures NormalizeAll(a + b) == NormalizeAll(a) + NormalizeAll(b)
    decreases |b|
  {
    if |b| == 0 {
      assert a + b == a;
    } else {
      var b' := b[..|b| - 1];
      var last := b[|b| - 1];
      assert (a + b)[..|a + b| - 1] == a + b';
      assert (a + b)[|a + b| - 1] == last;
      NormalizeAllAppend(a, b');
      var out := Emitted(Normalize(last));
      assert NormalizeAll(a + b) == NormalizeAll(a) + NormalizeAll(b') + out;
      assert NormalizeAll(b) == NormalizeAll(b') + out;
    }
  }

  /** The same for the warnings. */
  lemma {:induction false} DiagnosticsAppend(a: seq<Envelope>, b: seq<Envelope>)
    ensures Diagnostics(a + b) == Diagnostics(a) + Diagnostics(b)
    decreases |b|
  {
    if |b| == 0 {
      assert a + b == a;
    } else {
      var b' := b[..|b| - 1];
      var last := b[|b| - 1];
      assert (a + b)[..|a + b| - 1] == a + b';
      assert (a + b)[|a + b| - 1] == last;
      DiagnosticsAppend(a, b');
      var out := Notes(Normalize(last));
      assert Diagnostics(a + b) == Diagnostics(a) + Diagnostics(b') + out;
      assert Diagnostics(b) == Diagnostics(b') + out;
    }
  }

  /** The positions of the passing envelopes are in range, strictly
      increasing, and name exactly the envelopes that pass. */
  lemma {:induction false} PassingPositionsExact(batch: seq<Envelope>)
    ensures forall k :: 0 <= k < |PassingPositions(batch)| ==> PassingPositions(batch)[k] < |batch|
    ensures forall k, l :: 0 <= k < l < |PassingPositions(batch)| ==> PassingPositions(batch)[k] < PassingPositions(batch)[l]
    ensures forall j :: 0 <= j < |batch| ==> (j in PassingPositions(batch) <==> Passes(batch[j]))
  {
    if |batch| > 0 {
      var init := batch[..|batch| - 1];
      PassingPositionsExact(init);
      assert forall j :: 0 <= j < |init| ==> batch[j] == init[j];
    }
  }

  /** Order and content: the normalized batch is the records of the
      passing envelopes, one each, in the order they arrived. */
  lemma {:induction false} NormalizeAllIsFilterMap(batch: seq<Envelope>)
    ensures |NormalizeAll(batch)| == |PassingPositions(batch)|
    ensures forall k :: 0 <= k < |NormalizeAll(batch)| ==>
              PassingPositions(batch)[k] < |batch|
              && Passes(batch[PassingPositions(batch)[k]])
              && NormalizeAll(batch)[k] == RecordOf(batch[PassingPositions(batch)[k]])
  {
    if |batch| > 0 {
      var init := batch[..|batch| - 1];
      var last := batch[|batch| - 1];
      NormalizeAllIsFilterMap(init);
      PassingPositionsExact(init);
      NormalizeKeepsPassing(last);
      assert forall j :: 0 <= j < |init| ==> batch[j] == init[j];
    }
  }

  /** The batch shrinks or keeps its length, and every record that comes
      out has a non-null id. */
  lemma NormalizeAllBounds(batch: seq<Envelope>)
    ensures |NormalizeAll(batch)| <= |batch|
    ensures forall r :: r in NormalizeAll(batch) ==> r.id != Null
  {
    NormalizeAllIsFilterMap(batch);
    PassingPositionsExact(batch);
    PositionsShorter(PassingPositions(batch), |batch|);
  }

  /** A strictly increasing sequence of positions below `n` has at most `n` entries. */
  lemma {:induction false} PositionsShorter(ps: seq<nat>, n: nat)
    requires forall k :: 0 <= k < |ps| ==> ps[k] < n
    requires forall k, l :: 0 <= k < l < |ps| ==> ps[k] < ps[l]
    ensures |ps| <= n
    decreases n
  {
    if |ps| > 0 {
      var init := ps[..|ps| - 1];
      assert forall k :: 0 <= k < |init| ==> init[k] < ps[|ps| - 1] < n;
      PositionsShorter(init, n - 1);
    }
  }

  /** The number of envelopes whose snapshot is there but lacks an id. */
  function NullIdCount(batch: seq<Envelope>): nat
  {
    if |batch| == 0 then 0
    else
      var e := batch[|batch| - 1];
      NullIdCount(batch[..|batch| - 1])
      + (if IsChange(e.op) && Snapshot(e).Some? && |Snapshot(e).value| > 0 && Field(Snapshot(e).value, "id") == Null then 1 else 0)
  }

  /** Warnings about missing ids: one per envelope dropped for a null id. */
  function NullIdWarnings(ds: seq<Diagnostic>): nat
  {
    if |ds| == 0 then 0 else NullIdWarnings(ds[..|ds| - 1]) + (if ds[|ds| - 1].NullId? then 1 else 0)
  }

  lemma {:induction false} NullIdWarningsAppend(a: seq<Diagnostic>, b: seq<Diagnostic>)
    ensures NullIdWarnings(a + b) == NullIdWarnings(a) + NullIdWarnings(b)
    decreases |b|
  {
    if |b| == 0 {
      assert a + b == a;
    } else {
      assert (a + b)[..|a + b| - 1] == a + b[..|b| - 1];
      NullIdWarningsAppend(a, b[..|b| - 1]);
    }
  }

  /** The null-id warnings printed over a batch are exactly one per
      envelope dropped for its id. */
  lemma {:induction false} NullIdWarningsCount(batch: seq<Envelope>)
    ensures NullIdWarnings(Diagnostics(batch)) == NullIdCount(batch)
  {
    if |batch| > 0 {
      var init := batch[..|batch| - 1];
      var notes := Notes(Normalize(batch[|batch| - 1]));
      NullIdWarningsCount(init);
      NullIdWarningsAppend(Diagnostics(init), notes);
      assert notes == [] || |notes| == 1;
      if |notes| == 1 {
        assert notes == [] + [notes[0]];
      }
    }
  }

  /** A batch of snapshot reads (or of anything but changes) yields no
      records and no warnings. */
  lemma {:induction false} ReadsOnlyBatchIsEmpty(batch: seq<Envelope>)
    requires forall k :: 0 <= k < |batch| ==> !IsChange(batch[k].op)
    ensures NormalizeAll(batch) == [] && Diagnostics(batch) == []
  {
    if |batch| > 0 {
      ReadsOnlyBatchIsEmpty(batch[..|batch| - 1]);
    }
  }
}
