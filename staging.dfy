/** The staging writer: each normalized record becomes one line of JSON
    text (airflow/dags/debezium_to_bigquery.py, lines 95-97), and the
    staged file is those lines, each ended by a line feed. */
module Staging {
  import opened Wrappers
  import opened Decimals
  import opened Json
  import opened Cdc

  const LineFeed: char := '\n'

  /** The price as a JSON number, written exactly: the coefficient's
      digits and, when it is not zero, the exponent (`1999e-2`). */
  function PriceText(price: Option<Decimal>): (s: string)
    ensures Printable(s)
  {
    match price
    case None => "null"
    case Some(d) =>
      (if d.negative then "-" else "") + NatDigits(d.coefficient)
      + (if d.exponent == 0 then "" else "e" + IntText(d.exponent))
  }

  /** The fixed text between the values of a line is printable. */
  lemma KeysPrintable()
    ensures Printable("{\"id\": ") && Printable(", \"name\": ")
    ensures Printable(", \"description\": ") && Printable(", \"price\": ") && Printable("}")
  {
  }

  /** `json.dumps(row)` for the dict of lines 86-91, keys in insertion order. */
  function RecordLine(r: Record): (s: string)
    ensures Printable(s)
  {
    var id, name, description, price := Dumps(r.id), Dumps(r.name), Dumps(r.description), PriceText(r.price);
    var p4 := price + "}";
    var p3 := description + (", \"price\": " + p4);
    var p2 := name + (", \"description\": " + p3);
    var p1 := id + (", \"name\": " + p2);
    KeysPrintable();
    PrintableAppend(price, "}");
    PrintableAppend(", \"price\": ", p4);
    PrintableAppend(description, ", \"price\": " + p4);
    PrintableAppend(", \"description\": ", p3);
    PrintableAppend(name, ", \"description\": " + p3);
    PrintableAppend(", \"name\": ", p2);
    PrintableAppend(id, ", \"name\": " + p2);
    PrintableAppend("{\"id\": ", p1);
    "{\"id\": " + p1
  }

  /** The lines written for `rows`, one per record, in order. */
  function Lines(rows: seq<Record>): (lines: seq<string>)
    ensures |lines| == |rows|
  {
    if |rows| == 0 then [] else Lines(rows[..|rows| - 1]) + [RecordLine(rows[|rows| - 1])]
  }

  /** Line `k` of the file is the JSON text of record `k`. */
  lemma {:induction false} LinesAt(rows: seq<Record>, k: nat)
    requires k < |rows|
    ensures Lines(rows)[k] == RecordLine(rows[k])
  {
    if k < |rows| - 1 {
      LinesAt(rows[..|rows| - 1], k);
    }
  }

  lemma LinesPrintable(rows: seq<Record>)
    ensures AllPrintable(Lines(rows))
  {
    forall k | 0 <= k < |rows|
      ensures Printable(Lines(rows)[k])
    {
      LinesAt(rows, k);
    }
  }

  predicate AllPrintable(lines: seq<string>)
  {
    forall k :: 0 <= k < |lines| ==> Printable(lines[k])
  }

  /** Lines put one after the other, each followed by a line feed. */
  function Terminated(lines: seq<string>): string
  {
    if |lines| == 0 then "" else Terminated(lines[..|lines| - 1]) + lines[|lines| - 1] + [LineFeed]
  }

  /** The text of the staged file. */
  function Artifact(rows: seq<Record>): string
  {
    Terminated(Lines(rows))
  }

  /** The position of the first line feed, or the length when there is none. */
  function LineEnd(text: string): (i: nat)
    ensures i <= |text|
    ensures i < |text| ==> text[i] == LineFeed
    ensures forall j :: 0 <= j < i ==> text[j] != LineFeed
  {
    if |text| == 0 || text[0] == LineFeed then 0 else 1 + LineEnd(text[1..])
  }

  /** How a reader of the staged file cuts it into lines at line feeds;
      a final line without a line feed still counts. */
  function SplitLines(text: string): seq<string>
    decreases |text|
  {
    if |text| == 0 then []
    else
      var i := LineEnd(text);
      [text[..i]] + (if i < |text| then SplitLines(text[i + 1..]) else [])
  }

  lemma {:induction false} LineEndOf(line: string, rest: string)
    requires Printable(line)
    ensures LineEnd(line + [LineFeed] + rest) == |line|
  {
    if |line| > 0 {
      assert (line + [LineFeed] + rest)[1..] == line[1..] + [LineFeed] + rest;
      LineEndOf(line[1..], rest);
    }
  }

  /** Cutting `line`, a line feed and more text gives `line` and then the
      lines of the rest. */
  lemma SplitLinesCons(line: string, rest: string)
    requires Printable(line)
    ensures SplitLines(line + [LineFeed] + rest) == [line] + SplitLines(rest)
  {
    var text := line + [LineFeed] + rest;
    LineEndOf(line, rest);
    assert text[..|line|] == line;
    assert text[|line| + 1..] == rest;
  }

  /** Terminating a list of lines, seen from the front. */
  lemma {:induction false} TerminatedFront(line: string, lines: seq<string>)
    ensures Terminated([line] + lines) == line + [LineFeed] + Terminated(lines)
    decreases |lines|
  {
    if |lines| > 0 {
      var init := lines[..|lines| - 1];
      var last := lines[|lines| - 1];
      var all := [line] + lines;
      assert all[..|all| - 1] == [line] + init;
      assert all[|all| - 1] == last;
      TerminatedFront(line, init);
      calc {
        Terminated(all);
        Terminated([line] + init) + last + [LineFeed];
        line + [LineFeed] + Terminated(init) + last + [LineFeed];
        line + [LineFeed] + (Terminated(init) + last + [LineFeed]);
        line + [LineFeed] + Terminated(lines);
      }
    } else {
      assert [line] + lines == [line];
      assert [line][..0] == [];
    }
  }

  /** Reading terminated lines back gives exactly those lines, when none
      of them holds a line break. */
  lemma {:induction false} SplitTerminated(lines: seq<string>)
    requires AllPrintable(lines)
    ensures SplitLines(Terminated(lines)) == lines
    decreases |lines|
  {
    if |lines| > 0 {
      TerminatedFront(lines[0], lines[1..]);
      assert [lines[0]] + lines[1..] == lines;
      SplitLinesCons(lines[0], Terminated(lines[1..]));
      SplitTerminated(lines[1..]);
    }
  }

  /** Reading the staged file back line by line gives exactly the lines
      written: one per record, in the records' order, each one whole. */
  lemma SplitArtifact(rows: seq<Record>)
    ensures SplitLines(Artifact(rows)) == Lines(rows)
    ensures |SplitLines(Artifact(rows))| == |rows|
  {
    LinesPrintable(rows);
    SplitTerminated(Lines(rows));
  }

  /** The number of line feeds in a text. */
  function LineFeeds(text: string): nat
  {
    if |text| == 0 then 0 else LineFeeds(text[..|text| - 1]) + (if text[|text| - 1] == LineFeed then 1 else 0)
  }

  lemma {:induction false} LineFeedsPrintable(s: string)
    requires Printable(s)
    ensures LineFeeds(s) == 0
  {
    if |s| > 0 {
      LineFeedsPrintable(s[..|s| - 1]);
    }
  }

  lemma {:induction false} LineFeedsAppend(a: string, b: string)
    ensures LineFeeds(a + b) == LineFeeds(a) + LineFeeds(b)
    decreases |b|
  {
    if |b| == 0 {
      assert a + b == a;
    } else {
      assert (a + b)[..|a + b| - 1] == a + b[..|b| - 1];
      LineFeedsAppend(a, b[..|b| - 1]);
    }
  }

  /** The staged file holds exactly one line feed per record. */
  lemma {:induction false} TerminatedLineFeeds(lines: seq<string>)
    requires AllPrintable(lines)
    ensures LineFeeds(Terminated(lines)) == |lines|
  {
    if |lines| > 0 {
      var init := lines[..|lines| - 1];
      var line := lines[|lines| - 1];
      TerminatedLineFeeds(init);
      LineFeedsAppend(Terminated(init) + line, [LineFeed]);
      LineFeedsAppend(Terminated(init), line);
      LineFeedsPrintable(line);
      assert LineFeeds([LineFeed]) == 1 by {
        assert [LineFeed][..0] == [];
      }
    }
  }

  lemma ArtifactLineFeeds(rows: seq<Record>)
    ensures LineFeeds(Artifact(rows)) == |rows|
  {
    LinesPrintable(rows);
    TerminatedLineFeeds(Lines(rows));
  }
}
