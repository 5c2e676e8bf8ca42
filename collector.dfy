/** `consume_from_kafka` (airflow/dags/debezium_to_bigquery.py, lines
    25-55) and the readiness sensor `check_kafka_messages` (lines 57-61):
    the batch collector polls until it holds `batch_size` envelopes or its
    30-second window has passed, and leaves the batch for the next task
    only when it is not empty. */
module Collector {
  import opened Wrappers
  import opened Cdc

  /** The collection window of line 43, in seconds. */
  const WindowSeconds := 30

  /** What one `consumer.poll` returns: for each topic partition, its
      records' payloads in order. */
  type Poll = seq<seq<Envelope>>

  /** The payloads of one poll in the order the nested loops of lines
      46-48 visit them. */
  function Flatten(poll: Poll): seq<Envelope>
  {
    if |poll| == 0 then [] else Flatten(poll[..|poll| - 1]) + poll[|poll| - 1]
  }

  /** Everything a run of polls delivers, poll after poll. */
  function Gathered(polls: seq<Poll>): seq<Envelope>
  {
    if |polls| == 0 then [] else Gathered(polls[..|polls| - 1]) + Flatten(polls[|polls| - 1])
  }

  /** Polls deliver their payloads in order: gathering two runs of polls
      one after the other gathers their concatenation. */
  lemma {:induction false} GatheredAppend(a: seq<Poll>, b: seq<Poll>)
    ensures Gathered(a + b) == Gathered(a) + Gathered(b)
    decreases |b|
  {
    if |b| == 0 {
      assert a + b == a;
    } else {
      var b', last := b[..|b| - 1], b[|b| - 1];
      assert (a + b)[..|a + b| - 1] == a + b';
      assert (a + b)[|a + b| - 1] == last;
      GatheredAppend(a, b');
      var out := Flatten(last);
      assert Gathered(a + b) == Gathered(a) + Gathered(b') + out;
      assert Gathered(b) == Gathered(b') + out;
    }
  }

  /** What the first `j` polls gathered is a prefix of what the first `k`
      gathered: nothing collected is ever reordered or lost. */
  lemma GatheredPrefix(polls: seq<Poll>, j: nat, k: nat)
    requires j <= k <= |polls|
    ensures Gathered(polls[..j]) <= Gathered(polls[..k])
  {
    assert polls[..k] == polls[..j] + polls[j..k];
    GatheredAppend(polls[..j], polls[j..k]);
  }

  /** The nested loops of lines 46-48: every payload of one poll is
      appended, partition by partition and record by record. */
  method Drain(before: seq<Envelope>, poll: Poll) returns (messages: seq<Envelope>)
    ensures messages == before + Flatten(poll)
  {
    messages := before;
    for p := 0 to |poll|
      invariant messages == before + Flatten(poll[..p])
    {
      var msgs := poll[p];
      assert poll[..p + 1][..p] == poll[..p];
      for m := 0 to |msgs|
        invariant messages == before + Flatten(poll[..p]) + msgs[..m]
      {
        assert msgs[..m + 1] == msgs[..m] + [msgs[m]];
        messages := messages + [msgs[m]];
      }
      assert msgs[..|msgs|] == msgs;
      assert poll[..p + 1][p] == msgs;
    }
    assert poll[..|poll|] == poll;
  }

  /** The accumulation loop of lines 42-48. `polls[j]` is what the
      `j`-th poll returns. `clock[0]` is the reading of line 43 and
      `clock[j + 1]` the reading the loop guard takes before poll `j`; the
      last reading is past the window, which stands for time moving on.
      `made` is the number of polls the loop performs. */
  method ConsumeBatch(polls: seq<Poll>, clock: seq<int>, batchSize: int) returns (messages: seq<Envelope>, made: nat)
    requires |clock| >= 1 && clock[|clock| - 1] >= clock[0] + WindowSeconds
    requires |polls| + 2 >= |clock|
    ensures made + 2 <= |clock| && made <= |polls|
    ensures messages == Gathered(polls[..made])
    ensures forall j :: 0 <= j < made ==> |Gathered(polls[..j])| < batchSize && clock[j + 1] < clock[0] + WindowSeconds
    ensures |messages| >= batchSize || clock[made + 1] >= clock[0] + WindowSeconds
    ensures made > 0 ==> |messages| < batchSize + |Flatten(polls[made - 1])|
  {
    messages := [];
    made := 0;
    var timeout := clock[0] + WindowSeconds;
    while |messages| < batchSize && clock[made + 1] < timeout
      invariant made + 2 <= |clock| && made <= |polls|
      invariant messages == Gathered(polls[..made])
      invariant forall j :: 0 <= j < made ==> |Gathered(polls[..j])| < batchSize && clock[j + 1] < clock[0] + WindowSeconds
      invariant made > 0 ==> |messages| < batchSize + |Flatten(polls[made - 1])|
      decreases |clock| - made
    {
      messages := Drain(messages, polls[made]);
      assert polls[..made + 1][..made] == polls[..made];
      assert polls[..made + 1][made] == polls[made];
      made := made + 1;
    }
  }

  /** The entry of lines 50-54: the batch is pushed only when it is not
      empty; otherwise the key stays unset and a pull finds nothing. */
  function Publish(messages: seq<Envelope>): (entry: Option<seq<Envelope>>)
    ensures entry.Some? ==> entry.value == messages
    ensures entry.Some? <==> |messages| > 0
  {
    if |messages| > 0 then Some(messages) else None
  }

  /** `check_kafka_messages` (line 61): something was pulled and it is not
      an empty list. */
  predicate IsReady(entry: Option<seq<Envelope>>)
  {
    entry.Some? && |entry.value| > 0
  }

  /** The sensor lets the pipeline go on exactly when the collector
      gathered at least one envelope, and then the pulled list is that batch. */
  lemma ReadyIffCollected(messages: seq<Envelope>)
    ensures IsReady(Publish(messages)) <==> messages != []
    ensures IsReady(Publish(messages)) ==> Publish(messages).value == messages
  {
  }

  /** The guard checks the count only before a poll, so one poll can
      carry the batch past its size: with a batch size of one and a
      first poll of two records, both are kept. */
  method Overshoot(e: Envelope) returns (messages: seq<Envelope>)
    ensures |messages| == 2
  {
    var polls: seq<Poll> := [[[e, e]]];
    var made;
    messages, made := ConsumeBatch(polls, [0, 0, WindowSeconds], 1);
    assert made == 1;
    assert polls[..1] == polls && polls[..0] == [];
    assert Flatten([[e, e]]) == [e, e] by {
      assert [[e, e]][..0] == [];
    }
  }
}
