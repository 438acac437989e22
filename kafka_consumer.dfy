/** The verification service's consumer: `startConsumer`, and the
    `eachMessage` handler that copies issuance events into the table. */
module KafkaConsumer {
  import opened Wrappers
  import opened JsValues
  import opened EventChannel
  import opened ReplicaDb

  /** Why the handler rejects a message. */
  datatype HandlerError =
    | MalformedJson   // `JSON.parse` throws a SyntaxError
    | NullEvent       // the value parses to `null`, so `data.userid` throws a TypeError

  /** How one call of the handler ends. `Processed` means the insert was
      issued; the handler does not await it, so it resolves whatever the
      insert's own result. */
  datatype HandlerOutcome = Skipped | Threw(error: HandlerError) | Processed(args: InsertArgs)

  /** The insert arguments the handler takes from a parsed event: the
      event's `userid`, the serialization of its `payload`, its `workerId`
      and its `timestamp`, each passed on as it is, `undefined` included. */
  function EventArgs(data: Json): InsertArgs {
    InsertArgs(Get(data, "userid"), StringifyValue(Get(data, "payload")), Get(data, "workerId"), Get(data, "timestamp"))
  }

  /** The decision of `eachMessage` for a message value (None is a `null`
      or `undefined` value; an empty buffer is a present, unparseable text). */
  function EachMessage(value: Option<Text>): (r: HandlerOutcome)
    ensures r.Skipped? <==> value.None?
    ensures r == Threw(MalformedJson) <==> value.Some? && Parse(value.value).None?
    ensures r == Threw(NullEvent) <==> value.Some? && Parse(value.value) == Some(JNull)
    ensures r.Processed? ==> value.Some? && Parse(value.value).Some? && r.args == EventArgs(Parse(value.value).value)
  {
    match value
    case None => Skipped
    case Some(text) =>
      match Parse(text)
      case None => Threw(MalformedJson)
      case Some(data) => if data == JNull then Threw(NullEvent) else Processed(EventArgs(data))
  }

  /** The rows' column values one message adds to the table: one credential
      when an insert is issued and passes the NOT NULL checks, none otherwise. */
  function Contributes(value: Option<Text>): (r: seq<Credential>)
    ensures |r| <= 1
    ensures r != [] <==> EachMessage(value).Processed? && Admit(EachMessage(value).args).Admitted?
    ensures r != [] ==> r[0] == Admit(EachMessage(value).args).cred
  {
    match EachMessage(value)
    case Processed(args) => (match Admit(args) case Admitted(cred) => [cred] case Refused(_) => [])
    case _ => []
  }

  /** What a sequence of deliveries adds to the table, in delivery order. */
  function Replicated(values: seq<Option<Text>>): (r: seq<Credential>)
    ensures |r| <= |values|
    decreases |values|
  {
    if values == [] then [] else Contributes(values[0]) + Replicated(values[1..])
  }

  lemma {:induction false} ReplicatedAppend(xs: seq<Option<Text>>, ys: seq<Option<Text>>)
    ensures Replicated(xs + ys) == Replicated(xs) + Replicated(ys)
    decreases |xs|
  {
    if xs == [] {
      assert xs + ys == ys;
    } else {
      assert (xs + ys)[1..] == xs[1..] + ys;
      ReplicatedAppend(xs[1..], ys);
    }
  }

  /** The positions of the messages of a delivery sequence that are
      processed and pass the NOT NULL checks. */
  function AdmittedPositions(values: seq<Option<Text>>): set<nat> {
    set i: nat | i < |values| && Contributes(values[i]) != []
  }

  /** The table gains one row per admitted message and no others. */
  lemma {:induction false} ReplicatedCount(values: seq<Option<Text>>)
    ensures |Replicated(values)| == |AdmittedPositions(values)|
    decreases |values|
  {
    if values == [] {
      assert AdmittedPositions(values) == {};
    } else {
      var n := |values| - 1;
      var init := values[..n];
      assert values == init + [values[n]];
      assert [values[n]][1..] == [];
      ReplicatedAppend(init, [values[n]]);
      ReplicatedCount(init);
      var tail: set<nat> := if Contributes(values[n]) != [] then {n} else {};
      assert AdmittedPositions(values) == AdmittedPositions(init) + tail;
      assert n !in AdmittedPositions(init);
    }
  }

  /** Messages that are skipped or rejected add nothing: if no message of the
      sequence is processed, the table does not change. */
  lemma {:induction false} UnprocessedAddNothing(values: seq<Option<Text>>)
    requires forall i :: 0 <= i < |values| ==> !EachMessage(values[i]).Processed?
    ensures Replicated(values) == []
    decreases |values|
  {
    if values != [] {
      UnprocessedAddNothing(values[1..]);
    }
  }

  /** A redelivered event is inserted again: the table gets two rows with
      the same values, not one. */
  lemma DuplicateDeliveryAppendsTwice(value: Option<Text>)
    requires Contributes(value) != []
    ensures Replicated([value, value]) == Contributes(value) + Contributes(value)
    ensures |Replicated([value, value])| == 2
  {
    assert [value, value][1..] == [value];
    assert [value][1..] == [];
  }

  /** One call of the `eachMessage` handler on the table. */
  method HandleMessage(table: CredentialTable, value: Option<Text>) returns (outcome: HandlerOutcome)
    requires table.Valid()
    modifies table
    ensures table.Valid()
    ensures outcome == EachMessage(value)
    ensures table.rows == old(table.rows) + Numbered(old(table.nextId), Contributes(value))
    ensures table.nextId == old(table.nextId) + |Contributes(value)|
  {
    if value.None? {
      return Skipped;
    }
    var data := Parse(value.value);
    if data.None? {
      return Threw(MalformedJson);
    }
    if data.value == JNull {
      return Threw(NullEvent);
    }
    var args := EventArgs(data.value);
    var inserted := table.Insert(args);
    outcome := Processed(args);
  }

  /** The handler run on each delivered message in turn. A handler that
      throws fails only its own message; a redelivery is one more element
      of `values`. */
  method DeliverAll(table: CredentialTable, values: seq<Option<Text>>) returns (outcomes: seq<HandlerOutcome>)
    requires table.Valid()
    modifies table
    ensures table.Valid()
    ensures |outcomes| == |values|
    ensures forall i :: 0 <= i < |values| ==> outcomes[i] == EachMessage(values[i])
    ensures table.rows == old(table.rows) + Numbered(old(table.nextId), Replicated(values))
    ensures table.nextId == old(table.nextId) + |Replicated(values)|
  {
    ghost var start, before := table.nextId, table.rows;
    outcomes := [];
    var i := 0;
    while i < |values|
      invariant 0 <= i <= |values|
      invariant table.Valid()
      invariant |outcomes| == i
      invariant forall j :: 0 <= j < i ==> outcomes[j] == EachMessage(values[j])
      invariant table.rows == before + Numbered(start, Replicated(values[..i]))
      invariant table.nextId == start + |Replicated(values[..i])|
    {
      var outcome := HandleMessage(table, values[i]);
      DeliveryStep(before, start, values, i, table.rows);
      outcomes := outcomes + [outcome];
      i := i + 1;
    }
    assert values[..i] == values;
  }

  lemma ReplicatedStep(values: seq<Option<Text>>, i: nat)
    requires i < |values|
    ensures Replicated(values[..i + 1]) == Replicated(values[..i]) + Contributes(values[i])
  {
    assert values[..i + 1] == values[..i] + [values[i]];
    assert [values[i]][1..] == [];
    ReplicatedAppend(values[..i], [values[i]]);
  }

  /** The rows after handling message `i` are the rows for the first
      `i + 1` messages. */
  lemma DeliveryStep(before: seq<Row>, start: nat, values: seq<Option<Text>>, i: nat, rows: seq<Row>)
    requires i < |values|
    requires rows == before + Numbered(start, Replicated(values[..i]))
                    + Numbered(start + |Replicated(values[..i])|, Contributes(values[i]))
    ensures rows == before + Numbered(start, Replicated(values[..i + 1]))
    ensures |Replicated(values[..i + 1])| == |Replicated(values[..i])| + |Contributes(values[i])|
  {
    ReplicatedStep(values, i);
    NumberedAppend(start, Replicated(values[..i]), Contributes(values[i]));
  }

  /** The calls `startConsumer` makes on the consumer client. */
  datatype ConsumerCall = Connect | Subscribe(topic: string, fromBeginning: bool) | Run

  const ListeningLog: string := "Verification service listening to credential.issued..."
  const FailureLog: string := "Failed to connect to Kafka consumer"

  /** `startConsumer`: connect, subscribe to the topic from the beginning,
      then run the handler; each step may reject. The first rejection skips
      the later steps and is logged; nothing reaches the caller. */
  method StartConsumer(connectFails: bool, subscribeFails: bool, runFails: bool)
    returns (calls: seq<ConsumerCall>, log: seq<string>)
    ensures calls != [] && calls <= [Connect, Subscribe(Topic, true), Run]
    ensures Subscribe(Topic, true) in calls <==> !connectFails
    ensures Run in calls <==> !connectFails && !subscribeFails
    ensures FailureLog in log <==> connectFails || subscribeFails || runFails
    ensures ListeningLog in log <==> !connectFails && !subscribeFails
    ensures |log| <= 2 && (|log| == 2 ==> log == [ListeningLog, FailureLog])
  {
    calls := [Connect];
    log := [];
    if connectFails {
      log := [FailureLog];
      return;
    }
    calls := calls + [Subscribe(Topic, true)];
    if subscribeFails {
      log := [FailureLog];
      return;
    }
    log := [ListeningLog];
    calls := calls + [Run];
    if runFails {
      log := log + [FailureLog];
    }
  }
}
