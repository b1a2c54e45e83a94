/**
 * What happens when the worker consumes a message the intake handler made.
 * The handler writes the keys `deviceCode, time, Level, Flow, Energy`; the
 * worker reads `deviceId, timestamp, level`, so every column it inserts is
 * `undefined`, the `NOT NULL` table rejects the row, and the message is never
 * deleted.
 */
module Pipeline {
  import opened JsValues
  import opened Intake
  import opened Worker

  /** The worker reads `undefined` for all three keys of a handler-made body. */
  lemma ProducerBodyReadsUndefined(p: Payload)
    requires IsValidPayload(p)
    ensures ParseRow(MessageBody(p)) == Some(Row(Undefined, Undefined, Undefined))
  {
    var f := MessageBody(p).value.fields;
    assert "deviceId" !in f && "timestamp" !in f && "level" !in f;
  }

  /** The insert of a handler-made message always fails, whatever the database
      and the queue do. */
  lemma ProducerMessageNeverInserted(tableExists: bool, p: Payload, receipt: nat, f: Faults)
    requires IsValidPayload(p)
    ensures StepOf(tableExists, Msg(receipt, MessageBody(p)), f) == InsertFailed
  {
    ProducerBodyReadsUndefined(p);
  }

  /** A handler-made message in a batch stops the batch at itself or earlier,
      and stays in the queue. */
  lemma ProducerMessageHaltsBatch(s: State, msgs: seq<Msg>, faults: seq<Faults>, j: nat, p: Payload)
    requires |faults| == |msgs| && ReceiveFits(msgs, s.queue)
    requires IsValidPayload(p) && j < |msgs| && msgs[j].body == MessageBody(p)
    ensures Completed(s.tableExists, msgs, faults) <= j
    ensures msgs[j] in RunBatch(s, msgs, faults).queue
  {
    ProducerMessageNeverInserted(s.tableExists, p, msgs[j].receipt, faults[j]);
    assert msgs[j] == Msg(msgs[j].receipt, MessageBody(p));
    PendingStayQueued(s, msgs, faults, j);
  }

  /** A reading the handler queued (whether it then answered 200 or, because
      the log line threw, 500) is, when the worker receives it, neither stored
      nor deleted: the cycle leaves the rows and the queue as they were. */
  lemma AcceptedReadingNeverStored(p: Payload, bodies: seq<Body>, s: State, createSucceeds: bool,
                                   receipt: nat, f: Faults)
    requires IsValidPayload(p)
    ensures var queued := Handle(p, true, bodies).queue;
            var r := Cycle(s, createSucceeds, Messages([Msg(receipt, queued[|queued| - 1])]), [f]);
            r.rows == s.rows && r.queue == s.queue && r.effects == s.effects
  {
    var queued := Handle(p, true, bodies).queue;
    assert queued[|queued| - 1] == MessageBody(p);
    ProducerMessageNeverInserted(CreateTable(s.tableExists, createSucceeds), p, receipt, f);
  }
}
