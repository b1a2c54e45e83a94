/**
 * The ingestion worker's polling cycle: ensure the `water_data` table exists,
 * receive up to ten messages, and for each message in turn parse its body,
 * insert one row and then delete the message. The first exception of the
 * batch (parse, insert or delete) ends the cycle.
 */
module Worker {
  import opened JsValues

  /** The receive request asks for at most this many messages. */
  const MaxNumberOfMessages: nat := 10

  /** A queue message: its receipt handle (used only to delete it) and its body. */
  datatype Msg = Msg(receipt: nat, body: Body)

  /** A `water_data` row: the three columns the worker writes. The serial `id`
      is left to the database. */
  datatype Row = Row(deviceId: JsValue, timestamp: JsValue, level: JsValue)

  /** What `receiveMessage` yields: an exception, a reply without `Messages`,
      or the messages in the order the queue returned them. */
  datatype Received = ReceiveFailed | NoMessages | Messages(msgs: seq<Msg>)

  /** Whether the database rejects the insert and the queue rejects the delete
      of one message, for reasons outside the model (connection, permissions,
      column types). */
  datatype Faults = Faults(insertFails: bool, deleteFails: bool)

  /** The external effects of one cycle, in the order they happen. */
  datatype Effect = Inserted(receipt: nat, row: Row) | Deleted(receipt: nat)

  /** The worker's view of the world: the table's rows, the queue, whether the
      table exists, and the trace of effects so far. */
  datatype State = State(rows: seq<Row>, queue: seq<Msg>, tableExists: bool, effects: seq<Effect>)

  /** How the handling of one message ends. */
  datatype Step = ParseFailed | InsertFailed | DeleteFailed(row: Row) | Processed(row: Row)

  /** `const { deviceId, timestamp, level } = value`: destructuring `null` or
      `undefined` throws; any other non-object has none of the three keys. */
  function Destructure(v: JsValue): (r: Option<Row>)
    ensures r.None? <==> v == Undefined || v == Null
    ensures v.Obj? ==> r == Some(Row(Get(v.fields, "deviceId"), Get(v.fields, "timestamp"), Get(v.fields, "level")))
    ensures !v.Obj? && r.Some? ==> r == Some(Row(Undefined, Undefined, Undefined))
  {
    match v
    case Undefined => None
    case Null => None
    case Obj(m) => Some(Row(Get(m, "deviceId"), Get(m, "timestamp"), Get(m, "level")))
    case _ => Some(Row(Undefined, Undefined, Undefined))
  }

  /** `JSON.parse(msg.Body)` followed by the destructuring. */
  function ParseRow(b: Body): (r: Option<Row>)
    ensures r.None? <==> b.NotJson? || b == Json(Null) || b == Json(Undefined)
    ensures b.Json? && !b.value.Obj? && r.Some? ==> r == Some(Row(Undefined, Undefined, Undefined))
    ensures b.Json? && b.value.Obj? ==>
      r == Some(Row(Get(b.value.fields, "deviceId"), Get(b.value.fields, "timestamp"), Get(b.value.fields, "level")))
  {
    match Parse(b)
    case None => None
    case Some(v) => Destructure(v)
  }

  /** pg-promise sends both `null` and `undefined` as SQL NULL. */
  predicate IsSqlNull(v: JsValue)
  {
    v == Null || v == Undefined
  }

  /** The insert succeeds only into an existing table, with none of the three
      `NOT NULL` columns null, and when the database does not fail otherwise. */
  predicate InsertAccepted(tableExists: bool, row: Row, f: Faults)
    ensures InsertAccepted(tableExists, row, f) ==> tableExists && !f.insertFails
    ensures InsertAccepted(tableExists, row, f) ==>
      row.deviceId !in {Undefined, Null} && row.timestamp !in {Undefined, Null} && row.level !in {Undefined, Null}
    ensures (tableExists && !f.insertFails && row.deviceId !in {Undefined, Null}
             && row.timestamp !in {Undefined, Null} && row.level !in {Undefined, Null})
            ==> InsertAccepted(tableExists, row, f)
  {
    tableExists && !IsSqlNull(row.deviceId) && !IsSqlNull(row.timestamp) && !IsSqlNull(row.level)
    && !f.insertFails
  }

  /** A message whose body parses, whose insert is accepted and whose delete
      goes through. */
  predicate Succeeds(tableExists: bool, m: Msg, f: Faults)
  {
    ParseRow(m.body).Some? && InsertAccepted(tableExists, ParseRow(m.body).value, f) && !f.deleteFails
  }

  /** The handling of one message: parse, then insert, then delete. */
  function StepOf(tableExists: bool, m: Msg, f: Faults): (s: Step)
    ensures s == ParseFailed <==> ParseRow(m.body).None?
    ensures s.DeleteFailed? || s.Processed? ==>
      ParseRow(m.body) == Some(s.row) && InsertAccepted(tableExists, s.row, f)
    ensures s.DeleteFailed? <==> ParseRow(m.body).Some? && InsertAccepted(tableExists, ParseRow(m.body).value, f) && f.deleteFails
    ensures s == InsertFailed <==> ParseRow(m.body).Some? && !InsertAccepted(tableExists, ParseRow(m.body).value, f)
    ensures s.Processed? <==> Succeeds(tableExists, m, f)
  {
    match ParseRow(m.body)
    case None => ParseFailed
    case Some(row) =>
      if !InsertAccepted(tableExists, row, f) then InsertFailed
      else if f.deleteFails then DeleteFailed(row)
      else Processed(row)
  }

  /** `deleteMessage`: removes the message with that receipt handle. */
  function DeleteReceipt(q: seq<Msg>, receipt: nat): (r: seq<Msg>)
    ensures |r| <= |q|
  {
    if q == [] then []
    else (if q[0].receipt == receipt then [] else [q[0]]) + DeleteReceipt(q[1..], receipt)
  }

  /** Deleting by receipt handle leaves exactly the messages with another handle. */
  lemma {:induction false} DeleteReceiptMembers(q: seq<Msg>, receipt: nat, m: Msg)
    ensures m in DeleteReceipt(q, receipt) <==> m in q && m.receipt != receipt
    decreases |q|
  {
    if q != [] {
      DeleteReceiptMembers(q[1..], receipt, m);
      assert q == [q[0]] + q[1..];
    }
  }

  /** `createTableIfNotExists`: an existing table is left as it is, and a
      failed create is caught. */
  function CreateTable(tableExists: bool, succeeds: bool): (r: bool)
    ensures tableExists ==> r
    ensures !tableExists ==> (r <==> succeeds)
  {
    tableExists || succeeds
  }

  /** The `for` loop over the received messages, as a specification. */
  function RunBatch(s: State, msgs: seq<Msg>, faults: seq<Faults>): (r: State)
    requires |faults| == |msgs|
    ensures r.tableExists == s.tableExists
    ensures s.rows <= r.rows && s.effects <= r.effects
    decreases |msgs|
  {
    if msgs == [] then s
    else
      match StepOf(s.tableExists, msgs[0], faults[0])
      case ParseFailed => s
      case InsertFailed => s
      case DeleteFailed(row) =>
        s.(rows := s.rows + [row], effects := s.effects + [Inserted(msgs[0].receipt, row)])
      case Processed(row) => RunBatch(AfterProcessed(s, msgs[0], row), msgs[1..], faults[1..])
  }

  /** `processQueue`, as a specification: the table create, then the receive
      and the batch. */
  function Cycle(s: State, createSucceeds: bool, received: Received, faults: seq<Faults>): (r: State)
    requires received.Messages? ==> |faults| == |received.msgs|
    ensures r.tableExists == CreateTable(s.tableExists, createSucceeds)
    ensures !received.Messages? ==> r == s.(tableExists := r.tableExists)
  {
    var created := s.(tableExists := CreateTable(s.tableExists, createSucceeds));
    match received
    case ReceiveFailed => created
    case NoMessages => created
    case Messages(msgs) => RunBatch(created, msgs, faults)
  }

  /** What the queue service promises of a receive reply: no more messages than
      asked for, each one in the queue, and distinct receipt handles. */
  predicate ReceiveFits(msgs: seq<Msg>, queue: seq<Msg>)
  {
    && |msgs| <= MaxNumberOfMessages
    && (forall j :: 0 <= j < |msgs| ==> msgs[j] in queue)
    && (forall i, j :: 0 <= i < j < |msgs| ==> msgs[i].receipt != msgs[j].receipt)
  }

  // ---------------------------------------------------------------------------
  // The batch in closed form

  /** The number of messages handled completely before the first failure. */
  function Completed(tableExists: bool, msgs: seq<Msg>, faults: seq<Faults>): (k: nat)
    requires |faults| == |msgs|
    ensures k <= |msgs|
    ensures forall j :: 0 <= j < k ==> StepOf(tableExists, msgs[j], faults[j]).Processed?
    ensures k < |msgs| ==> !StepOf(tableExists, msgs[k], faults[k]).Processed?
    decreases |msgs|
  {
    if msgs == [] || !StepOf(tableExists, msgs[0], faults[0]).Processed? then 0
    else 1 + Completed(tableExists, msgs[1..], faults[1..])
  }

  /** The rows of messages whose bodies parse. */
  function RowsOf(msgs: seq<Msg>): (rs: seq<Row>)
    requires forall j :: 0 <= j < |msgs| ==> ParseRow(msgs[j].body).Some?
    ensures |rs| == |msgs|
    ensures forall j :: 0 <= j < |msgs| ==> Some(rs[j]) == ParseRow(msgs[j].body)
  {
    if msgs == [] then [] else [ParseRow(msgs[0].body).value] + RowsOf(msgs[1..])
  }

  /** Deleting the messages of a batch one after another. */
  function DeleteAll(q: seq<Msg>, msgs: seq<Msg>): (r: seq<Msg>)
    ensures |r| <= |q|
    decreases |msgs|
  {
    if msgs == [] then q else DeleteAll(DeleteReceipt(q, msgs[0].receipt), msgs[1..])
  }

  /** Deleting a batch leaves exactly the messages whose handle is not in it. */
  lemma {:induction false} DeleteAllMembers(q: seq<Msg>, msgs: seq<Msg>, m: Msg)
    ensures m in DeleteAll(q, msgs) <==> m in q && forall j :: 0 <= j < |msgs| ==> msgs[j].receipt != m.receipt
    decreases |msgs|
  {
    if msgs != [] {
      DeleteReceiptMembers(q, msgs[0].receipt, m);
      DeleteAllMembers(DeleteReceipt(q, msgs[0].receipt), msgs[1..], m);
      assert forall j :: 0 < j < |msgs| ==> msgs[j] == msgs[1..][j - 1];
    }
  }

  /** Insert, then delete, for each message in order. */
  function BatchEffects(msgs: seq<Msg>): (es: seq<Effect>)
    requires forall j :: 0 <= j < |msgs| ==> ParseRow(msgs[j].body).Some?
    ensures |es| == 2 * |msgs|
  {
    if msgs == [] then []
    else [Inserted(msgs[0].receipt, ParseRow(msgs[0].body).value), Deleted(msgs[0].receipt)] + BatchEffects(msgs[1..])
  }

  /** The trace of a run of completed messages: message `j` contributes its
      insert at position `2j` and its delete right after it. */
  lemma {:induction false} BatchEffectsShape(msgs: seq<Msg>)
    requires forall j :: 0 <= j < |msgs| ==> ParseRow(msgs[j].body).Some?
    ensures forall j :: 0 <= j < |msgs| ==>
      BatchEffects(msgs)[2 * j] == Inserted(msgs[j].receipt, ParseRow(msgs[j].body).value)
      && BatchEffects(msgs)[2 * j + 1] == Deleted(msgs[j].receipt)
    decreases |msgs|
  {
    if msgs != [] {
      var head := [Inserted(msgs[0].receipt, ParseRow(msgs[0].body).value), Deleted(msgs[0].receipt)];
      var rest := BatchEffects(msgs[1..]);
      BatchEffectsShape(msgs[1..]);
      assert BatchEffects(msgs) == head + rest;
      forall j | 1 <= j < |msgs|
        ensures BatchEffects(msgs)[2 * j] == Inserted(msgs[j].receipt, ParseRow(msgs[j].body).value)
        ensures BatchEffects(msgs)[2 * j + 1] == Deleted(msgs[j].receipt)
      {
        assert msgs[1..][j - 1] == msgs[j];
        assert (head + rest)[2 * j] == rest[2 * (j - 1)];
        assert (head + rest)[2 * j + 1] == rest[2 * (j - 1) + 1];
      }
    }
  }

  /** The row of the message whose insert succeeded but whose delete failed, if any. */
  function Orphan(tableExists: bool, msgs: seq<Msg>, faults: seq<Faults>): (o: seq<Row>)
    requires |faults| == |msgs|
  {
    var k := Completed(tableExists, msgs, faults);
    if k < |msgs| && StepOf(tableExists, msgs[k], faults[k]).DeleteFailed?
    then [StepOf(tableExists, msgs[k], faults[k]).row] else []
  }

  /** The effect trace of the message whose delete failed, if any. */
  function OrphanEffects(tableExists: bool, msgs: seq<Msg>, faults: seq<Faults>): seq<Effect>
    requires |faults| == |msgs|
  {
    var k := Completed(tableExists, msgs, faults);
    if k < |msgs| && StepOf(tableExists, msgs[k], faults[k]).DeleteFailed?
    then [Inserted(msgs[k].receipt, StepOf(tableExists, msgs[k], faults[k]).row)] else []
  }

  /** Handling the first message completely moves the failure point of the
      rest of the batch by one. */
  lemma CompletedStep(tableExists: bool, msgs: seq<Msg>, faults: seq<Faults>)
    requires |faults| == |msgs| && msgs != [] && StepOf(tableExists, msgs[0], faults[0]).Processed?
    ensures Completed(tableExists, msgs, faults) == 1 + Completed(tableExists, msgs[1..], faults[1..])
    ensures Orphan(tableExists, msgs, faults) == Orphan(tableExists, msgs[1..], faults[1..])
    ensures OrphanEffects(tableExists, msgs, faults) == OrphanEffects(tableExists, msgs[1..], faults[1..])
  {
    var k' := Completed(tableExists, msgs[1..], faults[1..]);
    if k' < |msgs| - 1 {
      assert msgs[1..][k'] == msgs[k' + 1] && faults[1..][k'] == faults[k' + 1];
    }
  }

  /** `Completed` is the position of the first message whose parse, insert or
      delete fails: every earlier message succeeds, and that one does not. */
  lemma CompletedIsFirstFailure(tableExists: bool, msgs: seq<Msg>, faults: seq<Faults>)
    requires |faults| == |msgs|
    ensures var k := Completed(tableExists, msgs, faults);
            && (forall j :: 0 <= j < k ==> Succeeds(tableExists, msgs[j], faults[j]))
            && (k < |msgs| ==> !Succeeds(tableExists, msgs[k], faults[k]))
  {
  }

  /** When every message of the batch succeeds, the whole batch is handled. */
  lemma {:induction false} AllSucceedAllCompleted(tableExists: bool, msgs: seq<Msg>, faults: seq<Faults>)
    requires |faults| == |msgs|
    requires forall j :: 0 <= j < |msgs| ==> Succeeds(tableExists, msgs[j], faults[j])
    ensures Completed(tableExists, msgs, faults) == |msgs|
    decreases |msgs|
  {
    if msgs != [] {
      assert Succeeds(tableExists, msgs[0], faults[0]);
      forall j | 0 <= j < |msgs| - 1
        ensures Succeeds(tableExists, msgs[1..][j], faults[1..][j])
      {
        assert msgs[1..][j] == msgs[j + 1] && faults[1..][j] == faults[j + 1];
      }
      AllSucceedAllCompleted(tableExists, msgs[1..], faults[1..]);
    }
  }

  /** The state after a message that was handled completely. */
  function AfterProcessed(s: State, m: Msg, row: Row): State
  {
    s.(rows := s.rows + [row],
       queue := DeleteReceipt(s.queue, m.receipt),
       effects := s.effects + [Inserted(m.receipt, row), Deleted(m.receipt)])
  }

  /** Every effect of a run of completely handled messages names one of them. */
  lemma {:induction false} BatchEffectsReceipts(msgs: seq<Msg>)
    requires forall j :: 0 <= j < |msgs| ==> ParseRow(msgs[j].body).Some?
    ensures forall e :: e in BatchEffects(msgs) ==> exists j :: 0 <= j < |msgs| && e.receipt == msgs[j].receipt
    decreases |msgs|
  {
    if msgs != [] {
      BatchEffectsReceipts(msgs[1..]);
      forall e | e in BatchEffects(msgs) ensures exists j :: 0 <= j < |msgs| && e.receipt == msgs[j].receipt {
        if e.receipt != msgs[0].receipt {
          assert e in BatchEffects(msgs[1..]);
          var j :| 0 <= j < |msgs[1..]| && e.receipt == msgs[1..][j].receipt;
          assert msgs[1..][j] == msgs[j + 1];
        }
      }
    }
  }

  lemma Associative<T>(a: seq<T>, b: seq<T>, c: seq<T>)
    ensures a + b + c == a + (b + c)
  {
  }

  /** A non-empty prefix of a batch is its first message followed by a prefix
      of the rest. */
  lemma PrefixCons(msgs: seq<Msg>, k: nat)
    requires 0 < k <= |msgs|
    ensures msgs[..k] == [msgs[0]] + msgs[1..][..k - 1]
  {
  }

  lemma RowsOfCons(m: Msg, rest: seq<Msg>)
    requires ParseRow(m.body).Some?
    requires forall j :: 0 <= j < |rest| ==> ParseRow(rest[j].body).Some?
    ensures RowsOf([m] + rest) == [ParseRow(m.body).value] + RowsOf(rest)
  {
    assert ([m] + rest)[1..] == rest;
  }

  lemma BatchEffectsCons(m: Msg, rest: seq<Msg>)
    requires ParseRow(m.body).Some?
    requires forall j :: 0 <= j < |rest| ==> ParseRow(rest[j].body).Some?
    ensures BatchEffects([m] + rest)
      == [Inserted(m.receipt, ParseRow(m.body).value), Deleted(m.receipt)] + BatchEffects(rest)
  {
    assert ([m] + rest)[1..] == rest;
  }

  lemma DeleteAllCons(q: seq<Msg>, m: Msg, rest: seq<Msg>)
    ensures DeleteAll(q, [m] + rest) == DeleteAll(DeleteReceipt(q, m.receipt), rest)
  {
    assert ([m] + rest)[1..] == rest;
  }

  /** The rows after the batch: one per message handled completely, in order,
      followed by the row of a message whose delete failed. */
  lemma {:induction false} RunBatchRows(s: State, msgs: seq<Msg>, faults: seq<Faults>)
    requires |faults| == |msgs|
    ensures var k := Completed(s.tableExists, msgs, faults);
            RunBatch(s, msgs, faults).rows == s.rows + RowsOf(msgs[..k]) + Orphan(s.tableExists, msgs, faults)
    decreases |msgs|
  {
    var k := Completed(s.tableExists, msgs, faults);
    if msgs == [] || !StepOf(s.tableExists, msgs[0], faults[0]).Processed? {
      assert msgs[..k] == [];
      assert RowsOf(msgs[..k]) == [];
    } else {
      var row := StepOf(s.tableExists, msgs[0], faults[0]).row;
      var next := AfterProcessed(s, msgs[0], row);
      var rest := msgs[1..][..k - 1];
      CompletedStep(s.tableExists, msgs, faults);
      calc {
        RunBatch(s, msgs, faults).rows;
        RunBatch(next, msgs[1..], faults[1..]).rows;
        { RunBatchRows(next, msgs[1..], faults[1..]); }
        s.rows + [row] + RowsOf(rest) + Orphan(s.tableExists, msgs, faults);
        { Associative(s.rows, [row], RowsOf(rest)); }
        s.rows + ([row] + RowsOf(rest)) + Orphan(s.tableExists, msgs, faults);
        { PrefixCons(msgs, k); RowsOfCons(msgs[0], rest); }
        s.rows + RowsOf(msgs[..k]) + Orphan(s.tableExists, msgs, faults);
      }
    }
  }

  /** The queue after the batch: the messages handled completely are deleted,
      and no other. */
  lemma {:induction false} RunBatchQueue(s: State, msgs: seq<Msg>, faults: seq<Faults>)
    requires |faults| == |msgs|
    ensures var k := Completed(s.tableExists, msgs, faults);
            RunBatch(s, msgs, faults).queue == DeleteAll(s.queue, msgs[..k])
    decreases |msgs|
  {
    var k := Completed(s.tableExists, msgs, faults);
    if msgs == [] || !StepOf(s.tableExists, msgs[0], faults[0]).Processed? {
      assert msgs[..k] == [];
      assert RunBatch(s, msgs, faults).queue == s.queue;
    } else {
      var row := StepOf(s.tableExists, msgs[0], faults[0]).row;
      var next := AfterProcessed(s, msgs[0], row);
      var rest := msgs[1..][..k - 1];
      CompletedStep(s.tableExists, msgs, faults);
      assert RunBatch(s, msgs, faults).queue == RunBatch(next, msgs[1..], faults[1..]).queue;
      RunBatchQueue(next, msgs[1..], faults[1..]);
      PrefixCons(msgs, k);
      DeleteAllCons(s.queue, msgs[0], rest);
    }
  }

  /** The effects of the batch: insert then delete for each message handled
      completely, in order, then the insert of a message whose delete failed. */
  lemma {:induction false} RunBatchEffects(s: State, msgs: seq<Msg>, faults: seq<Faults>)
    requires |faults| == |msgs|
    ensures var k := Completed(s.tableExists, msgs, faults);
            RunBatch(s, msgs, faults).effects
              == s.effects + BatchEffects(msgs[..k]) + OrphanEffects(s.tableExists, msgs, faults)
    decreases |msgs|
  {
    var k := Completed(s.tableExists, msgs, faults);
    if msgs == [] || !StepOf(s.tableExists, msgs[0], faults[0]).Processed? {
      assert msgs[..k] == [];
      assert BatchEffects(msgs[..k]) == [];
    } else {
      var m := msgs[0];
      var row := StepOf(s.tableExists, m, faults[0]).row;
      var next := AfterProcessed(s, m, row);
      var rest := msgs[1..][..k - 1];
      CompletedStep(s.tableExists, msgs, faults);
      calc {
        RunBatch(s, msgs, faults).effects;
        RunBatch(next, msgs[1..], faults[1..]).effects;
        { RunBatchEffects(next, msgs[1..], faults[1..]); }
        s.effects + [Inserted(m.receipt, row), Deleted(m.receipt)] + BatchEffects(rest)
          + OrphanEffects(s.tableExists, msgs, faults);
        { Associative(s.effects, [Inserted(m.receipt, row), Deleted(m.receipt)], BatchEffects(rest)); }
        s.effects + ([Inserted(m.receipt, row), Deleted(m.receipt)] + BatchEffects(rest))
          + OrphanEffects(s.tableExists, msgs, faults);
        { PrefixCons(msgs, k); BatchEffectsCons(m, rest); }
        s.effects + BatchEffects(msgs[..k]) + OrphanEffects(s.tableExists, msgs, faults);
      }
    }
  }

  // ---------------------------------------------------------------------------
  // Properties of one cycle

  /** No two messages in the queue share a receipt handle. */
  ghost predicate UniqueReceipts(q: seq<Msg>)
  {
    forall a, b :: 0 <= a < b < |q| ==> q[a].receipt != q[b].receipt
  }

  /** Every delete in a trace comes after an insert for the same receipt. */
  ghost predicate InsertBeforeDelete(es: seq<Effect>)
  {
    forall j :: 0 <= j < |es| && es[j].Deleted? ==>
      exists i :: 0 <= i < j && es[i].Inserted? && es[i].receipt == es[j].receipt
  }

  /** A message is deleted only after its row was inserted. */
  lemma {:induction false} RunBatchInsertsBeforeDeleting(s: State, msgs: seq<Msg>, faults: seq<Faults>)
    requires |faults| == |msgs|
    requires InsertBeforeDelete(s.effects)
    ensures InsertBeforeDelete(RunBatch(s, msgs, faults).effects)
    decreases |msgs|
  {
    if msgs != [] {
      match StepOf(s.tableExists, msgs[0], faults[0])
      case ParseFailed =>
      case InsertFailed =>
      case DeleteFailed(row) =>
        var es := s.effects + [Inserted(msgs[0].receipt, row)];
        forall j | 0 <= j < |es| && es[j].Deleted?
          ensures exists i :: 0 <= i < j && es[i].Inserted? && es[i].receipt == es[j].receipt
        {
          assert j < |s.effects| && es[j] == s.effects[j];
          var i :| 0 <= i < j && s.effects[i].Inserted? && s.effects[i].receipt == s.effects[j].receipt;
          assert es[i] == s.effects[i];
        }
      case Processed(row) =>
        var r := msgs[0].receipt;
        var es := s.effects + [Inserted(r, row), Deleted(r)];
        forall j | 0 <= j < |es| && es[j].Deleted?
          ensures exists i :: 0 <= i < j && es[i].Inserted? && es[i].receipt == es[j].receipt
        {
          if j == |s.effects| + 1 {
            assert es[|s.effects|] == Inserted(r, row);
          } else {
            assert j < |s.effects| && es[j] == s.effects[j];
            var i :| 0 <= i < j && s.effects[i].Inserted? && s.effects[i].receipt == s.effects[j].receipt;
            assert es[i] == s.effects[i];
          }
        }
        var next := s.(rows := s.rows + [row], queue := DeleteReceipt(s.queue, r), effects := es);
        RunBatchInsertsBeforeDeleting(next, msgs[1..], faults[1..]);
    }
  }

  /** The failing message and every later one stay in the queue. */
  lemma PendingStayQueued(s: State, msgs: seq<Msg>, faults: seq<Faults>, j: nat)
    requires |faults| == |msgs| && ReceiveFits(msgs, s.queue)
    requires Completed(s.tableExists, msgs, faults) <= j < |msgs|
    ensures msgs[j] in RunBatch(s, msgs, faults).queue
  {
    var k := Completed(s.tableExists, msgs, faults);
    var done := msgs[..k];
    assert RunBatch(s, msgs, faults).queue == DeleteAll(s.queue, done) by { RunBatchQueue(s, msgs, faults); }
    forall i | 0 <= i < |done| ensures done[i].receipt != msgs[j].receipt {
      assert done[i] == msgs[i];
    }
    DeleteAllMembers(s.queue, done, msgs[j]);
  }

  /** A message deleted by a run of deletes shares its handle with one of them. */
  lemma DeletedFromBatch(q: seq<Msg>, done: seq<Msg>, m: Msg) returns (i: nat)
    requires m in q && m !in DeleteAll(q, done)
    ensures i < |done| && done[i].receipt == m.receipt
  {
    DeleteAllMembers(q, done, m);
    i :| 0 <= i < |done| && done[i].receipt == m.receipt;
  }

  /** In a queue whose handles are distinct, the handle determines the message. */
  lemma SameReceiptSameMessage(q: seq<Msg>, x: Msg, y: Msg)
    requires UniqueReceipts(q) && x in q && y in q && x.receipt == y.receipt
    ensures x == y
  {
    var a :| 0 <= a < |q| && q[a] == x;
    var b :| 0 <= b < |q| && q[b] == y;
    assert a == b;
  }

  /** Every message the cycle removes from the queue was handled completely,
      and the row it contributed sits at its position among the new rows. */
  lemma RemovedWereStored(s: State, msgs: seq<Msg>, faults: seq<Faults>, m: Msg)
    requires |faults| == |msgs| && ReceiveFits(msgs, s.queue)
    requires UniqueReceipts(s.queue)
    requires m in s.queue && m !in RunBatch(s, msgs, faults).queue
    ensures exists j :: (0 <= j < Completed(s.tableExists, msgs, faults) && msgs[j] == m
      && |s.rows| + j < |RunBatch(s, msgs, faults).rows|
      && Some(RunBatch(s, msgs, faults).rows[|s.rows| + j]) == ParseRow(m.body))
  {
    var k := Completed(s.tableExists, msgs, faults);
    var r := RunBatch(s, msgs, faults);
    var done := msgs[..k];
    assert m !in DeleteAll(s.queue, done) by { RunBatchQueue(s, msgs, faults); }
    var i := DeletedFromBatch(s.queue, done, m);
    assert msgs[i] == m by {
      assert msgs[i] == done[i] && msgs[i] in s.queue;
      SameReceiptSameMessage(s.queue, m, msgs[i]);
    }
    var pre := s.rows + RowsOf(done);
    assert r.rows == pre + Orphan(s.tableExists, msgs, faults) by { RunBatchRows(s, msgs, faults); }
    assert pre[|s.rows| + i] == RowsOf(done)[i];
    assert r.rows[|s.rows| + i] == pre[|s.rows| + i];
  }

  /** The only effect of a message whose delete failed is its insert. */
  lemma OrphanEffectsAtFailure(tableExists: bool, msgs: seq<Msg>, faults: seq<Faults>)
    requires |faults| == |msgs|
    ensures var k := Completed(tableExists, msgs, faults);
            forall e :: e in OrphanEffects(tableExists, msgs, faults) ==>
              e.Inserted? && k < |msgs| && e.receipt == msgs[k].receipt
  {
  }

  /** Every effect of the completed messages names one of them. */
  lemma CompletedEffectsNamed(tableExists: bool, msgs: seq<Msg>, faults: seq<Faults>)
    requires |faults| == |msgs|
    ensures var k := Completed(tableExists, msgs, faults);
            forall e :: e in BatchEffects(msgs[..k]) ==> exists j :: 0 <= j < k && e.receipt == msgs[j].receipt
  {
    var k := Completed(tableExists, msgs, faults);
    var done := msgs[..k];
    BatchEffectsReceipts(done);
    forall e | e in BatchEffects(done) ensures exists j :: 0 <= j < k && e.receipt == msgs[j].receipt {
      var j :| 0 <= j < |done| && e.receipt == done[j].receipt;
      assert done[j] == msgs[j];
    }
  }

  /** Every effect of a batch names a message at or before the failure point,
      and every delete names one before it. */
  lemma BatchEffectsBeforeFailure(tableExists: bool, msgs: seq<Msg>, faults: seq<Faults>)
    requires |faults| == |msgs|
    ensures var k := Completed(tableExists, msgs, faults);
            var es := BatchEffects(msgs[..k]) + OrphanEffects(tableExists, msgs, faults);
            && (forall e :: e in es ==> exists j :: 0 <= j <= k && j < |msgs| && e.receipt == msgs[j].receipt)
            && (forall e :: e in es && e.Deleted? ==> exists j :: 0 <= j < k && e.receipt == msgs[j].receipt)
  {
    var k := Completed(tableExists, msgs, faults);
    var be := BatchEffects(msgs[..k]);
    var oe := OrphanEffects(tableExists, msgs, faults);
    OrphanEffectsAtFailure(tableExists, msgs, faults);
    CompletedEffectsNamed(tableExists, msgs, faults);
    assert forall e :: e in be + oe ==> e in be || e in oe;
  }

  /** No message after the failing one is inserted or deleted: every new
      effect names a message at or before the failure point, and every new
      delete names a message before it. */
  lemma NothingAfterFailure(s: State, msgs: seq<Msg>, faults: seq<Faults>)
    requires |faults| == |msgs|
    ensures var k := Completed(s.tableExists, msgs, faults);
            var r := RunBatch(s, msgs, faults);
            && |s.effects| <= |r.effects|
            && (forall e :: e in r.effects[|s.effects|..] ==>
                 exists j :: 0 <= j <= k && j < |msgs| && e.receipt == msgs[j].receipt)
            && (forall e :: e in r.effects[|s.effects|..] && e.Deleted? ==>
                 exists j :: 0 <= j < k && e.receipt == msgs[j].receipt)
  {
    var k := Completed(s.tableExists, msgs, faults);
    var es := BatchEffects(msgs[..k]) + OrphanEffects(s.tableExists, msgs, faults);
    var r := RunBatch(s, msgs, faults);
    assert r.effects == s.effects + es by {
      RunBatchEffects(s, msgs, faults);
      Associative(s.effects, BatchEffects(msgs[..k]), OrphanEffects(s.tableExists, msgs, faults));
    }
    assert r.effects[|s.effects|..] == es;
    BatchEffectsBeforeFailure(s.tableExists, msgs, faults);
  }

  /** Repeating the create once the table exists changes nothing. */
  lemma CreateTableIdempotent(tableExists: bool, first: bool, again: bool)
    ensures CreateTable(CreateTable(tableExists, first), again) == CreateTable(tableExists, first || again)
    ensures CreateTable(true, again)
  {
  }

  /**
   * The worker process: the `water_data` table, the SQS queue it polls, and
   * whether the table exists. `effects` records every insert and delete in
   * the order the worker issued them.
   */
  class Worker {
    var rows: seq<Row>
    var queue: seq<Msg>
    var tableExists: bool
    ghost var effects: seq<Effect>

    /** A process started against a database that may already hold the
        table and its rows, and a queue that may already hold messages. */
    constructor (initialRows: seq<Row>, initialQueue: seq<Msg>, initialTableExists: bool)
      ensures rows == initialRows && queue == initialQueue && tableExists == initialTableExists && effects == []
    {
      rows := initialRows;
      queue := initialQueue;
      tableExists := initialTableExists;
      effects := [];
    }

    ghost function Snapshot(): State
      reads this
    {
      State(rows, queue, tableExists, effects)
    }

    /** `createTableIfNotExists`: `succeeds` says whether the query resolves. */
    method CreateTableIfNotExists(succeeds: bool)
      modifies this`tableExists
      ensures tableExists == CreateTable(old(tableExists), succeeds)
    {
      if succeeds {
        tableExists := true;
      }
    }

    /** `processQueue`: `createSucceeds` is the fate of the table create,
        `received` the reply of the receive, `faults[i]` the fate of the
        insert and the delete of the i-th received message. */
    method ProcessQueue(createSucceeds: bool, received: Received, faults: seq<Faults>)
      requires received.Messages? ==> |faults| == |received.msgs|
      modifies this
      ensures Snapshot() == Cycle(old(Snapshot()), createSucceeds, received, faults)
    {
      CreateTableIfNotExists(createSucceeds);
      if !received.Messages? {
        return;
      }
      var msgs := received.msgs;
      ghost var goal := RunBatch(Snapshot(), msgs, faults);
      var i := 0;
      while i < |msgs|
        invariant 0 <= i <= |msgs|
        invariant tableExists == CreateTable(old(tableExists), createSucceeds)
        invariant goal == RunBatch(Snapshot(), msgs[i..], faults[i..])
      {
        var m := msgs[i];
        ghost var before := Snapshot();
        assert msgs[i..][0] == m && faults[i..][0] == faults[i];
        assert msgs[i..][1..] == msgs[i + 1..] && faults[i..][1..] == faults[i + 1..];
        var parsed := ParseRow(m.body);
        if parsed.None? {
          assert StepOf(tableExists, m, faults[i]) == ParseFailed;
          return;
        }
        var row := parsed.value;
        if !InsertAccepted(tableExists, row, faults[i]) {
          assert StepOf(tableExists, m, faults[i]) == InsertFailed;
          return;
        }
        rows := rows + [row];
        effects := effects + [Inserted(m.receipt, row)];
        if faults[i].deleteFails {
          assert StepOf(before.tableExists, m, faults[i]) == DeleteFailed(row);
          assert Snapshot() == before.(rows := before.rows + [row], effects := before.effects + [Inserted(m.receipt, row)]);
          return;
        }
        queue := DeleteReceipt(queue, m.receipt);
        effects := effects + [Deleted(m.receipt)];
        assert StepOf(before.tableExists, m, faults[i]) == Processed(row);
        assert Snapshot() == AfterProcessed(before, m, row);
        i := i + 1;
      }
    }
  }
}
