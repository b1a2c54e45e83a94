# Telemetry ingest pipeline: intake handler and queue worker

This project models the two pieces of logic in the water-telemetry pipeline.

- **Intake handler** (`POST /` in `server.js`). It reads `deviceCode, time, Level, Flow, Energy` from the request body. If any of them is falsy in JavaScript's sense (missing, `null`, `false`, `""` or `0`), it answers 400 `{error: "Invalid payload"}`. Otherwise it builds a message body holding exactly those five fields and sends it to the SQS queue once. It answers 200 `{message: "Data received and queued"}` if the send resolves, and 500 `{error: "Failed to queue message"}` if it rejects. There is no retry. After a successful send it writes a log line that interpolates the five fields into a template literal. Converting a field to a string throws when the field is a JSON object with its own `toString` property, or an array holding one. That exception lands in the same `catch`, so the handler answers 500 although the message is already queued.
- **Worker cycle** (`processQueue` in `serviceWorker.js`). It first tries to create the `water_data` table with `CREATE TABLE IF NOT EXISTS`. A failure there is caught. It then asks the queue for up to 10 messages. For each message, in the order received, it parses the body, reads `deviceId, timestamp, level`, inserts one row and only then deletes the message. The first exception from the receive, a parse, an insert or a delete lands in the single `catch` and abandons the rest of the batch.

Modules:

- `JsValues` (`js_values.dfy`): JavaScript values, truthiness, and `JSON.stringify`/`JSON.parse` treated as a constructor and its partial inverse.
- `Intake` (`intake.dfy`): the validity check and the body builder as functions. `Handle` is the handler as a function of payload, send fate and queue. `Server.Post` is the straight-line handler, proved equal to `Handle`.
- `Worker` (`worker.dfy`): `RunBatch`/`Cycle` form the specification of one cycle. `Completed` is the position of the first failure. The closed-form lemmas and the ordering lemmas come after them. The class `Worker` holds `rows`, `queue`, `tableExists` and a ghost trace of inserts and deletes. `ProcessQueue` is the loop, proved equal to `Cycle`.
- `Pipeline` (`pipeline.dfy`): what happens when the worker consumes a message that the handler wrote.

External calls are parameters.

- Whether `sqs.sendMessage` resolves is the flag `sendSucceeds`.
- Whether the table create resolves is the flag `createSucceeds`.
- The receive reply is a `Received` value. It is either an exception, a reply without `Messages`, or a list of messages. `ReceiveFits` states what SQS promises about that list: at most `MaxNumberOfMessages` (10) messages, all present in the queue, with distinct receipt handles.
- `Faults` is an oracle, one entry per message, saying whether that message's insert or delete fails for a reason outside the model.
- A parse failure is not an oracle. It follows from the body: text that is not JSON, or JSON `null`, since destructuring `null` throws.
- An insert also fails when the table does not exist. It fails when any of the three `NOT NULL` columns would get `null` or `undefined`, because pg-promise sends both as SQL NULL.

A consequence across the two files, proved in `Pipeline`: the handler writes `deviceCode, time, Level`, but the worker reads `deviceId, timestamp, level` (`server.js:38` against `serviceWorker.js:62`). So for every body the handler makes, the worker reads `undefined` in all three columns and the `NOT NULL` insert fails. Such a message is never stored and never deleted. It also stops every batch it appears in, at or before its own position.

Further behaviour of the code that the model keeps:

- The worker does not check a message before inserting it. A body that does not parse ends the batch, and the message stays in the queue.
- An insert failure does not skip to the next message. It ends the batch.
- The table the worker creates has only `device_id`, `timestamp` and `level`, besides the serial `id`.
- The worker reads one fixed key set, `deviceId, timestamp, level`, from every body.

## Model

| member | source | states |
|---|---|---|
| `JsValues.Truthy` | server.js:33 | a value is falsy exactly when it is `undefined`, `null`, `false`, `0` or `""` |
| `JsValues.StringifyObject` | server.js:38 | the JSON text of an object carries exactly its properties that are not `undefined`, with their values |
| `JsValues.ParseStringify` | serviceWorker.js:62 | parsing the text of an object whose properties are all defined gives the same object back |
| `JsValues.Parse` | serviceWorker.js:62 | `JSON.parse` throws exactly on text that is not JSON, and otherwise gives the value the text denotes |
| `JsValues.StringConversionThrows` | server.js:48 | converting a JSON object to a string throws iff it has its own `toString` property; converting a primitive never throws |
| `Intake.IsValidPayload` | server.js:31-33 | a payload is valid exactly when all five required fields are truthy; a valid payload has all five keys present |
| `Intake.MessageBody` | server.js:38 | the body is a JSON object; for a valid payload its keys are exactly `deviceCode, time, Level, Flow, Energy`; every value is the one received |
| `Intake.LogLineThrows` | server.js:47-49 | the log line throws iff converting one of the five fields to a string throws |
| `Intake.Handle` | server.js:30-55 | the response is exactly one of 400, 200 and 500; 400 iff the payload is invalid, with no send attempted and the queue unchanged; otherwise exactly one send of the body; a successful send appends exactly that body; 200 iff the send succeeded and the log line did not throw; 500 iff the send failed or the log line threw; a failed send leaves the queue unchanged |
| `Intake.QueuedThenAnswered500` | server.js:45-53 | a payload whose `deviceCode` is an object with its own `toString` is queued and answered 500 |
| `Intake.ZeroRejectedLikeMissing` | server.js:33-35 | setting a required field to `0` gives the same outcome as removing it: 400, no send, queue unchanged |
| `Intake.NoRetry` | server.js:45-54 | a request makes the same number of send attempts (at most one) whether the send succeeds or fails, and a failed send leaves the queue unchanged |
| `Intake.Server.constructor` | server.js:28 | a client over a given queue holds that queue and has made no send |
| `Intake.Server.Post` | server.js:30-55 | the response, the new queue and the send attempts are those of `Handle` for the old queue |
| `Worker.Destructure` | serviceWorker.js:62 | destructuring throws exactly on `undefined` and `null`; an object gives its `deviceId, timestamp, level`; any other value gives three `undefined` |
| `Worker.ParseRow` | serviceWorker.js:62 | parsing fails exactly for text that is not JSON and for JSON `null`; for a JSON object the row is the object's `deviceId, timestamp, level` (`undefined` when a key is missing); any other JSON value gives three `undefined` |
| `Worker.InsertAccepted` | serviceWorker.js:64-67 | the insert into the table of `serviceWorker.js:32-37` is accepted iff the table exists, none of the three `NOT NULL` columns gets `null` or `undefined`, and the database does not fail otherwise |
| `Worker.StepOf` | serviceWorker.js:61-75 | one message ends in a parse failure iff its body does not parse; in an insert failure iff it parses and the insert is rejected; in a delete failure iff the insert was accepted and the delete fails; it completes iff it parses, the insert is accepted and the delete goes through |
| `Worker.DeleteReceipt` | serviceWorker.js:69-74 | deleting by receipt handle never makes the queue longer |
| `Worker.DeleteReceiptMembers` | serviceWorker.js:69-74 | a message is left after deleting a receipt handle iff it was queued and has another handle |
| `Worker.CreateTable` | serviceWorker.js:30-46 | an existing table stays; a missing table exists afterwards iff the create succeeded |
| `Worker.RunBatch` | serviceWorker.js:61-79 | the batch never changes whether the table exists; it only appends rows and effects, keeping the old ones as a prefix |
| `Worker.Cycle` | serviceWorker.js:48-59 | table creation is tried first, and the table exists afterwards iff it existed before or the create succeeded; a failed receive or a reply without `Messages` inserts no row and deletes no message |
| `Worker.Completed` | serviceWorker.js:57-79 | the number of messages handled completely: every message before it completed, and the one at it (if any) did not |
| `Worker.CompletedIsFirstFailure` | serviceWorker.js:57-79 | every message before the completed count parses, is inserted and is deleted, and the one at it (if any) fails in one of those three steps |
| `Worker.AllSucceedAllCompleted` | serviceWorker.js:61-76 | when every message of the batch succeeds, the whole batch is handled |
| `Worker.RowsOf` | serviceWorker.js:64-67 | one row per message, in order, each the parsed row of its message |
| `Worker.DeleteAll` | serviceWorker.js:69-74 | deleting a run of messages never makes the queue longer |
| `Worker.DeleteAllMembers` | serviceWorker.js:69-74 | a message is left after deleting a run of messages iff it was queued and no message of the run has its handle |
| `Worker.BatchEffects` | serviceWorker.js:61-76 | two effects per message |
| `Worker.BatchEffectsShape` | serviceWorker.js:64-74 | message `j` contributes its insert, with its parsed row, at position `2j` and its delete right after it |
| `Worker.CompletedStep` | serviceWorker.js:61-76 | completing the first message moves the failure point of the rest by one |
| `Worker.BatchEffectsReceipts` | serviceWorker.js:61-76 | every effect of a run of completed messages names one of them |
| `Worker.RunBatchRows` | serviceWorker.js:64-67 | the rows afterwards are the old rows, then one row per completed message in order, then the row of a message whose delete failed (if any) |
| `Worker.RunBatchQueue` | serviceWorker.js:69-74 | the queue afterwards is the old queue with exactly the completed messages deleted |
| `Worker.RunBatchEffects` | serviceWorker.js:61-76 | the effects are insert-then-delete for each completed message in order, then only the insert of a message whose delete failed |
| `Worker.RunBatchInsertsBeforeDeleting` | serviceWorker.js:64-74 | a batch keeps the invariant that every delete in the trace comes after an insert for the same receipt handle |
| `Worker.PendingStayQueued` | serviceWorker.js:57-79 | the failing message and every later message of the batch are still in the queue |
| `Worker.RemovedWereStored` | serviceWorker.js:64-74 | when the queue's handles are distinct, every message the batch removes from the queue is a completed message, and its parsed row sits at its position among the new rows |
| `Worker.OrphanEffectsAtFailure` | serviceWorker.js:64-74 | the only effect of a message whose delete failed is its insert, and that message is the one at the failure point |
| `Worker.CompletedEffectsNamed` | serviceWorker.js:61-76 | every effect of the completed messages names one of them |
| `Worker.BatchEffectsBeforeFailure` | serviceWorker.js:57-79 | every effect of a batch names a message at or before the first failure, and every delete names a message before it |
| `Worker.NothingAfterFailure` | serviceWorker.js:57-79 | the trace only grows; every new effect names a message at or before the first failure; every new delete names a completed message |
| `Worker.CreateTableIdempotent` | serviceWorker.js:30-46 | creating the table twice is the same as creating it once; once it exists, any further create leaves it existing |
| `Worker.Worker.constructor` | serviceWorker.js:25-28 | a worker connects to a database holding the given rows, with or without the table, and to the given queue; its trace is empty |
| `Worker.Worker.CreateTableIfNotExists` | serviceWorker.js:30-46 | the table exists afterwards iff it existed before or the create succeeded; a failed create is caught; nothing else changes |
| `Worker.Worker.ProcessQueue` | serviceWorker.js:48-80 | rows, queue, table flag and trace afterwards are those of `Cycle` on the state before |
| `Pipeline.ProducerBodyReadsUndefined` | serviceWorker.js:62 | for every body the intake handler builds, the worker reads `undefined` for `deviceId`, `timestamp` and `level` |
| `Pipeline.ProducerMessageNeverInserted` | serviceWorker.js:64-67 | the insert of a handler-made message fails, whatever the database and queue do |
| `Pipeline.ProducerMessageHaltsBatch` | serviceWorker.js:57-79 | a handler-made message stops its batch at or before its own position, and stays in the queue |
| `Pipeline.AcceptedReadingNeverStored` | server.js:38-50 | a reading the handler queued, whatever it then answered, and then received alone by a worker cycle, leaves the rows, the queue and the trace unchanged |

## Left out

- Logging (winston and its rotating-file transport): the log output is not modelled. The one log call whose evaluation can throw, the template literal at `server.js:47-49`, is modelled by `LogLineThrows`.
- `dotenv`, `AWS.config.update` and the environment-variable lookups: these are configuration.
- Express routing, JSON request parsing and `app.listen`: the parsed request body is a `map<string, JsValue>`.
- The AWS SDK and pg-promise calls themselves: they are replaced by a queue `seq`, a rows `seq` and success/failure parameters.
- `JSON.stringify`/`JSON.parse` internals: only the top level of a body is modelled. Nested values are carried unchanged. Numbers are exact reals, so the case of a huge number that becomes `Infinity` and is written as `null` is not modelled.
- Column type conversion (for example a `timestamp` string that is not a valid timestamp): it counts as a database failure, through the `Faults` oracle.
- The SQL text: it is not modelled. A table that already exists is assumed to have this schema. The serial `id` column is not modelled.
- `setInterval(processQueue, 5000)`, overlapping cycles, SQS visibility timeouts and redelivery: these are timing and concurrency concerns. The model covers a single cycle.
- The receive's wait time (5 seconds) is not modelled: it only affects how long the receive waits, and the receive reply is a parameter. The request's limit of 10 messages is `MaxNumberOfMessages`, which `ReceiveFits` uses.
