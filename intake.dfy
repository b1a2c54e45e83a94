/**
 * The HTTP intake handler (`POST /`): it checks the five reading fields for
 * truthiness, builds the message body from exactly those fields, sends it to
 * the queue once, and answers 400, 200 or 500.
 */
module Intake {
  import opened JsValues

  /** The five fields the handler reads from the request body, in order. */
  const RequiredKeys: seq<string> := ["deviceCode", "time", "Level", "Flow", "Energy"]

  /** An HTTP response: a status code and a JSON body. */
  datatype Response = Response(status: int, json: JsValue)

  const InvalidPayload := Response(400, Obj(map["error" := Str("Invalid payload")]))
  const Queued := Response(200, Obj(map["message" := Str("Data received and queued")]))
  const QueueFailure := Response(500, Obj(map["error" := Str("Failed to queue message")]))

  /** The validity check: every one of the five fields is truthy, so a field
      that is missing, `null`, `false`, `""` or `0` makes the payload invalid. */
  function IsValidPayload(p: Payload): (ok: bool)
    ensures ok <==> forall k :: k in RequiredKeys ==> Truthy(Get(p, k))
    ensures ok ==> forall k :: k in RequiredKeys ==> k in p && p[k] != Undefined
  {
    Truthy(Get(p, "deviceCode")) && Truthy(Get(p, "time")) && Truthy(Get(p, "Level"))
    && Truthy(Get(p, "Flow")) && Truthy(Get(p, "Energy"))
  }

  /** The message body: the JSON text of `{ deviceCode, time, Level, Flow, Energy }`. */
  function MessageBody(p: Payload): (b: Body)
    ensures b.Json? && b.value.Obj?
    ensures IsValidPayload(p) ==> b.value.fields.Keys == set k | k in RequiredKeys
    ensures forall k :: k in b.value.fields ==> k in RequiredKeys && k in p && b.value.fields[k] == p[k]
  {
    StringifyObject(map[
      "deviceCode" := Get(p, "deviceCode"),
      "time" := Get(p, "time"),
      "Level" := Get(p, "Level"),
      "Flow" := Get(p, "Flow"),
      "Energy" := Get(p, "Energy")])
  }

  /** The log line written after a successful send interpolates the five
      fields into a template literal; it throws when converting one of them to
      a string throws, and the `catch` then answers as if the send had failed. */
  predicate LogLineThrows(p: Payload)
    ensures LogLineThrows(p) <==> exists k :: k in RequiredKeys && StringConversionThrows(Get(p, k))
  {
    StringConversionThrows(Get(p, "deviceCode")) || StringConversionThrows(Get(p, "time"))
    || StringConversionThrows(Get(p, "Level")) || StringConversionThrows(Get(p, "Flow"))
    || StringConversionThrows(Get(p, "Energy"))
  }

  /** What one request does: the response, the bodies passed to `sendMessage`
      (in order), and the queue afterwards. */
  datatype Outcome = Outcome(response: Response, attempts: seq<Body>, queue: seq<Body>)

  /** The handler as a function of the payload, of whether the queue accepts
      the send, and of the queue beforehand. */
  function Handle(p: Payload, sendSucceeds: bool, queue: seq<Body>): (o: Outcome)
    ensures o.response == InvalidPayload || o.response == Queued || o.response == QueueFailure
    ensures o.response == InvalidPayload <==> !IsValidPayload(p)
    ensures o.response == Queued <==> IsValidPayload(p) && sendSucceeds && !LogLineThrows(p)
    ensures o.response == QueueFailure <==> IsValidPayload(p) && (!sendSucceeds || LogLineThrows(p))
    ensures !IsValidPayload(p) ==> o.attempts == [] && o.queue == queue
    ensures IsValidPayload(p) ==> o.attempts == [MessageBody(p)]
    ensures IsValidPayload(p) && sendSucceeds ==> o.queue == queue + [MessageBody(p)]
    ensures !sendSucceeds ==> o.queue == queue
  {
    if !IsValidPayload(p) then
      Outcome(InvalidPayload, [], queue)
    else
      var body := MessageBody(p);
      if !sendSucceeds then Outcome(QueueFailure, [body], queue)
      else if LogLineThrows(p) then Outcome(QueueFailure, [body], queue + [body])
      else Outcome(Queued, [body], queue + [body])
  }

  /** A 500 answer does not mean that nothing was queued: a field holding an
      object with its own `toString` passes the check, is sent, and then makes
      the log line throw. */
  lemma QueuedThenAnswered500()
    ensures var p := map["deviceCode" := Obj(map["toString" := Num(0.0)]), "time" := Str("t"),
                         "Level" := Num(1.0), "Flow" := Num(1.0), "Energy" := Num(1.0)];
            Handle(p, true, []) == Outcome(QueueFailure, [MessageBody(p)], [MessageBody(p)])
  {
    var p := map["deviceCode" := Obj(map["toString" := Num(0.0)]), "time" := Str("t"),
                 "Level" := Num(1.0), "Flow" := Num(1.0), "Energy" := Num(1.0)];
    assert IsValidPayload(p);
    assert StringConversionThrows(Get(p, "deviceCode"));
  }

  /** A numeric field equal to 0 is rejected exactly like a missing one. */
  lemma ZeroRejectedLikeMissing(p: Payload, k: string, sendSucceeds: bool, queue: seq<Body>)
    requires k in RequiredKeys
    ensures Handle(p[k := Num(0.0)], sendSucceeds, queue) == Handle(p - {k}, sendSucceeds, queue)
    ensures Handle(p - {k}, sendSucceeds, queue) == Outcome(InvalidPayload, [], queue)
  {
    assert !Truthy(Get(p[k := Num(0.0)], k));
    assert !Truthy(Get(p - {k}, k));
  }

  /** A handler never sends more than once, whatever happens to the send. */
  lemma NoRetry(p: Payload, queue: seq<Body>)
    ensures |Handle(p, false, queue).attempts| == |Handle(p, true, queue).attempts| <= 1
    ensures Handle(p, false, queue).queue == queue
  {
  }

  /**
   * The queue as this server's SQS client changes it. `sendAttempts` records
   * every body handed to `sendMessage`, whether or not the send succeeded.
   */
  class Server {
    var queue: seq<Body>
    ghost var sendAttempts: seq<Body>

    constructor (initial: seq<Body>)
      ensures queue == initial && sendAttempts == []
    {
      queue := initial;
      sendAttempts := [];
    }

    /** `app.post("/")`: `sendSucceeds` says whether `sqs.sendMessage` resolves;
        the log line after it may still throw into the same `catch`. */
    method Post(p: Payload, sendSucceeds: bool) returns (res: Response)
      modifies this
      ensures var o := Handle(p, sendSucceeds, old(queue));
              res == o.response && queue == o.queue && sendAttempts == old(sendAttempts) + o.attempts
    {
      if !IsValidPayload(p) {
        return InvalidPayload;
      }
      var body := MessageBody(p);
      sendAttempts := sendAttempts + [body];
      if !sendSucceeds {
        return QueueFailure;
      }
      queue := queue + [body];
      if LogLineThrows(p) {
        res := QueueFailure;
      } else {
        res := Queued;
      }
    }
  }
}
