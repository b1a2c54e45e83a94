/**
 * JavaScript values as the telemetry pipeline sees them: the parsed JSON body of
 * an HTTP request, the JSON text of a queue message, and the truthiness test
 * that the intake handler applies to each field.
 */
module JsValues {

  datatype Option<T> = None | Some(value: T)

  /** A JavaScript value. `Undefined` is what reading a property that is not
      there yields; numbers are kept as exact reals. */
  datatype JsValue =
    | Undefined
    | Null
    | Bool(b: bool)
    | Num(x: real)
    | Str(s: string)
    | Arr(items: seq<JsValue>)
    | Obj(fields: map<string, JsValue>)

  /** A parsed JSON object, such as an HTTP request body. */
  type Payload = map<string, JsValue>

  /** Property read `o.k`: a missing key reads as `undefined`. */
  function Get(o: map<string, JsValue>, k: string): JsValue
  {
    if k in o then o[k] else Undefined
  }

  /** JavaScript truthiness (`!!v`). */
  function Truthy(v: JsValue): (t: bool)
    ensures !t <==> v in {Undefined, Null, Bool(false), Num(0.0), Str("")}
  {
    match v
    case Undefined => false
    case Null => false
    case Bool(b) => b
    case Num(x) => x != 0.0
    case Str(s) => s != ""
    case Arr(_) => true
    case Obj(_) => true
  }

  /** Whether converting a value to a string, as a template literal does,
      throws a `TypeError`. A parsed JSON object that has its own `toString`
      property hides `Object.prototype.toString` behind a value that cannot be
      called, and `valueOf` then yields the object itself, which is not a
      primitive. An array is converted by joining its elements, so it throws
      when one of them does. Primitives never throw. */
  predicate StringConversionThrows(v: JsValue)
    ensures v.Obj? ==> (StringConversionThrows(v) <==> "toString" in v.fields)
    ensures !v.Obj? && !v.Arr? ==> !StringConversionThrows(v)
  {
    match v
    case Obj(fields) => "toString" in fields
    case Arr(items) => exists i :: 0 <= i < |items| && StringConversionThrows(items[i])
    case _ => false
  }

  /** The text carried in a queue message body: either the output of
      `JSON.stringify`, or text that `JSON.parse` rejects. */
  datatype Body = Json(value: JsValue) | NotJson(text: string)

  /** `JSON.stringify` of an object literal: properties whose value is
      `undefined` are omitted from the text. */
  function StringifyObject(m: map<string, JsValue>): (b: Body)
    ensures b.Json? && b.value.Obj?
    ensures b.value.fields.Keys == set k | k in m && m[k] != Undefined
    ensures forall k :: k in b.value.fields ==> b.value.fields[k] == m[k]
  {
    Json(Obj(map k | k in m && m[k] != Undefined :: m[k]))
  }

  /** `JSON.parse`: `None` stands for the exception it throws on text that is
      not JSON. */
  function Parse(b: Body): (r: Option<JsValue>)
    ensures r.None? <==> b.NotJson?
    ensures b.Json? ==> r == Some(b.value)
  {
    match b
    case Json(v) => Some(v)
    case NotJson(_) => None
  }

  /** Parsing the text of an object whose properties are all defined gives the
      object back. */
  lemma ParseStringify(m: map<string, JsValue>)
    requires forall k :: k in m ==> m[k] != Undefined
    ensures Parse(StringifyObject(m)) == Some(Obj(m))
  {
    var f := StringifyObject(m).value.fields;
    assert f.Keys == m.Keys;
    assert f == m;
  }
}
