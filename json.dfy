/** Decoded JSON values as Python's json.loads produces them, the failures the service
    raises, and the Python dictionary behaviour the work-item code relies on. */
module JsonValues {

  /** A decoded JSON document. Integers and floats stay apart, as json.loads keeps them;
      an object is a dictionary from keys to values (the order of its keys is not modelled). */
  datatype Json =
    | JNull
    | JBool(b: bool)
    | JInt(i: int)
    | JFloat(r: real)
    | JString(s: string)
    | JArray(items: seq<Json>)
    | JObject(fields: map<string, Json>)

  /** A Python dict decoded from a JSON object. */
  type Dict = map<string, Json>

  datatype Option<+T> = None | Some(value: T) {
    predicate IsFailure() { None? }
    function PropagateFailure<U>(): Option<U> requires None? { None }
    function Extract(): T requires Some? { value }
  }

  /** How a request fails: an HTTPException with its status and detail, or any other
      Python exception (TypeError, AttributeError, ...), which the web framework turns into
      an internal server error. */
  datatype Failure =
    | HttpError(status: int, detail: string)
    | RuntimeError

  datatype Result<+T> = Ok(value: T) | Err(failure: Failure)

  /** `d.get(key, default)` */
  function Get(d: Dict, key: string, default: Json): Json
  {
    if key in d then d[key] else default
  }

  /** Python truthiness of a decoded value, as `if not v:` tests it. */
  predicate Truthy(v: Json)
  {
    match v
    case JNull => false
    case JBool(b) => b
    case JInt(i) => i != 0
    case JFloat(r) => r != 0.0
    case JString(s) => s != []
    case JArray(xs) => xs != []
    case JObject(m) => m != map[]
  }

  /** The dictionaries visited by `for x in v:` when the loop body calls `x.get(...)`,
      or None when that loop raises. A list must hold only dicts. A string or a dict is
      iterable too, but yields strings, which have no `.get`: the loop runs without
      error only when it is empty. Any other value is not iterable. */
  function DictItems(v: Json): (r: Option<seq<Dict>>)
    ensures v.JArray? ==> (r.Some? <==> forall k :: 0 <= k < |v.items| ==> v.items[k].JObject?)
    ensures r.Some? && v.JArray? ==>
      |r.value| == |v.items| && forall k :: 0 <= k < |v.items| ==> v.items[k] == JObject(r.value[k])
    ensures r.Some? && !v.JArray? ==> r.value == [] && (v == JString([]) || v == JObject(map[]))
    ensures v == JString([]) || v == JObject(map[]) ==> r == Some([])
  {
    match v
    case JArray(xs) =>
      if forall k :: 0 <= k < |xs| ==> xs[k].JObject? then Some(seq(|xs|, k requires 0 <= k < |xs| => xs[k].fields))
      else None
    case JString(s) => if s == [] then Some([]) else None
    case JObject(m) => if m == map[] then Some([]) else None
    case _ => None
  }

  /** A dict that the caller passes by reference and that the callee updates in place. */
  class JsonDict {
    var fields: Dict

    constructor (fields: Dict)
      ensures this.fields == fields
    {
      this.fields := fields;
    }
  }
}
