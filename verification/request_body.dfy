/**
 The parsed body of a POST request, as far as the handlers look at it.
 The text of the body is collected and handed to JSON.parse; only the
 outcome of that parse is modelled here.
 */
module RequestBody {

  datatype Option<+T> = None | Some(value: T)

  /** A JSON value as the handlers tell it apart: `typeof` gives "string",
      "number", or anything else (boolean, null, array, object). A JSON
      number is taken as the exact real it denotes. */
  datatype Value = Str(s: string) | Num(x: real) | OtherValue

  /** The value JSON.parse returned: an object (its own properties, later
      duplicates already overriding earlier ones), the literal `null`, or any
      other value (number, string, boolean, array), none of which has an
      `item` or `index` property. */
  datatype Body = Object(fields: map<string, Value>) | Null | NonObject

  /** What parsing the collected body text gave. */
  datatype Parsed = Json(body: Body) | Malformed

  /** `data` after the parse: a body that does not parse leaves `data` at `{}`. */
  function DataOf(p: Parsed): Body {
    match p
    case Json(b) => b
    case Malformed => Object(map[])
  }

  /** `data[key]` on a `data` that is not `null`: `None` is `undefined`. */
  function Property(data: Body, key: string): (v: Option<Value>)
    requires !data.Null?
    ensures v.Some? <==> data.Object? && key in data.fields
    ensures v.Some? ==> v.value == data.fields[key]
  {
    match data
    case Object(fields) => if key in fields then Some(fields[key]) else None
    case NonObject => None
  }
}
