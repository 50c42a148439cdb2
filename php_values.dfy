/**
 * The PHP values the SMS response classes are built from: what `json_decode`
 * returns for a gateway reply (objects, lists, strings, booleans, integers,
 * null) and the associative arrays the classes return.  Floats are not
 * modelled.
 */
module PhpValues {
  import opened PhpStrings

  datatype Value =
    | Null
    | Bool(b: bool)
    | Int(i: int)
    | Str(s: string)
    | List(items: seq<Value>)               // an array with keys 0, 1, 2, ...
    | Assoc(entries: map<string, Value>)    // an array with string keys
    | Object(props: map<string, Value>)     // a stdClass object

  /** `$v->name`: null when the property is absent or `v` is not an object. */
  function Prop(v: Value, name: string): Value {
    if v.Object? && name in v.props then v.props[name] else Null
  }

  /** `$v[key]`: null when the key is absent or `v` is not an array with string keys. */
  function Index(v: Value, key: string): Value {
    if v.Assoc? && key in v.entries then v.entries[key] else Null
  }

  /** `$v ?? $default`. */
  function Coalesce(v: Value, default: Value): Value {
    if v.Null? then default else v
  }

  predicate IsScalar(v: Value) {
    v.Bool? || v.Int? || v.Str?
  }

  /** What a scalar becomes when assigned to a `string` property (weak typing mode). */
  function ToStringProperty(v: Value): string
    requires IsScalar(v)
  {
    match v
    case Bool(b) => if b then "1" else ""
    case Int(i) => IntToString(i)
    case Str(s) => s
  }

  /** What a scalar becomes when assigned to a `bool` property (weak typing mode). */
  function ToBoolProperty(v: Value): bool
    requires IsScalar(v)
  {
    match v
    case Bool(b) => b
    case Int(i) => i != 0
    case Str(s) => StringToBool(s)
  }

  /**
   * `$data->name ?? default` can be assigned to a scalar property without a
   * TypeError: the property is absent, null or a scalar.
   */
  predicate ScalarProp(data: Value, name: string) {
    Prop(data, name).Null? || IsScalar(Prop(data, name))
  }
}
