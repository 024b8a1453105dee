/** The values the uploader receives from json-bigint's parser, and the three
    JavaScript operations it applies to them: `typeof`, the own-property test
    `Object.prototype.hasOwnProperty.call(v, key)` and a property read `v[key]`. */
module Json {

  /** A parsed JSON value. json-bigint yields a plain JavaScript number for a
      numeral of at most 15 characters and a BigNumber object for a longer one;
      `Num` carries the former (its value as a real), `BigNum` the latter. */
  datatype JsonValue =
    | Null
    | Bool(b: bool)
    | Num(n: real)
    | BigNum(numeral: string)
    | Str(s: string)
    | Arr(items: seq<JsonValue>)
    | Obj(fields: map<string, JsonValue>)

  /** The result of a property read: `undefined`, or a JSON value. */
  datatype JsAny = Undefined | Defined(value: JsonValue)

  /** `typeof v`. A BigNumber is an object, so it is not a "number". */
  function TypeOf(v: JsAny): (t: string)
    ensures t == "number" <==> v.Defined? && v.value.Num?
    ensures t == "string" <==> v.Defined? && v.value.Str?
  {
    match v
    case Undefined => "undefined"
    case Defined(Null) => "object"
    case Defined(Bool(_)) => "boolean"
    case Defined(Num(_)) => "number"
    case Defined(BigNum(_)) => "object"
    case Defined(Str(_)) => "string"
    case Defined(Arr(_)) => "object"
    case Defined(Obj(_)) => "object"
  }

  /** A key that starts with a digit, as every array or string index does;
      the uploader only ever uses keys that start with a letter. */
  predicate IsIndexKey(key: string)
  {
    |key| > 0 && '0' <= key[0] <= '9'
  }

  /** `Object.prototype.hasOwnProperty.call(v, key)` for the keys the uploader
      asks about: "id", "name", "status" and "length". The call throws on
      `null`, so `v` is not `Null`. An object owns its fields, an array or a
      string owns "length" among these keys, and numbers, booleans and
      BigNumber objects own none of them. For other keys the result is not
      JavaScript's: a BigNumber's own fields `c`, `e` and `s` are not modelled. */
  function HasOwn(v: JsonValue, key: string): (owned: bool)
    requires v != Null && !IsIndexKey(key)
    ensures owned ==> v.Obj? || v.Arr? || v.Str?
    ensures v.Obj? ==> (owned <==> key in v.fields)
    ensures v.Arr? || v.Str? ==> (owned <==> key == "length")
  {
    match v
    case Obj(fields) => key in fields
    case Arr(_) => key == "length"
    case Str(_) => key == "length"
    case _ => false
  }

  /** `v[key]` for the keys the uploader reads (a read on `null` throws, so
      `v` is not `Null`). No prototype of a parsed value supplies "id", "name",
      "status" or "length", so every defined read is an own property. As for
      `HasOwn`, other keys of a BigNumber are not modelled. */
  function Get(v: JsonValue, key: string): (r: JsAny)
    requires v != Null && !IsIndexKey(key)
    ensures r.Defined? <==> HasOwn(v, key)
    ensures v.Obj? ==> r == if key in v.fields then Defined(v.fields[key]) else Undefined
  {
    match v
    case Obj(fields) => if key in fields then Defined(fields[key]) else Undefined
    case Arr(items) => if key == "length" then Defined(Num(|items| as real)) else Undefined
    case Str(s) => if key == "length" then Defined(Num(|s| as real)) else Undefined
    case _ => Undefined
  }
}
