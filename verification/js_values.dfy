/**
  The JavaScript values the admin client handles: parsed JSON bodies, the
  caller's data and the errors thrown by the transport. Objects are plain
  data (maps from property names to values); there are no functions,
  prototypes or getters.
 */
module JsValues {
  import opened JsText

  /** A JSON-like JavaScript value. Numbers are whole; NaN is its own case. */
  datatype JsValue =
    | Undefined
    | Null
    | Bool(b: bool)
    | Num(n: int)
    | NaN
    | Str(s: string)
    | Arr(items: seq<JsValue>)
    | Obj(props: map<string, JsValue>)

  /** How an expression completes: with a value or by throwing one. */
  datatype Completion = Normal(value: JsValue) | Throw(reason: JsValue)

  /** How a promise settles. */
  datatype Settled = Resolved(value: JsValue) | Rejected(reason: JsValue)

  /** The TypeError the engine throws on a property access on `null` or `undefined`. */
  const TypeError: JsValue := Obj(map["name" := Str("TypeError")])

  /** ToBoolean (ECMA-262 section 7.1.2): the falsy values are undefined, null, false, 0, NaN and "". */
  predicate Truthy(v: JsValue) {
    match v
    case Undefined => false
    case Null => false
    case Bool(b) => b
    case Num(n) => n != 0
    case NaN => false
    case Str(s) => |s| > 0
    case Arr(_) => true
    case Obj(_) => true
  }

  /**
    The canonical text of an array index (ECMA-262 section 6.1.7): decimal
    digits without a superfluous leading zero.
   */
  predicate IndexKey(key: string) {
    |key| >= 1 && AllDigits(key) && (|key| > 1 ==> key[0] != '0')
  }

  /** The length of a string in UTF-16 code units: characters above U+FFFF take two. */
  function Utf16Length(s: string): (n: nat)
    ensures |s| <= n <= 2 * |s|
  {
    if |s| == 0 then 0 else (if s[0] as int >= 0x1_0000 then 2 else 1) + Utf16Length(s[1..])
  }

  /**
    `v[key]` for a property name: objects look the name up, arrays know
    their length and elements, strings their length in UTF-16 code units.
    Reading a code unit of a string by index is not modelled (it may be half
    of a surrogate pair, which a `char` cannot hold) and gives `undefined`.
   */
  function Get(v: JsValue, key: string): (c: Completion)
    ensures c.Throw? <==> v == Undefined || v == Null
    ensures c.Throw? ==> c.reason == TypeError
    ensures v.Obj? && key in v.props ==> c == Normal(v.props[key])
    ensures v.Obj? && key !in v.props ==> c == Normal(Undefined)
    ensures v.Arr? && IndexKey(key) && DigitsValue(key) < |v.items| ==> c == Normal(v.items[DigitsValue(key)])
    ensures v.Arr? && key == "length" ==> c == Normal(Num(|v.items|))
    ensures v.Str? && key == "length" ==> c == Normal(Num(Utf16Length(v.s)))
  {
    match v
    case Undefined => Throw(TypeError)
    case Null => Throw(TypeError)
    case Obj(props) => Normal(if key in props then props[key] else Undefined)
    case Str(s) => Normal(if key == "length" then Num(Utf16Length(s)) else Undefined)
    case Arr(items) =>
      Normal(
        if key == "length" then Num(|items|)
        else if IndexKey(key) && DigitsValue(key) < |items| then items[DigitsValue(key)]
        else Undefined)
    case _ => Normal(Undefined)
  }

  /** The own properties of a string or an array: `length` and the index of every element (code unit). */
  predicate OwnIndexed(key: string, length: nat) {
    key == "length" || (IndexKey(key) && DigitsValue(key) < length)
  }

  /**
    `v.hasOwnProperty(key)`. Looking the method up throws on `null` and
    `undefined`, and calling it throws when an object's own data shadows
    `hasOwnProperty`, since a parsed value is never callable. Booleans and
    numbers have no own properties; strings and arrays own `length` and
    their indices.
   */
  function HasOwnProperty(v: JsValue, key: string): (c: Completion)
    ensures c.Throw? <==> v == Undefined || v == Null || (v.Obj? && "hasOwnProperty" in v.props)
    ensures c.Throw? ==> c.reason == TypeError
    ensures c.Normal? ==> c.value.Bool?
    ensures c == Normal(Bool(true)) <==>
      || (v.Obj? && "hasOwnProperty" !in v.props && key in v.props)
      || (v.Arr? && OwnIndexed(key, |v.items|))
      || (v.Str? && OwnIndexed(key, Utf16Length(v.s)))
  {
    match v
    case Undefined => Throw(TypeError)
    case Null => Throw(TypeError)
    case Obj(props) =>
      if "hasOwnProperty" in props then Throw(TypeError) else Normal(Bool(key in props))
    case Arr(items) => Normal(Bool(OwnIndexed(key, |items|)))
    case Str(s) => Normal(Bool(OwnIndexed(key, Utf16Length(s))))
    case _ => Normal(Bool(false))
  }
}
