/** JavaScript values as far as iTranslate inspects them: `undefined`, JS truthiness,
    and the defaulting helpers `isEmptyOrUndefined` and `nvl`. */
module JsValues {

  /** A value that may be JavaScript `undefined` (a missing property, an absent global). */
  datatype Option<+T> = None | Some(value: T) {
    function GetOr(default: T): T {
      match this
      case Some(v) => v
      case None => default
    }
  }

  /** `${v}` for a string-or-undefined value: JavaScript prints `undefined` as the word. */
  function ToText(v: Option<string>): (r: string)
    ensures v.Some? ==> r == v.value
    ensures v.None? ==> r == "undefined"
  {
    match v
    case Some(s) => s
    case None => "undefined"
  }

  /** The JavaScript values a configuration entry can hold. */
  datatype JsValue =
    | Undefined
    | Null
    | Bool(b: bool)
    | Number(x: real)
    | NaN
    | Str(s: string)
    | Object

  /** `!v` is true: the six falsy JavaScript values. */
  predicate Falsy(v: JsValue) {
    v == Undefined || v == Null || v == Bool(false) || v == Number(0.0) || v == NaN || v == Str("")
  }

  /** isEmptyOrUndefined: falsy, or one of the strings "undefined" and "null". */
  predicate IsEmptyOrUndefined(v: JsValue): (b: bool)
    ensures v.Str? ==> (b <==> v.s == "" || v.s == "undefined" || v.s == "null")
    ensures v == Undefined || v == Null ==> b
    ensures v == Object ==> !b
  {
    Falsy(v) || v == Str("undefined") || v == Str("null")
  }

  /** nvl: the override `value1` unless it is empty or undefined, else the configured `value2`. */
  function Nvl(value1: JsValue, value2: JsValue): (r: JsValue)
    ensures !IsEmptyOrUndefined(value1) ==> r == value1
    ensures IsEmptyOrUndefined(value1) ==> r == value2
    ensures IsEmptyOrUndefined(r) <==> IsEmptyOrUndefined(value1) && IsEmptyOrUndefined(value2)
  {
    if !IsEmptyOrUndefined(value1) then value1 else value2
  }

}
