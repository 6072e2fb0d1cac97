/**
  JavaScript values as they arrive from `JSON.parse` (plus `undefined`, the
  result of reading a missing property), and the handful of language
  operations the code applies to them: truthiness, `??`, `||`, property
  reads, `String(x)`, `Number(x)` and `.length`. Numbers are integers.
 */
module Json {
  import opened Wrappers
  import Text

  datatype Value =
    | Undefined
    | Null
    | Bool(b: bool)
    | Num(n: int)
    | Str(s: string)
    | Arr(items: seq<Value>)
    | Obj(fields: map<string, Value>)

  /** JavaScript truthiness: `undefined`, `null`, `false`, `0` and `""` are falsy. */
  predicate Truthy(v: Value) {
    match v
    case Undefined => false
    case Null => false
    case Bool(b) => b
    case Num(n) => n != 0
    case Str(s) => s != ""
    case Arr(_) => true
    case Obj(_) => true
  }

  /**
    `v?.[k]`: the field of an object, `undefined` otherwise. The keys read by
    the code are never built-in properties of strings or arrays.
   */
  function Get(v: Value, k: string): (r: Value)
    ensures v.Obj? && k in v.fields ==> r == v.fields[k]
    ensures !(v.Obj? && k in v.fields) ==> r == Undefined
  {
    if v.Obj? && k in v.fields then v.fields[k] else Undefined
  }

  /** `a ?? b`: `b` only when `a` is `null` or `undefined`. */
  function Coalesce(a: Value, b: Value): Value {
    if a.Undefined? || a.Null? then b else a
  }

  /** `a || b`: `a` when it is truthy, `b` otherwise. */
  function Or(a: Value, b: Value): Value {
    if Truthy(a) then a else b
  }

  /**
    `String(v)`: arrays join their elements' strings with commas (a `null` or
    `undefined` element contributes nothing) and plain objects print as
    `[object Object]`.
   */
  function ToJsString(v: Value): string {
    match v
    case Undefined => "undefined"
    case Null => "null"
    case Bool(b) => if b then "true" else "false"
    case Num(n) => Text.IntToString(n)
    case Str(s) => s
    case Arr(items) => JoinElements(items)
    case Obj(_) => "[object Object]"
  }

  /** `items.join(",")` for the elements of an array. */
  function JoinElements(items: seq<Value>): string
    decreases items
  {
    if items == [] then ""
    else
      var last := items[|items| - 1];
      var part := if last.Undefined? || last.Null? then "" else ToJsString(last);
      if |items| == 1 then part else JoinElements(items[..|items| - 1]) + "," + part
  }

  /**
    `Number(v)` when the outcome is a finite number, `None` when it is `NaN`.
    Strings convert when, once trimmed, they are empty (zero) or an optionally
    signed run of decimal digits; arrays and objects convert through their string.
   */
  function ToNumber(v: Value): Option<int> {
    match v
    case Undefined => None
    case Null => Some(0)
    case Bool(b) => Some(if b then 1 else 0)
    case Num(n) => Some(n)
    case Str(s) => StringToNumber(s)
    case Arr(_) => StringToNumber(ToJsString(v))
    case Obj(_) => StringToNumber(ToJsString(v))
  }

  /**
    `Number(s)` for the decimal integer forms only; the other literal forms
    `Number` accepts (hexadecimal, exponent, fraction) are not read and give `None`.
   */
  function StringToNumber(s: string): Option<int> {
    var t := Text.Trim(s);
    if t == "" then Some(0) else Text.ParseInt(t)
  }

  /**
    The outcome of reading `v.length`, as far as the code uses it (`+=`,
    `<` and `>` against numbers): a number, `undefined`, or a `TypeError`.
   */
  datatype Length = Len(n: int) | NoLength | Throws

  /**
    Strings and arrays have a length; reading it from `null` or `undefined`
    throws a `TypeError`; an object answers with its own `length` field.
    Other values have no `length`, which reads as `undefined`.
   */
  function LengthOf(v: Value): (r: Length)
    ensures v.Arr? ==> r == Len(|v.items|)
    ensures v.Str? ==> r == Len(Text.Utf16Length(v.s))
    ensures (v.Null? || v.Undefined?) <==> r.Throws?
    ensures v.Obj? ==> r == FieldLength(Get(v, "length"))
    ensures (v.Bool? || v.Num?) ==> r == NoLength
  {
    match v
    case Undefined => Throws
    case Null => Throws
    case Str(s) => Len(Text.Utf16Length(s))
    case Arr(items) => Len(|items|)
    case Obj(_) => FieldLength(Get(v, "length"))
    case _ => NoLength
  }

  /**
    An own `length` field read in arithmetic: a number stands for itself,
    `null` for 0, a boolean for 0 or 1; `undefined` (an absent field) stays
    `undefined`. Texts, arrays and objects in that field are not modelled
    and read as `undefined` too.
   */
  function FieldLength(f: Value): (r: Length)
    ensures !r.Throws?
    ensures r.Len? <==> f.Num? || f.Null? || f.Bool?
    ensures f.Num? ==> r == Len(f.n)
  {
    match f
    case Num(n) => Len(n)
    case Null => Len(0)
    case Bool(b) => Len(if b then 1 else 0)
    case _ => NoLength
  }
}
