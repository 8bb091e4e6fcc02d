/**
 * The untyped values the utilities receive (`unknown` in the TypeScript
 * signatures), the few runtime operations on them that the utilities use
 * (truthiness, `typeof`, the `in` operator, property access, `===`), and
 * the host services the model does not define itself.
 */
module JsValues {
  import opened Text
  import opened DateFormats

  datatype Option<+T> = None | Some(value: T)

  /** A call either returns a value or throws. */
  datatype Outcome<+T> = Ok(value: T) | Threw(error: JsError)

  datatype JsError = RangeError | Error(message: string)

  /**
   * A JavaScript number. A finite number carries its value together with
   * `String(n)`, the text the runtime renders for it.
   */
  datatype JsNumber = NaN | Infinity(negative: bool) | Finite(value: real, text: string)

  /** The time value inside a `Date`: milliseconds since the epoch, or NaN ("Invalid Date"). */
  datatype DateValue = InvalidDate | Time(ms: int)

  /**
   * What an object's `Symbol.iterator` member holds: nothing, some value
   * (`Func` there is a function the model does not run), or an iterator
   * method whose iteration yields `items`.
   */
  datatype IteratorSlot =
    | NoIterator
    | Member(member: Value)
    | Yields(items: seq<Value>)

  datatype Value =
    | Undefined
    | Null
    | Bool(b: bool)
    | Num(n: JsNumber)
    | Str(s: string)
    | Arr(items: seq<Value>)
    /** A plain object: own fields, the fields reachable through its prototype chain, its iterator. */
    | Rec(own: map<string, Value>, inherited: map<string, Value>, iter: IteratorSlot)
    | DateObj(date: DateValue)
    | Func

  /** Property keys accepted by `hasKey`: a string, a number, or `Symbol.iterator`. */
  datatype PropertyKey = StrKey(name: string) | NumKey(num: JsNumber) | IteratorSymbol

  /** `String(n)`. */
  function NumberText(n: JsNumber): string
  {
    match n
    case NaN => "NaN"
    case Infinity(neg) => if neg then "-Infinity" else "Infinity"
    case Finite(_, t) => t
  }

  predicate IsIntegral(r: real) { r == r.Floor as real }

  const MaxFixedNotation: real := 1000000000000000000000.0   // 10^21

  /**
   * The text carried by a finite number is the one `Number::toString` gives
   * below 10^21: the integer's digits for an integral value, and for a
   * non-integral value of at least 1 the integer part's digits, a point and
   * at least one fraction digit.
   */
  predicate WellRendered(n: JsNumber)
  {
    match n
    case Finite(v, t) =>
      && (IsIntegral(v) && -MaxFixedNotation < v < MaxFixedNotation ==> t == IntText(v.Floor))
      && (!IsIntegral(v) && 1.0 <= v < MaxFixedNotation ==>
            var ip := NatText(v.Floor);
            |t| > |ip| + 1 && t[..|ip|] == ip && t[|ip|] == '.')
    case _ => true
  }

  /** The number value of a literal integer, as the runtime holds it. */
  function IntNumber(i: int): (n: JsNumber)
    ensures WellRendered(n)
  {
    Finite(i as real, IntText(i))
  }

  predicate NumberTruthy(n: JsNumber)
  {
    match n
    case NaN => false
    case Infinity(_) => true
    case Finite(v, _) => v != 0.0
  }

  /** `!!v`: false for undefined, null, false, 0, NaN and "". */
  predicate Truthy(v: Value)
  {
    match v
    case Undefined => false
    case Null => false
    case Bool(b) => b
    case Num(n) => NumberTruthy(n)
    case Str(s) => s != ""
    case _ => true
  }

  /** `typeof v`. */
  function TypeOf(v: Value): string
  {
    match v
    case Undefined => "undefined"
    case Bool(_) => "boolean"
    case Num(_) => "number"
    case Str(_) => "string"
    case Func => "function"
    case _ => "object"
  }

  /** String-keyed members every `Date` inherits from `Date.prototype` and `Object.prototype`, all functions. */
  const DateMembers: set<string> := {
    "constructor", "getDate", "getDay", "getFullYear", "getHours", "getMilliseconds",
    "getMinutes", "getMonth", "getSeconds", "getTime", "getTimezoneOffset", "getUTCDate",
    "getUTCDay", "getUTCFullYear", "getUTCHours", "getUTCMilliseconds", "getUTCMinutes",
    "getUTCMonth", "getUTCSeconds", "getYear", "setDate", "setFullYear", "setHours",
    "setMilliseconds", "setMinutes", "setMonth", "setSeconds", "setTime", "setUTCDate",
    "setUTCFullYear", "setUTCHours", "setUTCMilliseconds", "setUTCMinutes", "setUTCMonth",
    "setUTCSeconds", "setYear", "toDateString", "toISOString", "toJSON", "toGMTString",
    "toLocaleDateString", "toLocaleString", "toLocaleTimeString", "toString",
    "toTimeString", "toUTCString", "valueOf", "hasOwnProperty", "isPrototypeOf",
    "propertyIsEnumerable", "__defineGetter__", "__defineSetter__", "__lookupGetter__",
    "__lookupSetter__"
  }

  /** The property name a string or number key converts to. */
  function KeyName(key: PropertyKey): string
    requires !key.IteratorSymbol?
  {
    match key
    case StrKey(name) => name
    case NumKey(n) => NumberText(n)
  }

  /** `key in v` for an object `v` (own or inherited). */
  predicate HasProperty(v: Value, key: PropertyKey)
    requires v.Rec? || v.DateObj?
  {
    match v
    case Rec(own, inherited, iter) =>
      if key.IteratorSymbol? then !iter.NoIterator?
      else KeyName(key) in own || KeyName(key) in inherited
    case DateObj(_) =>
      !key.IteratorSymbol? && KeyName(key) in DateMembers
  }

  /** `v[name]` on an object: the own field, else the inherited one, else undefined. */
  function Get(v: Value, name: string): Value
  {
    match v
    case Rec(own, inherited, _) =>
      if name in own then own[name] else if name in inherited then inherited[name] else Undefined
    case DateObj(_) => if name in DateMembers then Func else Undefined
    case _ => Undefined
  }

  /** `v[key]` for any property key. */
  function GetKey(v: Value, key: PropertyKey): Value
  {
    if key.IteratorSymbol? then
      match v
      case Rec(_, _, Member(m)) => m
      case Rec(_, _, Yields(_)) => Func
      case _ => Undefined
    else Get(v, KeyName(key))
  }

  /**
   * `a === b`. NaN differs from itself; objects, arrays and functions are
   * compared by their contents, since the model has no object identity.
   */
  predicate StrictEquals(a: Value, b: Value)
  {
    match (a, b)
    case (Num(NaN), _) => false
    case (_, Num(NaN)) => false
    case (Num(Finite(x, _)), Num(Finite(y, _))) => x == y
    case (Num(x), Num(y)) => x == y
    case _ => a == b
  }

  /**
   * The services of the JavaScript runtime the utilities call but the
   * model does not define: each is a field, so every property proved holds
   * for every behaviour of that service.
   */
  datatype Host = Host(
    parseJson: string -> Option<Value>,   // JSON.parse; None when it throws
    newDate: Value -> DateValue,          // new Date(v)
    isoText: int -> string,               // Date.prototype.toISOString on a valid time value
    jsonText: Value -> Option<string>,    // JSON.stringify; None when it yields undefined
    localeCompare: (string, string) -> int,
    localeLower: string -> string,        // toLocaleLowerCase
    localeUpper: string -> string,        // toLocaleUpperCase
    nfd: string -> string                 // normalize('NFD')
  )

  /** Time values from 0000-01-01T00:00:00.000Z up to, not including, 10000-01-01T00:00:00.000Z. */
  predicate FourDigitYear(ms: int)
  {
    -62167219200000 <= ms < 253402300800000
  }

  /**
   * What the real services guarantee and the model relies on: a JSON text
   * that decodes to a string is longer than that string (it has at least
   * its two quotes); `new Date(d)` on a Date copies its time value; and
   * `toISOString` renders a time value of a four-digit year in the Date
   * Time String Format of ECMA-262, `YYYY-MM-DDTHH:mm:ss.sssZ`, which starts
   * with the date and a `T`.
   */
  ghost predicate ValidHost(h: Host)
  {
    && (forall s :: h.parseJson(s).Some? && h.parseJson(s).value.Str? ==> |h.parseJson(s).value.s| < |s|)
    && (forall d :: h.newDate(DateObj(d)) == d)
    && (forall ms :: FourDigitYear(ms) ==> HasDateTimePrefix(h.isoText(ms)))
  }
}
