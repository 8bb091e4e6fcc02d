/**
 * The type guards of `type.utils.ts`: runtime tests that narrow an
 * untyped value. The coercions of the same file live in TypeCoercions,
 * which may then import the date utilities without an import cycle.
 */
module TypeGuards {
  import opened JsValues

  /** `isString`: `typeof val === 'string'`. */
  predicate IsString(v: Value)
    ensures IsString(v) <==> v.Str?
  {
    TypeOf(v) == "string"
  }

  /** `isNumber`: a number other than NaN (infinities included). */
  predicate IsNumber(v: Value)
    ensures IsNumber(v) <==> v.Num? && !v.n.NaN?
  {
    TypeOf(v) == "number" && !v.n.NaN?
  }

  /** `isObject`: truthy, `typeof` "object", and not an array. */
  predicate IsObject(v: Value)
    ensures IsObject(v) <==> v.Rec? || v.DateObj?
  {
    Truthy(v) && TypeOf(v) == "object" && !v.Arr?
  }

  /** `Array.isArray`: an array, which `typeof` calls "object" but `isObject` refuses. */
  predicate IsArray(v: Value)
    ensures IsArray(v) ==> TypeOf(v) == "object" && !IsObject(v)
  {
    v.Arr?
  }

  predicate IsBool(v: Value)
    ensures IsBool(v) <==> v.Bool?
  {
    TypeOf(v) == "boolean"
  }

  /** `Object.prototype.toString.call(v)`. */
  function ObjectTag(v: Value): string
  {
    match v
    case Undefined => "[object Undefined]"
    case Null => "[object Null]"
    case Bool(_) => "[object Boolean]"
    case Num(_) => "[object Number]"
    case Str(_) => "[object String]"
    case Arr(_) => "[object Array]"
    case Rec(_, _, _) => "[object Object]"
    case DateObj(_) => "[object Date]"
    case Func => "[object Function]"
  }

  /** `isDateObject`: an object whose class tag is Date; every Date object passes, valid or not. */
  predicate IsDateObject(v: Value)
    ensures IsDateObject(v) <==> v.DateObj?
    ensures IsDateObject(v) ==> IsObject(v)
  {
    IsObject(v) && ObjectTag(v) == "[object Date]"
  }

  /** `!!key` for a property key; a symbol is always truthy. */
  predicate KeyTruthy(key: PropertyKey)
  {
    match key
    case StrKey(name) => name != ""
    case NumKey(n) => NumberTruthy(n)
    case IteratorSymbol => true
  }

  /**
   * `hasKey`: false for a falsy value or key, otherwise `isObject(val) &&
   * key in val`, where `in` also sees inherited members.
   */
  predicate HasKey(v: Value, key: PropertyKey)
    ensures HasKey(v, key) <==> KeyTruthy(key) && (v.Rec? || v.DateObj?) && HasProperty(v, key)
    ensures key == StrKey("") || key == NumKey(IntNumber(0)) ==> !HasKey(v, key)
  {
    if !Truthy(v) || !KeyTruthy(key) then false
    else IsObject(v) && HasProperty(v, key)
  }

  /** `hasKeyWithValue`: the key is present and its value is `===` to `value`. */
  predicate HasKeyWithValue(v: Value, key: PropertyKey, value: Value)
    ensures HasKeyWithValue(v, key, value) ==> HasKey(v, key)
    ensures value.Num? && value.n.NaN? ==> !HasKeyWithValue(v, key, value)
  {
    HasKey(v, key) && StrictEquals(GetKey(v, key), value)
  }

  /**
   * `isIterable`: an array, or an object whose `Symbol.iterator` member is
   * a function. Strings are not iterable here, since `hasKey` wants an object.
   */
  predicate IsIterable(v: Value)
    ensures IsIterable(v) <==> v.Arr? || (v.Rec? && (v.iter.Yields? || v.iter == Member(Func)))
  {
    IsArray(v) || (HasKey(v, IteratorSymbol) && TypeOf(GetKey(v, IteratorSymbol)) == "function")
  }

  /**
   * `Array.from(v)` on an iterable: the array's items, or what the iterator
   * yields. An iterator function the model does not run yields nothing.
   */
  function ArrayFrom(v: Value): (items: seq<Value>)
    requires IsIterable(v)
    ensures v.Arr? ==> items == v.items
    ensures v.Rec? && v.iter.Yields? ==> items == v.iter.items
  {
    match v
    case Arr(xs) => xs
    case Rec(_, _, Yields(xs)) => xs
    case _ => []
  }

  /** `isStringList`: iterable, and every item it yields is a string. */
  predicate IsStringList(v: Value)
    ensures IsStringList(v) ==> IsIterable(v) && forall k :: 0 <= k < |ArrayFrom(v)| ==> ArrayFrom(v)[k].Str?
    ensures v.Arr? ==> (IsStringList(v) <==> forall k :: 0 <= k < |v.items| ==> v.items[k].Str?)
  {
    IsIterable(v) && (var xs := ArrayFrom(v); forall k | 0 <= k < |xs| :: IsString(xs[k]))
  }

  /** `isNumberList`: iterable, and every item it yields is a number other than NaN. */
  predicate IsNumberList(v: Value)
    ensures IsNumberList(v) ==> IsIterable(v) && forall k :: 0 <= k < |ArrayFrom(v)| ==> ArrayFrom(v)[k].Num?
    ensures v.Arr? ==> (IsNumberList(v) <==> forall k :: 0 <= k < |v.items| ==> v.items[k].Num? && !v.items[k].n.NaN?)
  {
    IsIterable(v) && (var xs := ArrayFrom(v); forall k | 0 <= k < |xs| :: IsNumber(xs[k]))
  }

  /** An empty array is both a string list and a number list. */
  lemma EmptyListIsBoth()
    ensures IsStringList(Arr([])) && IsNumberList(Arr([]))
  {
  }

  /** No string is a string list: strings are not iterable here. */
  lemma StringIsNoList(s: string)
    ensures !IsIterable(Str(s)) && !IsStringList(Str(s))
  {
  }
}
