/**
 * The coercions of `type.utils.ts`: turning an untyped value into a
 * boolean, a date, a date range, an array, or the value at a dotted path.
 */
module TypeCoercions {
  import opened Text
  import opened JsValues
  import opened DateFormats
  import opened TypeGuards
  import opened DateUtils

  // ---------------------------------------------------------------------
  // tryParseBool
  // ---------------------------------------------------------------------

  /** `tryParseBool`: a boolean as is; "true"/"1"/"yes" and "false"/"0"/"no" in any case; else undefined. */
  function TryParseBool(v: Value): (r: Option<bool>)
    ensures v.Bool? ==> r == Some(v.b)
    ensures !v.Bool? && !v.Str? ==> r == None
  {
    if IsBool(v) then Some(v.b)
    else if IsString(v) then
      var w := AsciiLower(v.s);
      if w == "true" || w == "1" || w == "yes" then Some(true)
      else if w == "false" || w == "0" || w == "no" then Some(false)
      else None
    else None
  }

  /** A string gives true or false exactly for the six words, compared after lower-casing. */
  lemma TryParseBoolWords(s: string)
    ensures TryParseBool(Str(s)) == Some(true) <==> AsciiLower(s) in {"true", "1", "yes"}
    ensures TryParseBool(Str(s)) == Some(false) <==> AsciiLower(s) in {"false", "0", "no"}
    ensures TryParseBool(Str(s)).None? <==> AsciiLower(s) !in {"true", "1", "yes", "false", "0", "no"}
  {
  }

  /** Case does not matter: a string and its upper-cased form parse alike. */
  lemma TryParseBoolIgnoresCase(s: string)
    ensures TryParseBool(Str(AsciiUpper(s))) == TryParseBool(Str(s))
  {
    LowerOfUpper(s);
  }

  lemma TryParseBoolExamples()
    ensures TryParseBool(Str("TRUE")) == Some(true)
    ensures TryParseBool(Str("No")) == Some(false)
    ensures TryParseBool(Str("on")) == None
    ensures TryParseBool(Num(IntNumber(1))) == None
  {
    assert AsciiLower("TRUE") == "true";
    assert AsciiLower("No") == "no";
    assert AsciiLower("on") == "on";
    assert !IntNumber(1).NaN? && !Num(IntNumber(1)).Str? && !Num(IntNumber(1)).Bool?;
  }

  // ---------------------------------------------------------------------
  // tryParseDate, isDateTime
  // ---------------------------------------------------------------------

  /**
   * `tryParseDate`: undefined for a falsy value; a Date object as is (even
   * an invalid one); otherwise `new Date(val)`, or undefined when its time
   * is NaN.
   */
  function TryParseDate(h: Host, v: Value): (r: Option<DateValue>)
    ensures !Truthy(v) ==> r == None
    ensures v.DateObj? ==> r == Some(v.date)
    ensures Truthy(v) && !v.DateObj? ==> r == (if h.newDate(v).Time? then Some(h.newDate(v)) else None)
  {
    if !Truthy(v) then None
    else if IsDateObject(v) then Some(v.date)
    else
      var date := h.newDate(v);
      if date.InvalidDate? then None else Some(date)
  }

  /** `isDateTime`: `tryParseDate` gives a date. */
  predicate IsDateTime(h: Host, v: Value)
    ensures IsDateTime(h, v) <==> v.DateObj? || (Truthy(v) && h.newDate(v).Time?)
  {
    TryParseDate(h, v).Some?
  }

  /** Every Date object passes `isDateTime`, an invalid one included; a falsy value never does. */
  lemma IsDateTimeCases(h: Host, v: Value)
    ensures v.DateObj? ==> IsDateTime(h, v)
    ensures !Truthy(v) ==> !IsDateTime(h, v)
    ensures IsDateTime(h, v) && !v.DateObj? ==> TryParseDate(h, v).value.Time?
  {
  }

  // ---------------------------------------------------------------------
  // tryParseDateString
  // ---------------------------------------------------------------------

  /**
   * `tryParseDateString` as written: after the `YYYY-MM-DD` test it guards
   * `toDateString` with `isValidDate(date)`, which holds for every Date
   * object, so an invalid date reaches `toISOString` and throws.
   */
  function TryParseDateStringAsWritten(h: Host, v: Value): (r: Outcome<Option<string>>)
    ensures !IsDateString(v) ==> r == Ok(None)
    ensures r.Threw? <==> IsDateString(v) && h.newDate(v).InvalidDate?
  {
    if !Truthy(v) then Ok(None)
    else if !IsDateString(v) then Ok(None)
    else
      var date := h.newDate(v);
      if IsValidDate(DateObj(date)) then
        match ToDateString(h, date)
        case Ok(s) => Ok(Some(s))
        case Threw(e) => Threw(e)
      else Ok(None)
  }

  /** The guard never fails: `isValidDate` holds of every Date object. */
  lemma DateGuardAlwaysHolds(d: DateValue)
    ensures IsValidDate(DateObj(d))
  {
  }

  /** A date-only string naming no calendar day makes the function as written throw. */
  lemma TryParseDateStringThrows(h: Host)
    requires h.newDate(Str("2024-13-45")) == InvalidDate
    ensures TryParseDateStringAsWritten(h, Str("2024-13-45")) == Threw(RangeError)
  {
    ShapeOnlyDates();
  }

  /**
   * `tryParseDateString` corrected: undefined also when `new Date` gives an
   * invalid date, as the `?:` at type.utils.ts:112 evidently intends.
   */
  function TryParseDateString(h: Host, v: Value): (r: Option<string>)
    ensures !IsDateString(v) ==> r == None
    ensures r.Some? <==> IsDateString(v) && h.newDate(v).Time?
    ensures r.Some? ==> 'T' !in r.value
  {
    if !Truthy(v) || !IsDateString(v) then None
    else
      match h.newDate(v)
      case InvalidDate => None
      case Time(ms) => Some(ToDateString(h, Time(ms)).value)
  }

  /** Where the original does not throw, the corrected version returns the same. */
  lemma TryParseDateStringAgrees(h: Host, v: Value)
    requires TryParseDateStringAsWritten(h, v).Ok?
    ensures TryParseDateStringAsWritten(h, v) == Ok(TryParseDateString(h, v))
  {
  }

  /** For a four-digit year the corrected version yields a `YYYY-MM-DD` string. */
  lemma TryParseDateStringIsDateOnly(h: Host, s: string, ms: int)
    requires ValidHost(h) && IsDateOnly(s) && h.newDate(Str(s)) == Time(ms) && FourDigitYear(ms)
    ensures TryParseDateString(h, Str(s)).Some?
    ensures IsDateOnly(TryParseDateString(h, Str(s)).value)
  {
    ToDateStringIsDateOnly(h, ms);
  }

  // ---------------------------------------------------------------------
  // tryParseDateRange, isDateRange
  // ---------------------------------------------------------------------

  /** `DateRange`: a pair of `YYYY-MM-DD` strings (the code never produces its nulls). */
  datatype DateRange = DateRange(start: string, end: string)

  /** `[toDateString(a), toDateString(b)]`, throwing as the first throwing call does. */
  function RangeOf(h: Host, a: DateValue, b: DateValue): (r: Outcome<Option<DateRange>>)
    ensures r.Ok? <==> a.Time? && b.Time?
    ensures r.Threw? ==> r.error == RangeError
    ensures r.Ok? ==> r.value.Some? && 'T' !in r.value.value.start && 'T' !in r.value.value.end
  {
    match (ToDateString(h, a), ToDateString(h, b))
    case (Ok(x), Ok(y)) => Ok(Some(DateRange(x, y)))
    case (Threw(e), _) => Threw(e)
    case (_, Threw(e)) => Threw(e)
  }

  /** The termination measure of `tryParseDateRange`: a string counts its length plus one. */
  function RangeMeasure(v: Value): nat
  {
    if v.Str? then |v.s| + 1 else 0
  }

  /**
   * `tryParseDateRange`: a string is JSON-decoded and the function recurses
   * on the result, inside a `try` that turns every throw into undefined; an
   * array of exactly two items gives a range when both are Date objects or
   * both parse as dates, and `toDateString` throws on an invalid Date
   * object; anything else gives undefined.
   */
  function TryParseDateRange(h: Host, v: Value): (r: Outcome<Option<DateRange>>)
    requires ValidHost(h)
    ensures v.Str? ==> r.Ok?
    ensures !v.Str? && !(v.Arr? && |v.items| == 2) ==> r == Ok(None)
    ensures r.Ok? && r.value.Some? ==> 'T' !in r.value.value.start && 'T' !in r.value.value.end
    ensures v.Arr? && |v.items| == 2 && v.items[0].DateObj? && v.items[1].DateObj? ==>
      r == RangeOf(h, v.items[0].date, v.items[1].date)
    ensures v.Arr? && |v.items| == 2 && !(v.items[0].DateObj? && v.items[1].DateObj?) ==>
      r == (if TryParseDate(h, v.items[0]).Some? && TryParseDate(h, v.items[1]).Some?
            then RangeOf(h, TryParseDate(h, v.items[0]).value, TryParseDate(h, v.items[1]).value)
            else Ok(None))
    decreases RangeMeasure(v)
  {
    if v.Str? then
      match h.parseJson(v.s)
      case None => Ok(None)
      case Some(decoded) =>
        var inner := TryParseDateRange(h, decoded);
        if inner.Threw? then Ok(None) else inner
    else if IsArray(v) && |v.items| == 2 then
      var start, end := v.items[0], v.items[1];
      if IsDateObject(start) && IsDateObject(end) then
        RangeOf(h, start.date, end.date)
      else
        var startDate, endDate := TryParseDate(h, start), TryParseDate(h, end);
        if startDate.Some? && endDate.Some? then RangeOf(h, startDate.value, endDate.value)
        else Ok(None)
    else Ok(None)
  }

  /** `isDateRange`: `tryParseDateRange` gives a range; it throws where that does. */
  function IsDateRange(h: Host, v: Value): (r: Outcome<bool>)
    requires ValidHost(h)
    ensures r.Ok? <==> TryParseDateRange(h, v).Ok?
    ensures r.Ok? ==> (r.value <==> TryParseDateRange(h, v).value.Some?)
    ensures r == Ok(true) ==> v.Str? || (v.Arr? && |v.items| == 2)
  {
    match TryParseDateRange(h, v)
    case Ok(range) => Ok(range.Some?)
    case Threw(e) => Threw(e)
  }

  /** Two date-only strings of four-digit years give the range of their `YYYY-MM-DD` renderings. */
  lemma DateRangeOfTwoStrings(h: Host, a: string, b: string, x: int, y: int)
    requires ValidHost(h)
    requires IsDateOnly(a) && IsDateOnly(b)
    requires h.newDate(Str(a)) == Time(x) && h.newDate(Str(b)) == Time(y)
    requires FourDigitYear(x) && FourDigitYear(y)
    ensures TryParseDateRange(h, Arr([Str(a), Str(b)]))
         == Ok(Some(DateRange(h.isoText(x)[..10], h.isoText(y)[..10])))
    ensures IsDateOnly(h.isoText(x)[..10]) && IsDateOnly(h.isoText(y)[..10])
  {
    ToDateStringIsDateOnly(h, x);
    ToDateStringIsDateOnly(h, y);
  }

  /** A JSON text that decodes to an array is handled as that array, with a throw turned into undefined. */
  lemma DateRangeOfJson(h: Host, s: string, items: seq<Value>)
    requires ValidHost(h) && h.parseJson(s) == Some(Arr(items))
    ensures TryParseDateRange(h, Str(s))
         == if TryParseDateRange(h, Arr(items)).Threw? then Ok(None) else TryParseDateRange(h, Arr(items))
  {
  }

  /** Undecodable JSON gives undefined. */
  lemma DateRangeOfBadJson(h: Host, s: string)
    requires ValidHost(h) && h.parseJson(s).None?
    ensures TryParseDateRange(h, Str(s)) == Ok(None)
  {
  }

  /** An invalid Date object in an array of two makes `tryParseDateRange` throw; the string path never does. */
  lemma DateRangeThrowsOnInvalidDate(h: Host, other: Value)
    requires ValidHost(h)
    ensures TryParseDateRange(h, Arr([DateObj(InvalidDate), DateObj(InvalidDate)])) == Threw(RangeError)
    ensures TryParseDateRange(h, Arr([DateObj(InvalidDate), other])).Threw?
         <==> TryParseDate(h, other).Some?
  {
  }

  // ---------------------------------------------------------------------
  // tryParseArray
  // ---------------------------------------------------------------------

  /** `arr.every(x => !typeTest || typeTest(x))`. */
  predicate AllPass(items: seq<Value>, typeTest: Option<Value -> bool>)
  {
    forall k | 0 <= k < |items| :: typeTest.None? || typeTest.value(items[k])
  }

  /**
   * `tryParseArray`: an array as is, another iterable through `Array.from`,
   * a string through `JSON.parse` (undefined when it throws or gives no
   * array); the array is returned when every element passes `typeTest`.
   */
  function TryParseArray(h: Host, v: Value, typeTest: Option<Value -> bool>): (r: Option<seq<Value>>)
    ensures r.Some? ==> forall k | 0 <= k < |r.value| :: typeTest.None? || typeTest.value(r.value[k])
    ensures v.Arr? ==> r == (if AllPass(v.items, typeTest) then Some(v.items) else None)
    ensures v.Str? && r.Some? ==> h.parseJson(v.s) == Some(Arr(r.value))
    ensures !v.Str? && !IsIterable(v) ==> r == None
    ensures IsIterable(v) && !v.Arr? ==> r == (if AllPass(ArrayFrom(v), typeTest) then Some(ArrayFrom(v)) else None)
    ensures v.Str? && h.parseJson(v.s).Some? && h.parseJson(v.s).value.Arr? ==>
      r == (if AllPass(h.parseJson(v.s).value.items, typeTest) then Some(h.parseJson(v.s).value.items) else None)
    ensures v.Str? && !(h.parseJson(v.s).Some? && h.parseJson(v.s).value.Arr?) ==> r == None
  {
    var arr: Option<Value> :=
      if IsArray(v) then Some(v)
      else if IsIterable(v) then Some(Arr(ArrayFrom(v)))
      else if v.Str? then h.parseJson(v.s)
      else None;
    if arr.Some? && arr.value.Arr? && AllPass(arr.value.items, typeTest) then Some(arr.value.items)
    else None
  }

  /** Without a `typeTest`, every array, iterable, or string decoding to an array is accepted. */
  lemma TryParseArrayWithoutTest(h: Host, v: Value)
    ensures IsIterable(v) ==> TryParseArray(h, v, None) == Some(ArrayFrom(v))
    ensures v.Str? ==> (TryParseArray(h, v, None).Some? <==> h.parseJson(v.s).Some? && h.parseJson(v.s).value.Arr?)
  {
  }

  // ---------------------------------------------------------------------
  // tryParseProperty
  // ---------------------------------------------------------------------

  /**
   * `tryParseProperty`: undefined unless `obj` is an object; a key with a
   * `.` looks up its first segment and recurses with the rest rejoined;
   * otherwise `obj[key]`.
   */
  function TryParseProperty(v: Value, key: string): (r: Value)
    ensures !IsObject(v) ==> r == Undefined
    ensures IsObject(v) && '.' !in key ==> r == Get(v, key)
    decreases |key|
  {
    if !IsObject(v) then Undefined
    else if '.' in key then
      SplitRest(key, '.');
      var parts := Split(key, '.');
      TryParseProperty(Get(v, parts[0]), Join(parts[1..], "."))
    else Get(v, key)
  }

  /** Reference walk over the segments of a path: look each one up in an object, undefined at the first non-object. */
  function Walk(v: Value, segments: seq<string>): Value
    requires |segments| >= 1
    decreases |segments|
  {
    if !IsObject(v) then Undefined
    else if |segments| == 1 then Get(v, segments[0])
    else Walk(Get(v, segments[0]), segments[1..])
  }

  /** Resolving a path joined from dot-free segments is walking those segments. */
  lemma {:induction false} TryParsePropertyWalks(v: Value, segments: seq<string>)
    requires |segments| >= 1
    requires forall k :: 0 <= k < |segments| ==> '.' !in segments[k]
    ensures TryParseProperty(v, Join(segments, ".")) == Walk(v, segments)
    decreases |segments|
  {
    if |segments| > 1 && IsObject(v) {
      var key := Join(segments, ".");
      SplitJoin(segments, '.');
      assert Split(key, '.') == segments;
      assert '.' in key by {
        assert key == segments[0] + "." + Join(segments[1..], ".");
        assert key[|segments[0]|] == '.';
      }
      TryParsePropertyWalks(Get(v, segments[0]), segments[1..]);
    }
  }

  /** Arrays are never descended into: below an array every path gives undefined. */
  lemma TryParsePropertyStopsAtArrays(xs: seq<Value>, key: string)
    ensures TryParseProperty(Arr(xs), key) == Undefined
  {
  }

  /** A plain object with the given own fields. */
  function Obj(fields: map<string, Value>): (v: Value)
    ensures v.Rec? && IsObject(v) && v.own == fields
  {
    Rec(fields, map[], NoIterator)
  }

  lemma TryParsePropertyExamples()
    ensures TryParseProperty(Obj(map["a" := Obj(map["b" := Obj(map["c" := Num(IntNumber(1))])])]), "a.b.c")
         == Num(IntNumber(1))
    ensures TryParseProperty(Obj(map["a" := Obj(map["b" := Obj(map["c" := Num(IntNumber(1))])])]), "a.x.c")
         == Undefined
    ensures TryParseProperty(Obj(map["a" := Arr([Str("x")])]), "a.0") == Undefined
  {
    ResolvesPresentPath();
    MissesAbsentPath();
    NeverIndexesArray();
  }

  lemma ResolvesPresentPath()
    ensures TryParseProperty(Obj(map["a" := Obj(map["b" := Obj(map["c" := Num(IntNumber(1))])])]), "a.b.c")
         == Num(IntNumber(1))
  {
    var a := Obj(map["a" := Obj(map["b" := Obj(map["c" := Num(IntNumber(1))])])]);
    TryParsePropertyWalks(a, ["a", "b", "c"]);
    assert Join(["a", "b", "c"], ".") == "a.b.c";
  }

  lemma MissesAbsentPath()
    ensures TryParseProperty(Obj(map["a" := Obj(map["b" := Obj(map["c" := Num(IntNumber(1))])])]), "a.x.c")
         == Undefined
  {
    var a := Obj(map["a" := Obj(map["b" := Obj(map["c" := Num(IntNumber(1))])])]);
    TryParsePropertyWalks(a, ["a", "x", "c"]);
    assert Join(["a", "x", "c"], ".") == "a.x.c";
  }

  lemma NeverIndexesArray()
    ensures TryParseProperty(Obj(map["a" := Arr([Str("x")])]), "a.0") == Undefined
  {
    var arr := Obj(map["a" := Arr([Str("x")])]);
    TryParsePropertyWalks(arr, ["a", "0"]);
    assert Join(["a", "0"], ".") == "a.0";
  }
}
