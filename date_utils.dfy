/**
 * The date helpers of `date.utils.ts`: recognising what may be a date
 * (a Date object, a string of one of three formats, a 10-digit epoch
 * number) and the small coercions built on that. The `Date` constructor
 * and `toISOString` are the host's (see JsValues.Host).
 */
module DateUtils {
  import opened Text
  import opened JsValues
  import opened DateFormats
  import opened TypeGuards

  /** UNIX_EPOCH_MIN: 2021-10-31T00:00:00Z in seconds. */
  const UnixEpochMin: int := 1635638400

  /** `n >= m` for a number `n` that is not NaN. */
  predicate AtLeast(n: JsNumber, m: int)
    requires !n.NaN?
  {
    match n
    case Infinity(negative) => !negative
    case Finite(x, _) => x >= m as real
  }

  /**
   * `isValidDate`: any Date object; a string that is date-only, a full ISO
   * 8601 timestamp or contains a UTC date string; a number that is at least
   * UNIX_EPOCH_MIN and renders as exactly 10 characters.
   */
  predicate IsValidDate(v: Value)
    ensures v.Undefined? || v.Null? || v.Bool? || v.Arr? || v.Rec? || v.Func? ==> !IsValidDate(v)
    ensures v.Num? && v.n.Infinity? ==> !IsValidDate(v)
  {
    if IsDateObject(v) then true
    else if IsString(v) then IsDateOnly(v.s) || IsIsoFull(v.s) || ContainsUtcDate(v.s)
    else if IsNumber(v) then AtLeast(v.n, UnixEpochMin) && |NumberText(v.n)| == 10
    else false
  }

  /** `isDateString`: a string of the form `YYYY-MM-DD`. */
  predicate IsDateString(v: Value)
    ensures IsDateString(v) ==> IsValidDate(v)
    ensures IsDateString(v) ==> v.Str? && |v.s| == 10
  {
    IsString(v) && IsDateOnly(v.s)
  }

  lemma {:induction false} NatTextAtLeast(n: nat, k: nat)
    requires n >= Pow10(k)
    ensures |NatText(n)| > k
  {
    if k > 0 {
      NatTextAtLeast(n / 10, k - 1);
    }
  }

  lemma TenDigitBounds()
    ensures Pow10(9) == 1000000000 && Pow10(10) == 10000000000
  {
    assert Pow10(3) == 1000;
    assert Pow10(6) == 1000000;
  }

  /**
   * The epoch rule on finite numbers below 10^21: a number of at least
   * UNIX_EPOCH_MIN is a valid date exactly when it is an integer of at most
   * ten digits. A fraction such as 1635638400.5 renders longer than ten
   * characters and fails.
   */
  lemma EpochRule(x: real, text: string)
    requires WellRendered(Finite(x, text))
    requires UnixEpochMin as real <= x < MaxFixedNotation
    ensures IsValidDate(Num(Finite(x, text))) <==> IsIntegral(x) && x <= 9999999999.0
  {
    var n := x.Floor;
    assert n >= UnixEpochMin;
    TenDigitBounds();
    if IsIntegral(x) {
      assert text == NatText(n);
      NatTextLength(n, 10);
    } else {
      NatTextAtLeast(n, 9);
      assert |text| > 10;
    }
  }

  /** Below UNIX_EPOCH_MIN no number is a valid date, whatever its text. */
  lemma EpochBelowMinimum(x: real, text: string)
    requires x < UnixEpochMin as real
    ensures !IsValidDate(Num(Finite(x, text)))
  {
  }

  /** The string tests check shape only: month 13, day 45 passes both. */
  lemma ShapeOnlyDates()
    ensures IsDateString(Str("2024-13-45"))
    ensures IsValidDate(Str("2024-13-45"))
    ensures IsValidDate(Str("2024-13-45T99:99:99Z"))
  {
    FormatOnlyExamples();
  }

  /**
   * `toDate`: a Date object unchanged, a valid date value through
   * `new Date`, anything else undefined (None).
   */
  function ToDate(h: Host, v: Value): (r: Option<Value>)
    ensures v.DateObj? ==> r == Some(v)
    ensures r.None? <==> !v.DateObj? && !IsValidDate(v)
    ensures r.Some? ==> r.value.DateObj?
  {
    if IsDateObject(v) then Some(v)
    else if IsValidDate(v) then Some(DateObj(h.newDate(v)))
    else None
  }

  /**
   * `toDateString`: `date.toISOString().split('T')[0]`; `toISOString`
   * throws a RangeError on an invalid date.
   */
  function ToDateString(h: Host, d: DateValue): (r: Outcome<string>)
    ensures r.Threw? <==> d.InvalidDate?
    ensures r.Threw? ==> r.error == RangeError
    ensures r.Ok? ==> 'T' !in r.value && r.value <= h.isoText(d.ms)
    ensures r.Ok? && 'T' in h.isoText(d.ms) ==> r.value == h.isoText(d.ms)[..IndexOf(h.isoText(d.ms), 'T')]
    ensures r.Ok? && 'T' !in h.isoText(d.ms) ==> r.value == h.isoText(d.ms)
  {
    match d
    case InvalidDate => Threw(RangeError)
    case Time(ms) =>
      var iso := h.isoText(ms);
      SplitPartsExclude(iso, 'T');
      if 'T' in iso then
        SplitRest(iso, 'T');
        Ok(Split(iso, 'T')[0])
      else
        Ok(Split(iso, 'T')[0])
  }

  /** The ten characters before the `T` of an ISO rendering are the date. */
  lemma IsoDatePart(iso: string)
    requires HasDateTimePrefix(iso)
    ensures 'T' in iso && IndexOf(iso, 'T') == 10
    ensures IsDateOnly(iso[..10])
  {
    assert iso[10] == 'T';
    var i := IndexOf(iso, 'T');
    assert i <= 10;
  }

  /** For a four-digit year, `toDateString` gives the `YYYY-MM-DD` of the ISO rendering. */
  lemma ToDateStringIsDateOnly(h: Host, ms: int)
    requires ValidHost(h) && FourDigitYear(ms)
    ensures ToDateString(h, Time(ms)) == Ok(h.isoText(ms)[..10])
    ensures IsDateOnly(h.isoText(ms)[..10])
  {
    var iso := h.isoText(ms);
    assert HasDateTimePrefix(iso);
    IsoDatePart(iso);
    SplitRest(iso, 'T');
  }

  /**
   * `compareDates`: 0 when both are falsy, -1 when only the first is, 1
   * when only the second is; otherwise the difference of the time values,
   * NaN (None) when either is invalid.
   */
  function CompareDates(h: Host, a: Value, b: Value): (r: Option<int>)
    ensures !Truthy(a) ==> r == Some(if Truthy(b) then -1 else 0)
    ensures Truthy(a) && !Truthy(b) ==> r == Some(1)
    ensures Truthy(a) && Truthy(b) ==>
      (r.Some? <==> h.newDate(a).Time? && h.newDate(b).Time?)
    ensures Truthy(a) && Truthy(b) && h.newDate(a).Time? && h.newDate(b).Time? ==>
      r == Some(h.newDate(a).ms - h.newDate(b).ms)
  {
    if !Truthy(a) && !Truthy(b) then Some(0)
    else if !Truthy(a) then Some(-1)
    else if !Truthy(b) then Some(1)
    else
      match (h.newDate(a), h.newDate(b))
      case (Time(x), Time(y)) => Some(x - y)
      case _ => None
  }

  function Negated(r: Option<int>): Option<int>
  {
    if r.Some? then Some(-r.value) else None
  }

  /** `compareDates` is antisymmetric: swapping the arguments negates the result. */
  lemma CompareDatesAntisymmetric(h: Host, a: Value, b: Value)
    ensures CompareDates(h, b, a) == Negated(CompareDates(h, a, b))
  {
  }

  /** `secondsInMs`. */
  function SecondsInMs(seconds: int): (ms: int)
    ensures ms / 1000 == seconds && ms % 1000 == 0
  {
    seconds * 1000
  }

  /** `minutesInMs`, through `secondsInMs`. */
  function MinutesInMs(minutes: int): (ms: int)
    ensures ms == minutes * 60000
  {
    SecondsInMs(minutes * 60)
  }

  /** `hoursInMs`, through `minutesInMs`. */
  function HoursInMs(hours: int): (ms: int)
    ensures ms == hours * 3600000
  {
    MinutesInMs(hours * 60)
  }

  /** The values `toDateObject` and `toDateOnlyString` accept: a string, a Date, null or undefined. */
  predicate DateArgument(v: Value)
  {
    v.Str? || v.DateObj? || v.Null? || v.Undefined?
  }

  const MidnightUtc: string := "T00:00:00.000Z"

  /**
   * `toDateObject`: null for a falsy argument, a Date unchanged, a
   * date-only string as UTC midnight, any other string through `new Date`.
   */
  function ToDateObject(h: Host, v: Value): (r: Option<DateValue>)
    requires DateArgument(v)
    ensures r.None? <==> !Truthy(v)
    ensures v.DateObj? ==> r == Some(v.date)
    ensures v.Str? && IsDateOnly(v.s) ==> r == Some(h.newDate(Str(v.s + MidnightUtc)))
    // The test for a date-time prefix at date.utils.ts:117 changes nothing:
    // that branch and the fallback both call `new Date(date)`.
    ensures v.Str? && v.s != "" && !IsDateOnly(v.s) ==> r == Some(h.newDate(v))
  {
    if !Truthy(v) then None
    else if v.DateObj? then Some(v.date)
    else if HasDateTimePrefix(v.s) then Some(h.newDate(Str(v.s)))
    else if IsDateOnly(v.s) then Some(h.newDate(Str(v.s + MidnightUtc)))
    else Some(h.newDate(Str(v.s)))
  }

  /** The string `toDateObject` builds from a date-only string is itself a full ISO 8601 timestamp. */
  lemma ToDateObjectMidnight(s: string)
    requires IsDateOnly(s)
    ensures IsIsoFull(s + MidnightUtc) && IsValidDate(Str(s + MidnightUtc))
  {
    DateOnlyAtMidnightIsIsoFull(s);
  }

  /** `s.slice(0, n)`. */
  function Prefix(s: string, n: nat): (r: string)
    ensures r <= s && |r| == if |s| < n then |s| else n
  {
    if |s| <= n then s else s[..n]
  }

  /**
   * `toDateOnlyString`: null for a falsy argument, a `YYYY-MM-DD` string
   * unchanged, otherwise the first ten characters of `toISOString` of
   * `new Date(date)`, which throws on an invalid date.
   */
  function ToDateOnlyString(h: Host, v: Value): (r: Outcome<Option<string>>)
    requires DateArgument(v)
    ensures !Truthy(v) ==> r == Ok(None)
    ensures IsDateString(v) ==> r == Ok(Some(v.s))
    ensures r.Threw? <==> Truthy(v) && !IsDateString(v) && h.newDate(v).InvalidDate?
    ensures r.Threw? ==> r.error == RangeError
    ensures r.Ok? && r.value.Some? ==> |r.value.value| <= 10
    ensures Truthy(v) && !IsDateString(v) && h.newDate(v).Time? ==>
      r == Ok(Some(Prefix(h.isoText(h.newDate(v).ms), 10)))
  {
    if !Truthy(v) then Ok(None)
    else if v.Str? && IsDateOnly(v.s) then Ok(Some(v.s))
    else
      match h.newDate(v)
      case InvalidDate => Threw(RangeError)
      case Time(ms) => Ok(Some(Prefix(h.isoText(ms), 10)))
  }

  /**
   * For any argument other than a `YYYY-MM-DD` string that builds a valid
   * Date of a four-digit year, `toDateOnlyString` and `toDateString` of
   * that Date agree, and the result is a `YYYY-MM-DD` string.
   */
  lemma ToDateOnlyStringOfDate(h: Host, v: Value, ms: int)
    requires ValidHost(h) && DateArgument(v) && Truthy(v) && !IsDateString(v)
    requires h.newDate(v) == Time(ms) && FourDigitYear(ms)
    ensures ToDateOnlyString(h, v) == Ok(Some(ToDateString(h, Time(ms)).value))
    ensures IsDateOnly(ToDateString(h, Time(ms)).value)
  {
    ToDateStringIsDateOnly(h, ms);
    assert |h.isoText(ms)| > 10;
  }

  /** `toDateOnlyString` is idempotent on what it returns for a four-digit-year Date. */
  lemma ToDateOnlyStringIdempotent(h: Host, ms: int)
    requires ValidHost(h) && FourDigitYear(ms)
    ensures var s := ToDateOnlyString(h, DateObj(Time(ms))).value.value;
      ToDateOnlyString(h, Str(s)) == Ok(Some(s))
  {
    assert h.newDate(DateObj(Time(ms))) == Time(ms);
    ToDateOnlyStringOfDate(h, DateObj(Time(ms)), ms);
  }
}
