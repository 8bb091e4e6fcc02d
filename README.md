# ts-core value layer in Dafny

This project models the defensive value-coercion and path-resolution layer of the
`libs/ts-core` TypeScript library, together with the string and list helpers beside it,
and proves what those functions promise.

Any JavaScript value is a `Value`: `undefined`, `null`, a boolean, a number, a string, an array,
a record, a function or a `Date`. The model covers:

- the date recognisers of `date.utils.ts`: the `YYYY-MM-DD` pattern, the full ISO 8601 pattern and
  the loose `toUTCString` match, written as predicates over `seq<char>`;
- the epoch-seconds rule of `date.utils.ts`;
- the guards and never-throwing coercions of `type.utils.ts`;
- the runtime dotted-path resolver `tryParseProperty`;
- the type-level path grammar of `utility.types.ts` (`Join`, `Previous`, `DottedObjNotation`,
  `ExtractFromDottedPath`), evaluated on a `Shape` datatype;
- the string helpers of `string.utils.ts`;
- the list helpers of `list.utils.ts`.

Calls into the JavaScript engine are fields of a `Host` value and are left uninterpreted:

- `JSON.parse`;
- `new Date(v)`;
- `Date.prototype.toISOString`;
- `JSON.stringify`;
- `localeCompare`, `toLocaleLowerCase` and `toLocaleUpperCase`;
- `normalize('NFD')`.

`ValidHost` states the few facts the proofs rely on:

- a string that `JSON.parse` decodes to is shorter than its JSON text;
- `new Date(d)` of a `Date` keeps its time value;
- `toISOString` of a time in years 0000–9999 starts with `YYYY-MM-DDT`.

Modules:

- `Text`: character classes, ASCII case mapping, `split`/`join`, `trim` and decimal text.
- `JsValues`: `Value`, `JsNumber`, `DateValue`, truthiness, property lookup and `Host`.
- `DateFormats`: the regular expressions as predicates.
- `TypeGuards`: the `is…` guards and `hasKey`.
- `DateUtils`: `date.utils.ts`.
- `TypeCoercions`: the `tryParse…` functions.
- `DottedPaths`: `utility.types.ts`.
- `StringUtils`: `string.utils.ts`.
- `ListUtils`: `list.utils.ts`.

Three functions loop in the source, and they are methods with loop invariants proved against a specification function:

- `simpleHash`;
- `nArray`;
- `distinct`.

`toMap` and `replacePlaceholders` are methods too: their accumulating `reduce` and their mutable index are loops.

## Model

| member | source | states |
|---|---|---|
| Text.AsciiLower | libs/ts-core/src/utils/type.utils.ts:72 | `toLowerCase` keeps the length and lowers each A–Z letter, leaving every other character as it is |
| Text.LowerOfUpper | libs/ts-core/src/utils/type.utils.ts:72 | lowering an upper-cased string gives the same as lowering the string itself |
| Text.IndexOf | libs/ts-core/src/utils/type.utils.ts:213-214 | the index found is the first occurrence of the separator |
| Text.JoinSplit | libs/ts-core/src/utils/type.utils.ts:214-215 | joining the parts of `split(c)` with `c` gives back the string |
| Text.SplitPartsExclude | libs/ts-core/src/utils/type.utils.ts:214 | no part of `split(c)` contains `c` |
| Text.SplitJoin | libs/ts-core/src/utils/type.utils.ts:214-215 | splitting a `c`-join of `c`-free parts gives back the parts |
| Text.SplitRest | libs/ts-core/src/utils/type.utils.ts:214-215 | the head of `split('.')` is the text before the first `.`, and `rest.join('.')` is the text after it |
| Text.TrimStart | libs/ts-core/src/utils/string.utils.ts:102 | the result is a suffix of the input that does not start with whitespace |
| Text.TrimEnd | libs/ts-core/src/utils/string.utils.ts:102 | the result is a prefix of the input that does not end with whitespace |
| Text.NatTextLength | libs/ts-core/src/utils/date.utils.ts:52 | `String(n)` of a natural number has k characters exactly when 10^(k-1) ≤ n < 10^k |
| JsValues.IntNumber | libs/ts-core/src/utils/date.utils.ts:52 | the number of an integer carries the text `String(n)` gives it |
| TypeGuards.IsString | libs/ts-core/src/utils/type.utils.ts:5-7 | true exactly for strings |
| TypeGuards.IsNumber | libs/ts-core/src/utils/type.utils.ts:9-11 | true exactly for numbers other than NaN |
| TypeGuards.IsObject | libs/ts-core/src/utils/type.utils.ts:13-15 | true exactly for records and Dates, so never for null, arrays or strings |
| TypeGuards.IsArray | libs/ts-core/src/utils/type.utils.ts:17-19 | an array is of `typeof` "object" but never passes `isObject` |
| TypeGuards.IsBool | libs/ts-core/src/utils/type.utils.ts:21-23 | true exactly for booleans |
| TypeGuards.IsDateObject | libs/ts-core/src/utils/type.utils.ts:25-27 | true exactly for Dates, and every Date is an object |
| TypeGuards.HasKey | libs/ts-core/src/utils/type.utils.ts:53-59 | true iff the key is truthy, the value is a record or Date, and `key in val` holds, inherited keys included; the keys `''` and `0` are never found |
| TypeGuards.HasKeyWithValue | libs/ts-core/src/utils/type.utils.ts:61-64 | implies `hasKey`, and never holds for a NaN value because `===` fails |
| TypeGuards.IsIterable | libs/ts-core/src/utils/type.utils.ts:33-35 | true exactly for arrays and for records whose `Symbol.iterator` member is a function |
| TypeGuards.ArrayFrom | libs/ts-core/src/utils/type.utils.ts:157 | `Array.from` of an array is its items, and of an iterable record is the items it yields |
| TypeGuards.IsStringList | libs/ts-core/src/utils/type.utils.ts:37-39 | an iterable whose items are all strings; on an array, iff every item is a string |
| TypeGuards.IsNumberList | libs/ts-core/src/utils/type.utils.ts:49-51 | an iterable whose items are all numbers; on an array, iff every item is a non-NaN number |
| TypeGuards.EmptyListIsBoth | libs/ts-core/src/utils/type.utils.ts:37-39 | the empty array is both a string list and a number list |
| TypeGuards.StringIsNoList | libs/ts-core/src/utils/type.utils.ts:33-39 | a string is not iterable and is no string list, because `hasKey` needs a record |
| DateFormats.IsDateOnly | libs/ts-core/src/utils/date.utils.ts:36 | true exactly for ten characters, digits everywhere except `-` at positions 4 and 7 |
| DateFormats.IsIsoFull | libs/ts-core/src/utils/date.utils.ts:29 | a match has at least 19 characters: a date-only head, `T` or `t`, and `:` at positions 13 and 16 |
| DateFormats.ContainsUtcDate | libs/ts-core/src/utils/date.utils.ts:31-34 | a string holding a match has at least 21 characters |
| DateFormats.ZoneNotDigit | libs/ts-core/src/utils/date.utils.ts:29 | a time-zone designator never starts with a digit |
| DateFormats.FractionThenZone | libs/ts-core/src/utils/date.utils.ts:29 | after the `.`, a run of digits and then a tail matches iff the tail is a zone designator |
| DateFormats.IsoHeadOfPrefix | libs/ts-core/src/utils/date.utils.ts:29 | the `YYYY-MM-DDThh:mm:ss` head depends only on the first 19 characters |
| DateFormats.IsoWithoutFraction | libs/ts-core/src/utils/date.utils.ts:29 | with no fraction, a full ISO string is the head followed by an optional `Z` or `[+-]hh:mm` |
| DateFormats.IsoWithFraction | libs/ts-core/src/utils/date.utils.ts:29 | with a `.`, the fraction must have at least one digit and be followed by an optional zone |
| DateFormats.IsoHasSeconds | libs/ts-core/src/utils/date.utils.ts:29 | every full ISO string carries `:ss` seconds |
| DateFormats.IsoFullIgnoresCase | libs/ts-core/src/utils/date.utils.ts:29 | the `i` flag: upper-casing a string does not change whether it matches |
| DateFormats.DateOnlyAtMidnightIsIsoFull | libs/ts-core/src/utils/date.utils.ts:119 | a `YYYY-MM-DD` string followed by `T00:00:00.000Z` matches `ISO_8601_FULL` |
| DateFormats.DateOnlyIsNotIsoFull | libs/ts-core/src/utils/date.utils.ts:29-36 | a date-only string is no full ISO string, and the first ten characters of a full ISO string are a date-only string |
| DateFormats.UtcMatchIgnoresSurroundings | libs/ts-core/src/utils/date.utils.ts:34 | `UTC_DATE_STRING` is unanchored: a match stays a match with any text before and after it |
| DateFormats.FormatOnlyExamples | libs/ts-core/src/utils/date.utils.ts:20-36 | the checks test the format only: "2024-13-45" is date-only and "2024-13-45T99:99:99Z" is full ISO |
| DateFormats.IsoAcceptsNoZone | libs/ts-core/src/utils/date.utils.ts:29 | the zone designator is optional |
| DateFormats.IsoAcceptsLowerCase | libs/ts-core/src/utils/date.utils.ts:29 | lower-case `t` and `z` are accepted |
| DateFormats.IsoAcceptsOffset | libs/ts-core/src/utils/date.utils.ts:29 | a fraction followed by a `+hh:mm` offset is accepted |
| DateFormats.IsoRejectExamples | libs/ts-core/src/utils/date.utils.ts:29 | a string without seconds, with an empty fraction, or with an offset lacking its colon or minutes is rejected |
| DateFormats.UtcAcceptsUtcString | libs/ts-core/src/utils/date.utils.ts:31-34 | the `toUTCString` shape "Wed, 02 Oct 2024 00:00:00 GMT" matches |
| DateFormats.UtcAcceptsLooseText | libs/ts-core/src/utils/date.utils.ts:34 | the loose match also accepts made-up names, impossible numbers and surrounding text |
| DateUtils.IsValidDate | libs/ts-core/src/utils/date.utils.ts:42-55 | false for undefined, null, booleans, arrays, records, functions and infinite numbers |
| DateUtils.IsDateString | libs/ts-core/src/utils/date.utils.ts:57-62 | a date string is a ten-character string that is also `isValidDate` |
| DateUtils.NatTextAtLeast | libs/ts-core/src/utils/date.utils.ts:52 | a natural number at least 10^k has more than k digits |
| DateUtils.EpochRule | libs/ts-core/src/utils/date.utils.ts:50-53 | a finite number from `UNIX_EPOCH_MIN` on and below 10^21 (where `String` still writes integers in fixed notation) is a valid date iff it is an integer of at most 9999999999, so a fractional epoch fails the length test |
| DateUtils.EpochBelowMinimum | libs/ts-core/src/utils/date.utils.ts:52 | a number below 1635638400 is never a valid date |
| DateUtils.ShapeOnlyDates | libs/ts-core/src/utils/date.utils.ts:42-62 | "2024-13-45" passes both `isDateString` and `isValidDate`, and so does a full ISO string with impossible values |
| DateUtils.ToDate | libs/ts-core/src/utils/date.utils.ts:64-71 | a Date is returned unchanged; the result is undefined exactly when the input is neither a Date nor `isValidDate`; a result is always a Date |
| DateUtils.ToDateString | libs/ts-core/src/utils/date.utils.ts:73-75 | throws `RangeError` exactly on an invalid Date; otherwise the result is the prefix of the ISO text before its first `T`, or the whole text when it has none |
| DateUtils.IsoDatePart | libs/ts-core/src/utils/date.utils.ts:74 | in `YYYY-MM-DDT…` text, the first `T` is at index 10 and the part before it is date-only |
| DateUtils.ToDateStringIsDateOnly | libs/ts-core/src/utils/date.utils.ts:73-75 | for a time in years 0000–9999 the result is the first ten ISO characters, a `YYYY-MM-DD` string |
| DateUtils.CompareDates | libs/ts-core/src/utils/date.utils.ts:85-99 | 0 when both are falsy, -1 when only the first is, 1 when only the second is; otherwise a number exactly when both Dates are valid (NaN otherwise), and then the difference of their time values |
| DateUtils.CompareDatesAntisymmetric | libs/ts-core/src/utils/date.utils.ts:85-99 | swapping the arguments negates the result |
| DateUtils.SecondsInMs | libs/ts-core/src/utils/date.utils.ts:101-103 | the result is a whole multiple of 1000 holding the given seconds |
| DateUtils.MinutesInMs | libs/ts-core/src/utils/date.utils.ts:105-107 | m minutes are m · 60 000 ms |
| DateUtils.HoursInMs | libs/ts-core/src/utils/date.utils.ts:109-111 | h hours are h · 3 600 000 ms |
| DateUtils.ToDateObject | libs/ts-core/src/utils/date.utils.ts:113-121 | null exactly for falsy input; a Date unchanged; a date-only string is read at `T00:00:00.000Z`; any other string goes to `new Date` as it is |
| DateUtils.ToDateObjectMidnight | libs/ts-core/src/utils/date.utils.ts:119 | the argument built for a date-only string matches `ISO_8601_FULL` and is `isValidDate` |
| DateUtils.Prefix | libs/ts-core/src/utils/date.utils.ts:129 | `slice(0, n)` is a prefix of length min(n, length) |
| DateUtils.ToDateOnlyString | libs/ts-core/src/utils/date.utils.ts:123-130 | null on falsy input; a `YYYY-MM-DD` string is returned as is; throws `RangeError` exactly when the Date built from the rest is invalid, and otherwise gives the first ten characters of that Date's ISO text; a result has at most ten characters |
| DateUtils.ToDateOnlyStringOfDate | libs/ts-core/src/utils/date.utils.ts:123-130 | on any truthy argument other than a `YYYY-MM-DD` string that builds a Date in years 0000–9999 it agrees with `toDateString` and yields a date-only string |
| DateUtils.ToDateOnlyStringIdempotent | libs/ts-core/src/utils/date.utils.ts:123-130 | applied to its own result for such a Date, it returns that result |
| TypeCoercions.TryParseBool | libs/ts-core/src/utils/type.utils.ts:66-82 | booleans unchanged; anything other than a boolean or a string gives undefined |
| TypeCoercions.TryParseBoolWords | libs/ts-core/src/utils/type.utils.ts:71-79 | a string gives true iff its lower case is "true", "1" or "yes", false iff it is "false", "0" or "no", and undefined otherwise |
| TypeCoercions.TryParseBoolIgnoresCase | libs/ts-core/src/utils/type.utils.ts:72 | upper-casing the input does not change the result |
| TypeCoercions.TryParseBoolExamples | libs/ts-core/src/utils/type.utils.ts:66-82 | "TRUE" gives true, "No" gives false, "on" and the number 1 give undefined |
| TypeCoercions.TryParseDate | libs/ts-core/src/utils/type.utils.ts:84-100 | undefined for every falsy input (0 and "" included); a Date unchanged; otherwise the Date built, or undefined when it is invalid |
| TypeCoercions.IsDateTime | libs/ts-core/src/utils/type.utils.ts:142-144 | true exactly for a Date object, or a truthy value from which `new Date` builds a valid Date |
| TypeCoercions.IsDateTimeCases | libs/ts-core/src/utils/type.utils.ts:142-144 | every Date is a date-time, no falsy value is, and a non-Date date-time parses to a valid Date |
| TypeCoercions.TryParseDateStringAsWritten | libs/ts-core/src/utils/type.utils.ts:102-113 | undefined for non-date strings; it throws exactly when a date string builds an invalid Date |
| TypeCoercions.DateGuardAlwaysHolds | libs/ts-core/src/utils/type.utils.ts:112 | `isValidDate` holds for every Date, the invalid one included |
| TypeCoercions.TryParseDateStringThrows | libs/ts-core/src/utils/type.utils.ts:107-112 | "2024-13-45" passes the guard and reaches `toISOString` on an invalid Date, which throws |
| TypeCoercions.TryParseDateString | libs/ts-core/src/utils/type.utils.ts:102-113 | undefined for anything not matching `DATE_STRING`; defined exactly for date strings that build a valid Date; a result has no `T` |
| TypeCoercions.TryParseDateStringAgrees | libs/ts-core/src/utils/type.utils.ts:102-113 | wherever the code as written does not throw, the corrected function returns the same |
| TypeCoercions.TryParseDateStringIsDateOnly | libs/ts-core/src/utils/type.utils.ts:102-113 | a date-only string that builds a valid Date in years 0000–9999 gives a date-only string |
| TypeCoercions.RangeOf | libs/ts-core/src/utils/type.utils.ts:129-137 | the pair of date strings is built exactly when both Dates are valid, and throws `RangeError` otherwise |
| TypeCoercions.TryParseDateRange | libs/ts-core/src/utils/type.utils.ts:115-140 | a string never throws (its JSON decoding and recursion sit inside `try`); anything other than a string or a two-item array gives undefined; two Date objects give their `toDateString` pair; other pairs give the pair of their `tryParseDate` results when both parse, else undefined; range ends have no `T` |
| TypeCoercions.IsDateRange | libs/ts-core/src/utils/type.utils.ts:146-148 | throws exactly when `tryParseDateRange` throws; otherwise true iff it gives a range; true only for strings and two-item arrays |
| TypeCoercions.DateRangeOfTwoStrings | libs/ts-core/src/utils/type.utils.ts:126-138 | two date-only strings of valid dates give the pair of their date strings |
| TypeCoercions.DateRangeOfJson | libs/ts-core/src/utils/type.utils.ts:116-123 | a string decoding to an array gives that array's result, a throw turned into undefined |
| TypeCoercions.DateRangeOfBadJson | libs/ts-core/src/utils/type.utils.ts:117-123 | a string that `JSON.parse` rejects gives undefined |
| TypeCoercions.DateRangeThrowsOnInvalidDate | libs/ts-core/src/utils/type.utils.ts:129-137 | a pair of invalid Dates throws `RangeError`, outside any `try`; an invalid Date paired with v throws iff v parses as a date |
| TypeCoercions.TryParseArray | libs/ts-core/src/utils/type.utils.ts:150-180 | every item of a result passes the test; an array is kept iff all its items pass; another iterable gives `Array.from` of it iff all its items pass; a string gives the array `JSON.parse` decodes iff all its items pass, and undefined when it decodes to no array; a non-string non-iterable gives undefined |
| TypeCoercions.TryParseArrayWithoutTest | libs/ts-core/src/utils/type.utils.ts:150-180 | without a test, every iterable is accepted as `Array.from` of it, and a string iff it decodes to an array |
| TypeCoercions.TryParseProperty | libs/ts-core/src/utils/type.utils.ts:208-219 | a non-object gives undefined; a key without `.` is `obj[key]` |
| TypeCoercions.TryParsePropertyWalks | libs/ts-core/src/utils/type.utils.ts:213-215 | a dotted key walks the objects segment by segment, undefined as soon as a step is no object |
| TypeCoercions.TryParsePropertyStopsAtArrays | libs/ts-core/src/utils/type.utils.ts:209-211 | arrays are never descended into |
| TypeCoercions.Obj | libs/ts-core/src/utils/type.utils.ts:13-15 | a plain record with the given own fields is an object |
| TypeCoercions.TryParsePropertyExamples | libs/ts-core/src/utils/type.utils.ts:208-219 | "a.b.c" finds the nested value, a missing segment gives undefined, and an array index is not followed |
| DottedPaths.Previous | libs/ts-core/src/types/utility.types.ts:112 | never at 0, D-1 from 1 to 11, and 0 from 12 on, so always below D and at most 10 |
| DottedPaths.JoinPath | libs/ts-core/src/types/utility.types.ts:102-110 | `Join` with `''` is the key alone; otherwise the key, a `.` and the sub-path |
| DottedPaths.NoDotsCountZero | libs/ts-core/src/types/utility.types.ts:102-110 | a segment without `.` adds no separator |
| DottedPaths.CountDotsAppend | libs/ts-core/src/types/utility.types.ts:108 | the separators of a joined path are those of its parts |
| DottedPaths.SegmentBound | libs/ts-core/src/types/utility.types.ts:112-126 | with dot-free keys, a path at depth D has at most D+1 segments for D up to 11, and at most 2 from 12 on |
| DottedPaths.DepthZeroIsKeys | libs/ts-core/src/types/utility.types.ts:112-119 | depth never yields no paths, so depth 0 yields exactly the string keys |
| DottedPaths.RecordPaths | libs/ts-core/src/types/utility.types.ts:115-126 | a path is exactly a string key K or `K.P` for a non-empty path P of `T[K]` at the previous depth |
| DottedPaths.KeyIsPath | libs/ts-core/src/types/utility.types.ts:122-125 | every string key of the record is a path |
| DottedPaths.SubPathIsPath | libs/ts-core/src/types/utility.types.ts:122-126 | each sub-path of `T[K]` contributes `Join<K, P>` |
| DottedPaths.PathsMonotone | libs/ts-core/src/types/utility.types.ts:112-126 | up to depth 11, a deeper depth never loses a path |
| DottedPaths.PathMonotone | libs/ts-core/src/types/utility.types.ts:112-126 | the record case of the same fact, one path at a time |
| DottedPaths.DeepDepthIsDepthOne | libs/ts-core/src/types/utility.types.ts:112 | from depth 12 on, the rest element makes the paths those of depth 1 |
| DottedPaths.Extract | libs/ts-core/src/types/utility.types.ts:130-138 | never unless the path is a path of the type at the default depth 3; otherwise the first-dot split |
| DottedPaths.FirstDotAfterKey | libs/ts-core/src/types/utility.types.ts:131-134 | the first `.` of `K.P`, for a dot-free K, sits right after K |
| DottedPaths.ExtractMatchesResolver | libs/ts-core/src/types/utility.types.ts:130-138 | on a value of a record type with dot-free keys, every path has a type, `tryParseProperty` finds the value `ValueAt` reaches by following own fields along the same first-dot split, and that value has the path's type |
| DottedPaths.PathExamples | libs/ts-core/src/types/utility.types.ts:115-126 | `{a: {b: prim}, 0: prim}` has exactly the paths "a" and "a.b": the numeric key adds none |
| StringUtils.CompareStr | libs/ts-core/src/utils/string.utils.ts:25-39 | 0 when both are falsy, -1 when only the first is, 1 when only the second is; otherwise `localeCompare` of the lower-cased strings |
| StringUtils.CompareStrAntisymmetric | libs/ts-core/src/utils/string.utils.ts:25-39 | if `localeCompare` is antisymmetric in sign, so is `compareStr` |
| StringUtils.CharAt0 | libs/ts-core/src/utils/string.utils.ts:91 | `charAt(0)` is the first character, or empty for the empty string |
| StringUtils.SliceEnd | libs/ts-core/src/utils/string.utils.ts:92 | the end index `slice` uses is clamped to the length |
| StringUtils.Initials | libs/ts-core/src/utils/string.utils.ts:91 | one upper-cased first character per word |
| StringUtils.ConcatIsJoin | libs/ts-core/src/utils/string.utils.ts:92 | `join('')` is plain concatenation |
| StringUtils.GetInitials | libs/ts-core/src/utils/string.utils.ts:90-93 | the first `maxLength` initials of the space-separated words, concatenated |
| StringUtils.Reverse | libs/ts-core/src/utils/string.utils.ts:102 | `reverse()` puts item i at position n-1-i |
| StringUtils.GetNameInitials | libs/ts-core/src/utils/string.utils.ts:95-104 | with a last name, the two upper-cased first letters; without one and without a comma, the initials of the trimmed name |
| StringUtils.NameInitialsOfLastFirst | libs/ts-core/src/utils/string.utils.ts:101-103 | a name `last,first` with one comma has the initials of the trimmed `first last` |
| StringUtils.SplitInTwo | libs/ts-core/src/utils/string.utils.ts:91 | a string with one separator splits into the text before and after it |
| StringUtils.InitialsOfTwoWords | libs/ts-core/src/utils/string.utils.ts:90-93 | "John Doe" gives "JD" |
| StringUtils.SplitName | libs/ts-core/src/utils/string.utils.ts:102 | "Doe, John" splits at the comma into "Doe" and " John" |
| StringUtils.TrimName | libs/ts-core/src/utils/string.utils.ts:102 | trimming drops the leading space |
| StringUtils.ReversedName | libs/ts-core/src/utils/string.utils.ts:102 | "Doe, John" becomes "John Doe" |
| StringUtils.NameInitialsReversed | libs/ts-core/src/utils/string.utils.ts:101-103 | "Doe, John" gives "JD" |
| StringUtils.NameInitialsOfTwoNames | libs/ts-core/src/utils/string.utils.ts:96-99 | "ada" with "lovelace" gives "AL" |
| StringUtils.GetItemId | libs/ts-core/src/utils/string.utils.ts:161-163 | a string is its own id, and otherwise the id is the item's `id` |
| StringUtils.Substring0 | libs/ts-core/src/utils/string.utils.ts:288 | `substring(0, end)` is the prefix of the clamped length |
| StringUtils.Truncate | libs/ts-core/src/utils/string.utils.ts:281-289 | falsy input gives `''`; input no longer than maxLength is unchanged; otherwise the prefix of maxLength minus the ellipsis length, then the ellipsis, exactly maxLength long when maxLength is at least the ellipsis length |
| StringUtils.Stringify | libs/ts-core/src/utils/string.utils.ts:227-244 | strings unchanged, numbers as `String(n)`, booleans as 'true'/'false', null and undefined as the default; it throws only for the invalid Date |
| StringUtils.StringifyZero | libs/ts-core/src/utils/string.utils.ts:231-233 | the number 0 gives "0", not the default |
| StringUtils.TryParseErrorMessage | libs/ts-core/src/utils/string.utils.ts:300-308 | a string is its own message; a record's string `message` is used; a record without a string `message`, and anything else, gives the default |
| StringUtils.ToInt32 | libs/ts-core/src/utils/string.utils.ts:173-174 | the result is a signed 32-bit integer congruent to the input modulo 2^32 |
| StringUtils.HashCode | libs/ts-core/src/utils/string.utils.ts:169-177 | the unsigned 32-bit hash is below 2^32 |
| StringUtils.HashCodeIsPolynomial | libs/ts-core/src/utils/string.utils.ts:171-174 | the hash is the polynomial Σ 31^(n-1-i)·c_i reduced modulo 2^32 |
| StringUtils.HashStep | libs/ts-core/src/utils/string.utils.ts:173-174 | `(hash << 5) - hash + char` and `hash &= hash` stay 32-bit and equal 31·hash + char modulo 2^32 |
| StringUtils.Value36 | libs/ts-core/src/utils/string.utils.ts:176 | the value of a base-36 digit is below 36 |
| StringUtils.Base36 | libs/ts-core/src/utils/string.utils.ts:176 | `toString(36)` is a non-empty run of base-36 digits with no leading zero |
| StringUtils.Base36RoundTrip | libs/ts-core/src/utils/string.utils.ts:176 | reading the base-36 text back gives the number |
| StringUtils.SimpleHash | libs/ts-core/src/utils/string.utils.ts:169-177 | the loop computes the base-36 text of the unsigned 32-bit polynomial hash |
| StringUtils.EmptyHash | libs/ts-core/src/utils/string.utils.ts:169-177 | the empty string hashes to "0" |
| StringUtils.RemoveWhitespace | libs/ts-core/src/utils/string.utils.ts:183 | removing `\s+` leaves no whitespace |
| StringUtils.RemoveWhitespaceAppend | libs/ts-core/src/utils/string.utils.ts:183 | removal distributes over concatenation |
| StringUtils.RemoveWhitespaceNone | libs/ts-core/src/utils/string.utils.ts:183 | a string without whitespace is unchanged |
| StringUtils.CamelMarks | libs/ts-core/src/utils/string.utils.ts:183-185 | each character the word-boundary pattern matches is lowered at index 0 and upper-cased elsewhere; all others stay |
| StringUtils.ToCamelCase | libs/ts-core/src/utils/string.utils.ts:182-186 | as written: the result has no whitespace and equals the input with whitespace removed, up to letter case |
| StringUtils.ToCamelCaseCorrected | libs/ts-core/src/utils/string.utils.ts:182-186 | the corrected order: the result has no whitespace |
| StringUtils.CamelMarksOfLowerWord | libs/ts-core/src/utils/string.utils.ts:183-185 | a lower-case word is left unchanged |
| StringUtils.RemoveSpaceBetween | libs/ts-core/src/utils/string.utils.ts:183 | removing the space of "a b" gives "ab" |
| StringUtils.DropLeadingSpace | libs/ts-core/src/utils/string.utils.ts:183 | a leading space is removed |
| StringUtils.ToCamelCaseJoinsWords | libs/ts-core/src/utils/string.utils.ts:182-186 | as written, two lower-case words are glued with no capital: "a b" gives "ab" |
| StringUtils.ToCamelCaseCorrectedCapitalises | libs/ts-core/src/utils/string.utils.ts:182-186 | corrected, the second word is capitalised: "a b" gives "aB" |
| StringUtils.CamelMarksAtSpace | libs/ts-core/src/utils/string.utils.ts:183-185 | the pattern capitalises the first letter after a space |
| StringUtils.ToCamelCaseExample | libs/ts-core/src/utils/string.utils.ts:182-186 | "hello world" gives "helloworld" |
| StringUtils.ToCamelCaseCorrectedExample | libs/ts-core/src/utils/string.utils.ts:182-186 | corrected, "hello world" gives "helloWorld" |
| StringUtils.CollapseWhitespace | libs/ts-core/src/utils/string.utils.ts:224 | each `\s+` run becomes the separator: no whitespace is left, a leading run becomes the separator, the text does not grow, a string without whitespace is unchanged, and with the separator's own occurrences removed the result is the input without its whitespace (when the input holds no separator) |
| StringUtils.TrimStartChars | libs/ts-core/src/utils/string.utils.ts:222 | a trimmed string is a suffix of its input |
| StringUtils.CollapseKeeps | libs/ts-core/src/utils/string.utils.ts:224 | every character of the result is the separator or a kept input character |
| StringUtils.CollapseNoDoubled | libs/ts-core/src/utils/string.utils.ts:224 | when the separator does not occur in the input, it never appears twice in a row |
| StringUtils.CollapseRun | libs/ts-core/src/utils/string.utils.ts:224 | a whitespace run between whitespace-free text and a non-whitespace character (or the end) becomes exactly one separator, and the rest is collapsed on its own |
| StringUtils.ToSnakeCase | libs/ts-core/src/utils/string.utils.ts:191-195 | the result has no whitespace; a string without whitespace is only lower-cased (when asked); without `_` in the input, removing the `_` from the result gives the input without whitespace, lower-cased when asked |
| StringUtils.ToSnakeCaseSingleSeparators | libs/ts-core/src/utils/string.utils.ts:191-195 | on input without `_`, no two `_` are adjacent |
| StringUtils.ToSnakeCaseIdempotent | libs/ts-core/src/utils/string.utils.ts:191-195 | applying it twice gives the same as once |
| StringUtils.ToSnakeCaseRun | libs/ts-core/src/utils/string.utils.ts:191-195 | a whitespace run after whitespace-free text becomes one `_`, the text before it lower-cased when asked, and the rest converted on its own |
| StringUtils.CamelToSnakeCase | libs/ts-core/src/utils/string.utils.ts:200-202 | the output has no A–Z and is longer than the input by the number of capitals; which characters are written is stated by CamelToSnakeCaseAtCapital and CamelToSnakeCaseAppend |
| StringUtils.CamelToSnakeCaseNoUpper | libs/ts-core/src/utils/string.utils.ts:200-202 | other characters are untouched: input without capitals is unchanged |
| StringUtils.CamelToSnakeCaseAppend | libs/ts-core/src/utils/string.utils.ts:200-202 | the replacement works character by character, so it distributes over concatenation |
| StringUtils.CamelToSnakeCaseAtCapital | libs/ts-core/src/utils/string.utils.ts:200-202 | a capital after text without capitals becomes `_` followed by its lower case, in its place, and the text before it is kept |
| StringUtils.CamelToSnakeCaseExample | libs/ts-core/src/utils/string.utils.ts:200-202 | "fooBar" gives "foo_bar" |
| StringUtils.CamelizeSeparators | libs/ts-core/src/utils/string.utils.ts:208-210 | the text never grows, and when `_` is kept its count is unchanged; what a match is rewritten to is stated by CamelizeAtPair and CamelizeAtMatch |
| StringUtils.CamelizeAtPair | libs/ts-core/src/utils/string.utils.ts:208-210 | at `-` or `_` followed by a–z, the letter is upper-cased, a `-` is removed, and a `_` is kept exactly when underscores are not dropped |
| StringUtils.CamelizeAtMatch | libs/ts-core/src/utils/string.utils.ts:208-210 | text without `-` or `_` is copied up to the first match, which is rewritten in place as above, and the scan goes on after it |
| StringUtils.SnakeToCamelCase | libs/ts-core/src/utils/string.utils.ts:207-211 | as written: never longer than the input, every `_` of the lowered input survives, and an input without `-` or `_` is only lower-cased |
| StringUtils.SnakeToCamelCaseExample | libs/ts-core/src/utils/string.utils.ts:207-211 | "foo_bar" gives "foo_Bar" |
| StringUtils.SnakeToCamelCaseDropsHyphen | libs/ts-core/src/utils/string.utils.ts:207-211 | a `-` between two lower-case words is removed and the second word gets a capital |
| StringUtils.SnakeToCamelCaseHyphenExample | libs/ts-core/src/utils/string.utils.ts:207-211 | "foo-bar" gives "fooBar" |
| StringUtils.SnakeToCamelCaseKeepsUnderscore | libs/ts-core/src/utils/string.utils.ts:207-211 | as written, two lower-case words joined by `_` keep the `_` and the second word gets a capital |
| StringUtils.SnakeToCamelCaseCorrectedDropsUnderscore | libs/ts-core/src/utils/string.utils.ts:207-211 | corrected, the `_` between two lower-case words is dropped and the second word gets a capital |
| StringUtils.SnakeToCamelCaseCorrectedExample | libs/ts-core/src/utils/string.utils.ts:207-211 | corrected, "foo_bar" gives "fooBar" |
| StringUtils.SnakeToCamelCaseCorrected | libs/ts-core/src/utils/string.utils.ts:207-211 | the corrected conversion is never longer than its input, and without `-` or `_` it only lower-cases |
| StringUtils.SnakeToCamelCaseInverts | libs/ts-core/src/utils/string.utils.ts:200-211 | corrected, it inverts `camelToSnakeCase` on every string without `_` or `-` |
| StringUtils.CamelizeCamelToSnake | libs/ts-core/src/utils/string.utils.ts:200-210 | the separator step undoes `camelToSnakeCase` on such strings |
| StringUtils.Filter | libs/ts-core/src/utils/string.utils.ts:220-223 | removing the characters a pattern matches keeps only the others |
| StringUtils.Slugify | libs/ts-core/src/utils/string.utils.ts:215-225 | every character of the slug is in `[a-z0-9-]` and no two hyphens are adjacent |
| StringUtils.LettersOnly | libs/ts-core/src/utils/string.utils.ts:293-294 | lower-casing and replacing each non-letter by a space keeps the length |
| StringUtils.Capitalize | libs/ts-core/src/utils/string.utils.ts:296 | the word keeps its letters up to case; a word not among the gap words gets an upper-case first letter and keeps the rest; a gap word (or the empty word) is returned as it is |
| StringUtils.AsciiLowerAppend | libs/ts-core/src/utils/string.utils.ts:293 | lower-casing distributes over concatenation |
| StringUtils.JoinAgreesUpToCase | libs/ts-core/src/utils/string.utils.ts:295-297 | joining words that agree up to case gives strings that agree up to case |
| StringUtils.TitleCase | libs/ts-core/src/utils/string.utils.ts:291-298 | the result keeps the length and, lowered, is the input with every non-letter turned into a space |
| StringUtils.LettersOnlyOfWords | libs/ts-core/src/utils/string.utils.ts:293-294 | two lower-case words and a space are unchanged |
| StringUtils.SplitWords | libs/ts-core/src/utils/string.utils.ts:295 | "a b" splits into the two words |
| StringUtils.TitleCaseTwoWords | libs/ts-core/src/utils/string.utils.ts:291-298 | two words that are not gap words are both capitalised |
| StringUtils.TitleCaseOfLowerWords | libs/ts-core/src/utils/string.utils.ts:291-298 | on lower-case words joined by single spaces, each word is capitalised unless it is a gap word, which stays as it is |
| StringUtils.TitleCaseExample | libs/ts-core/src/utils/string.utils.ts:291-298 | with the default gap words, "salt and pepper" gives "Salt and Pepper" |
| StringUtils.CloseFrom | libs/ts-core/src/utils/string.utils.ts:264-272 | the non-greedy `.*?\}` ends at the first `}` and stops at a line terminator |
| StringUtils.Placeholders | libs/ts-core/src/utils/string.utils.ts:264 | `template.match(/\{.*?\}/g)` has as many matches as counted, and each match is `{`, then characters that are neither `}` nor a line terminator, then `}` |
| StringUtils.FillWithPlaceholders | libs/ts-core/src/utils/string.utils.ts:272-278 | putting each match back in its own place gives the template back |
| StringUtils.ReplaceInOrder | libs/ts-core/src/utils/string.utils.ts:271-278 | the replace pass with its running `index` puts the i-th string in place of the i-th placeholder, as `Fill` does |
| StringUtils.NoBraceNoPlaceholder | libs/ts-core/src/utils/string.utils.ts:264-272 | a template without `{` has no placeholder and is unchanged |
| StringUtils.FillExample | libs/ts-core/src/utils/string.utils.ts:252-279 | "{a}-{b}" has two placeholders, and with "1" and "2" it becomes "1-2" |
| StringUtils.StringsOf | libs/ts-core/src/utils/string.utils.ts:259 | the items that are all strings, as strings |
| StringUtils.ReplacePlaceholders | libs/ts-core/src/utils/string.utils.ts:252-279 | a non-array or empty `values` gives the template; a non-string value throws; a count mismatch throws; otherwise the i-th placeholder becomes `values[i]` |
| ListUtils.ToMap | libs/ts-core/src/utils/list.utils.ts:8-10 | the reduce builds the map of each item under its key |
| ListUtils.MapOfKeys | libs/ts-core/src/utils/list.utils.ts:8-10 | the keys of the map are exactly the image of `keyFn` |
| ListUtils.MapOfLaterWins | libs/ts-core/src/utils/list.utils.ts:9 | for a duplicate key the last item with that key wins |
| ListUtils.DistinctOf | libs/ts-core/src/utils/list.utils.ts:24-31 | every item of the result is an input item, and every input item is in the result |
| ListUtils.Distinct | libs/ts-core/src/utils/list.utils.ts:24-31 | the reduce loop builds exactly the distinct items |
| ListUtils.DistinctHasNoDuplicates | libs/ts-core/src/utils/list.utils.ts:26-28 | the result has no duplicates |
| ListUtils.FirstIndex | libs/ts-core/src/utils/list.utils.ts:161 | `indexOf` gives the first occurrence |
| ListUtils.FirstIndexOfPrefix | libs/ts-core/src/utils/list.utils.ts:26 | the first occurrence inside a prefix is the first occurrence overall |
| ListUtils.DistinctKeepsFirstOrder | libs/ts-core/src/utils/list.utils.ts:24-31 | the result lists the items in the order of their first occurrences |
| ListUtils.NArray | libs/ts-core/src/utils/list.utils.ts:47-53 | the result is from, from+1, …, to, with max(0, to-from+1) items, and empty when from > to |
| ListUtils.Insert | libs/ts-core/src/utils/list.utils.ts:63 | inserting adds exactly the item |
| ListUtils.SortBy | libs/ts-core/src/utils/list.utils.ts:60-73 | sorting a copy gives a permutation of the input |
| ListUtils.InsertItems | libs/ts-core/src/utils/list.utils.ts:63 | an item of the insertion is the new item or an old one |
| ListUtils.InsertSortedFront | libs/ts-core/src/utils/list.utils.ts:63 | an item no greater than the head keeps the list sorted in front |
| ListUtils.InsertSortedLater | libs/ts-core/src/utils/list.utils.ts:63 | inserting behind a smaller head keeps the list sorted |
| ListUtils.InsertSorted | libs/ts-core/src/utils/list.utils.ts:63 | insertion into a sorted list keeps it sorted under a total preorder |
| ListUtils.SortBySorted | libs/ts-core/src/utils/list.utils.ts:60-73 | under a total preorder the result is sorted |
| ListUtils.ReverseSorted | libs/ts-core/src/utils/list.utils.ts:60-73 | the reverse of a sorted list is sorted the other way round |
| ListUtils.NumberOrderIsTotalPreorder | libs/ts-core/src/utils/list.utils.ts:71-72 | `(a, b) => a - b` is a total preorder on numbers other than NaN |
| ListUtils.SortNumerically | libs/ts-core/src/utils/list.utils.ts:69-73 | a permutation of the input, non-decreasing ascending and non-increasing descending |
| ListUtils.ReversePermutes | libs/ts-core/src/utils/list.utils.ts:60-73 | `reverse()` is a permutation |
| ListUtils.SortAlphabetically | libs/ts-core/src/utils/list.utils.ts:60-64 | the result is a permutation of the input |
| ListUtils.SortAlphabeticallySorted | libs/ts-core/src/utils/list.utils.ts:60-64 | under a `compareStr` that is a total preorder, the ascending result is sorted and the descending one sorted the other way |
| ListUtils.SortAlphabeticallyDescending | libs/ts-core/src/utils/list.utils.ts:60-64 | the descending result is the ascending one reversed, and a permutation of the input |
| ListUtils.SortByDate | libs/ts-core/src/utils/list.utils.ts:78-85 | the argument is returned unchanged |
| ListUtils.SortByKeyValue | libs/ts-core/src/utils/list.utils.ts:90-105 | the input as it is when any item is not an object; always a permutation of the input |
| ListUtils.SortByKeyValueSorted | libs/ts-core/src/utils/list.utils.ts:96-100 | ascending, the items are ordered by `sortFn` on their key values; descending, in the opposite order |
| ListUtils.SortByKeyValueDescending | libs/ts-core/src/utils/list.utils.ts:96-104 | when every item is an object, the descending result is the ascending one reversed |
| ListUtils.Pop | libs/ts-core/src/utils/list.utils.ts:140-145 | undefined when empty, else the last item, which stays in place |
| ListUtils.LastItem | libs/ts-core/src/utils/list.utils.ts:155 | never undefined; the last item when it is neither null nor undefined |
| ListUtils.LastItemIsPop | libs/ts-core/src/utils/list.utils.ts:140-155 | `lastItem` is `pop` with undefined and null both turned into null |
| ListUtils.Sum | libs/ts-core/src/utils/list.utils.ts:147-149 | the empty sum is 0; with no negative item, the sum is non-negative and no less than any item |
| ListUtils.SumAppend | libs/ts-core/src/utils/list.utils.ts:147-149 | the sum of a concatenation is the sum of the sums |
| ListUtils.SumIsSumRight | libs/ts-core/src/utils/list.utils.ts:147-149 | the left fold from 0 equals the right fold |
| ListUtils.ToggleArrayValue | libs/ts-core/src/utils/list.utils.ts:160-165 | an absent value is appended; for a present value, only its first occurrence is removed and the rest keeps its order |
| ListUtils.ToggleTwiceAbsent | libs/ts-core/src/utils/list.utils.ts:160-165 | toggling an absent value twice restores the array |
| ListUtils.ToggleTwicePresent | libs/ts-core/src/utils/list.utils.ts:160-165 | toggling a value held once twice moves it to the end |
| ListUtils.RandomItem | libs/ts-core/src/utils/list.utils.ts:37-42 | throws the empty-array error exactly on an empty array; otherwise the item chosen is one of the items |

## Left out

- `toISO`, `toEpoch` (date.utils.ts:77-83): one-line calls into the `Date` engine, which is uninterpreted here.
- `ISO_8601` (date.utils.ts:17): nothing in the modelled core uses this partial-date pattern.
- `getRandomId`, `getIdOrDefault` and `getRandomId`'s use of `Math.random`: randomness.
- `toQueryString`, `parseQueryString`: they delegate to the external `qs` library.
- `QUERY_STRING_REGEX`: nothing in the modelled core uses it.
- `toString`, `toDisplayString` (string.utils.ts:45-83): they depend on `toLocaleString`.
- `toFormData`: it needs the browser DOM.
- `isStringRecord`, `isNullOrUndefined`: not part of the modelled core.
- `mapById`, `sortByStrValue`, `sortByNumberValue`, `avg`, `entriesOf`: one-line wrappers over modelled functions.
- `number.utils.ts`, `json.utils.ts` and the type-declaration files: not part of this model, apart from `DateRange` and the JSON value shape.
- `console.warn` calls: they do not affect any result.
- The date-range pre-parse inside `tryParseArray` (type.utils.ts:159-163): its result is always overwritten at line 165.
- JavaScript numbers are reals. NaN is a separate case in `Value`, with no float rounding. `sum` and `sortNumerically` therefore work on exact reals without NaN, and `nArray` on integer bounds.
- `toLowerCase`/`toUpperCase` are modelled on ASCII letters only. The Kelvin sign and other non-ASCII characters with ASCII case partners are not modelled. `toLocaleUpperCase`, `localeCompare` and `normalize('NFD')` are uninterpreted host functions.
- Characters are Unicode scalar values that stand for UTF-16 code units of the Basic Multilingual Plane. Astral characters (two code units in JavaScript) and lone surrogates are not modelled, so lengths, `charAt`, `slice` and the `charCodeAt` values summed by `SimpleHash` and `HashCode` agree with JavaScript only on text of that plane.
- ListUtils.ToMap: a JavaScript `Map` also remembers insertion order, which a Dafny `map` does not.
- ListUtils.DistinctOf, ListUtils.ToggleArrayValue: `includes` (SameValueZero) and `indexOf` (strict equality) are modelled as Dafny equality. Object identity and the NaN corner cases are not modelled.
- ListUtils.SortBy: the sort is a stable insertion sort over the comparator. For a comparator that is not a total preorder, JavaScript's `Array.prototype.sort` is implementation-defined. Stability is not proved.
- ListUtils.SortByDate: the descending flag is ignored, as in the source.
- ListUtils.RandomItem: `Math.random()` is a parameter `u` in [0, 1).
- DottedPaths.Shape: a record type is a finite map from keys to field types. Union-typed fields, index signatures (`Record<string, T>`), arrays and generic parameters are not expressible, so `RecordPaths` and `ExtractFromDottedPath` are modelled on plain nested object types only.
- DottedPaths.RecordPaths: optional keys (`-?`) are not distinguished from required ones, since a `Shape` lists every key.
- TypeGuards.ArrayFrom: an object whose `Symbol.iterator` member is a function the model does not run (`Member(Func)`) is taken to yield no items. JavaScript's `Array.from` runs that function, which may yield items or throw; only an iterator given as `Yields(items)` is modelled faithfully.
- TypeGuards.IsStringList, TypeGuards.IsNumberList: for such an unrun iterator function they hold vacuously, where JavaScript would test the items yielded or throw.
- TypeCoercions.TryParseArray: for such an unrun iterator function it gives `Some([])`, where JavaScript would return the yielded items or let the iterator's throw escape, since line 157 sits outside any `try`.
- TypeCoercions.TryParseArrayWithoutTest: its `Some(ArrayFrom(v))` is `Some([])` for such an unrun iterator function, under the same assumption as `ArrayFrom`.
- TypeGuards.IsDateObject: `Object.prototype.toString` tags are not modelled beyond Dates, so a record that forges `Symbol.toStringTag` is not a Date here.
- DateUtils.ToDateObject: the branch at date.utils.ts:117 calls `new Date(date)` just as the final branch does, so it is merged with it.
- DateUtils.IsValidDate: its contract lists the rejected kinds only. The string and number rules are its body and are proved in DateFormats and `EpochRule`.
- TypeCoercions.TryParseDateRange: `JSON.parse` decoding a string to a longer string is excluded by `ValidHost`. This gives the recursion a measure.
- StringUtils.ToCamelCaseCorrected: stated only through its lemmas and example. It is the well-known snippet order: boundaries are marked first, then whitespace is removed.

## Findings

| source | as written | input that shows it | evidently intended | confidence | as-written member | corrected member |
|---|---|---|---|---|---|---|
| libs/ts-core/src/utils/type.utils.ts:111-112 | the guard `isValidDate(date)` holds for every `Date`, the invalid one included, so `toDateString` calls `toISOString` on an invalid Date, which throws `RangeError` | "2024-13-45", which matches `DATE_STRING` but builds an invalid Date | undefined for a date string that builds an invalid Date | not executed | TypeCoercions.TryParseDateStringThrows | TypeCoercions.TryParseDateString |
| libs/ts-core/src/utils/string.utils.ts:183 | whitespace is removed before the word-boundary pattern runs, so later words are never capitalised | "hello world" gives "helloworld" | "helloWorld": mark the word boundaries first, then remove whitespace | not executed | StringUtils.ToCamelCaseExample | StringUtils.ToCamelCaseCorrectedCapitalises |
| libs/ts-core/src/utils/string.utils.ts:208-210 | the callback removes only `-`, so `_` stays in the output | "foo_bar" gives "foo_Bar" | "fooBar", the inverse of `camelToSnakeCase` | not executed | StringUtils.SnakeToCamelCaseExample | StringUtils.SnakeToCamelCaseInverts |
