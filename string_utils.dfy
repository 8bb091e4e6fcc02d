/**
 * The string helpers of `string.utils.ts`: comparison, initials, case
 * conversion, slugs, a 32-bit string hash, placeholder filling and
 * truncation. Locale-aware case mapping, `localeCompare` and
 * `normalize('NFD')` are the host's (see JsValues.Host).
 */
module StringUtils {
  import opened Text
  import opened JsValues
  import opened TypeGuards

  // ---------------------------------------------------------------------
  // compareStr
  // ---------------------------------------------------------------------

  /** `!!s` for a `Maybe<string>`: None stands for null or undefined. */
  predicate Present(s: Option<string>)
  {
    s.Some? && s.value != ""
  }

  /**
   * `compareStr`: 0 when both are empty or missing, -1 when only the first
   * is, 1 when only the second is; otherwise `localeCompare` of the
   * locale-lower-cased strings.
   */
  function CompareStr(h: Host, a: Option<string>, b: Option<string>): (r: int)
    ensures !Present(a) ==> r == (if Present(b) then -1 else 0)
    ensures Present(a) && !Present(b) ==> r == 1
    ensures Present(a) && Present(b) ==> r == h.localeCompare(h.localeLower(a.value), h.localeLower(b.value))
  {
    if !Present(a) && !Present(b) then 0
    else if !Present(a) then -1
    else if !Present(b) then 1
    else h.localeCompare(h.localeLower(a.value), h.localeLower(b.value))
  }

  function Sign(x: int): int
  {
    if x < 0 then -1 else if x == 0 then 0 else 1
  }

  /** When `localeCompare` is antisymmetric in sign, so is `compareStr`. */
  lemma CompareStrAntisymmetric(h: Host, a: Option<string>, b: Option<string>)
    requires forall x, y :: Sign(h.localeCompare(x, y)) == -Sign(h.localeCompare(y, x))
    ensures Sign(CompareStr(h, a, b)) == -Sign(CompareStr(h, b, a))
  {
    if Present(a) && Present(b) {
      var x, y := h.localeLower(a.value), h.localeLower(b.value);
      assert Sign(h.localeCompare(x, y)) == -Sign(h.localeCompare(y, x));
    }
  }

  // ---------------------------------------------------------------------
  // getInitials, getNameInitials
  // ---------------------------------------------------------------------

  /** `s.charAt(0)`. */
  function CharAt0(s: string): (r: string)
    ensures |r| == if s == [] then 0 else 1
    ensures r <= s
  {
    if s == [] then "" else s[..1]
  }

  /** The end index `slice(0, end)` uses on a sequence of length `n`. */
  function SliceEnd(n: nat, end: int): (e: nat)
    ensures e <= n
    ensures 0 <= end ==> e == if end < n then end else n
  {
    if end < 0 then (if n + end < 0 then 0 else n + end)
    else if end > n then n else end
  }

  /** The upper-cased first character of each word. */
  function Initials(h: Host, words: seq<string>): (r: seq<string>)
    ensures |r| == |words|
    ensures forall i :: 0 <= i < |words| ==> r[i] == h.localeUpper(CharAt0(words[i]))
  {
    seq(|words|, i requires 0 <= i < |words| => h.localeUpper(CharAt0(words[i])))
  }

  /** `s.split('').join('')`-style concatenation: `parts.join('')`. */
  function Concat(parts: seq<string>): string
  {
    if parts == [] then "" else parts[0] + Concat(parts[1..])
  }

  lemma {:induction false} ConcatIsJoin(parts: seq<string>)
    ensures Join(parts, "") == Concat(parts)
  {
    if |parts| > 1 {
      ConcatIsJoin(parts[1..]);
    } else if |parts| == 1 {
      assert parts[1..] == [];
    }
  }

  /**
   * `getInitials`: the upper-cased first character of each space-separated
   * word, of the first `maxLength` words (a negative `maxLength` counts from
   * the end, as `slice` does). The `replace(' ', '')` on each word changes
   * nothing, since no word of a split on `' '` holds a space.
   */
  function GetInitials(h: Host, s: string, maxLength: int): (r: string)
    ensures var words := Split(s, ' ');
      r == Concat(Initials(h, words)[..SliceEnd(|words|, maxLength)])
  {
    var initials := Initials(h, Split(s, ' '));
    ConcatIsJoin(initials[..SliceEnd(|initials|, maxLength)]);
    Join(initials[..SliceEnd(|initials|, maxLength)], "")
  }

  /** The default `maxLength` of `getInitials`. */
  const DefaultInitials: int := 2

  function Reverse<T>(s: seq<T>): (r: seq<T>)
    ensures |r| == |s| && forall i :: 0 <= i < |s| ==> r[i] == s[|s| - 1 - i]
  {
    if s == [] then [] else Reverse(s[1..]) + [s[0]]
  }

  /**
   * `getNameInitials`: with a last name, the upper-cased first characters
   * of both names; otherwise the name, read as "last, first" when it has a
   * comma, is turned around to "first last" and its initials taken.
   */
  function GetNameInitials(h: Host, firstOrFullName: string, lastName: Option<string>): (r: string)
    ensures Present(lastName) ==> r == h.localeUpper(CharAt0(firstOrFullName)) + h.localeUpper(CharAt0(lastName.value))
    ensures !Present(lastName) && ',' !in firstOrFullName ==> r == GetInitials(h, Trim(firstOrFullName), DefaultInitials)
  {
    if Present(lastName) then
      h.localeUpper(CharAt0(firstOrFullName)) + h.localeUpper(CharAt0(lastName.value))
    else
      var name := Trim(Join(Reverse(Split(firstOrFullName, ',')), " "));
      if ',' !in firstOrFullName then
        assert Split(firstOrFullName, ',') == [firstOrFullName];
        GetInitials(h, name, DefaultInitials)
      else
        GetInitials(h, name, DefaultInitials)
  }

  /** Splitting at the one separator of a string gives the two sides. */
  lemma SplitInTwo(s: string, c: char, i: nat)
    requires i < |s| && s[i] == c && c !in s[..i] && c !in s[i + 1..]
    ensures Split(s, c) == [s[..i], s[i + 1..]]
  {
    assert c in s;
    var j := IndexOf(s, c);
    assert j == i;
  }

  lemma ConcatTwo(x: string, y: string)
    ensures Concat([x, y]) == x + y
  {
    assert [y][1..] == [];
    assert Concat([y]) == y + "" == y;
    assert [x, y][1..] == [y];
  }

  /** The initial of a word that starts with a letter already in upper case. */
  lemma UpperInitial(h: Host, w: string, c: char)
    requires forall s :: h.localeUpper(s) == AsciiUpper(s)
    requires w != [] && w[0] == c && 'A' <= c <= 'Z'
    ensures h.localeUpper(CharAt0(w)) == [c]
  {
    assert CharAt0(w) == [c];
    assert AsciiUpper([c])[0] == UpperChar(c) == c;
  }

  /** "John Doe" has the initials "JD". */
  lemma InitialsOfTwoWords(h: Host)
    requires forall s :: h.localeUpper(s) == AsciiUpper(s)
    ensures GetInitials(h, "John Doe", DefaultInitials) == "JD"
  {
    var s := "John Doe";
    assert s[..4] == "John" && s[5..] == "Doe";
    SplitInTwo(s, ' ', 4);
    var words := ["John", "Doe"];
    var initials := Initials(h, words);
    UpperInitial(h, "John", 'J');
    UpperInitial(h, "Doe", 'D');
    assert initials == ["J", "D"];
    assert SliceEnd(2, DefaultInitials) == 2;
    assert initials[..2] == initials;
    ConcatTwo("J", "D");
  }

  lemma SplitName()
    ensures Split("Doe, John", ',') == ["Doe", " John"]
  {
    var s := "Doe, John";
    assert s[..3] == "Doe" && s[4..] == " John";
    SplitInTwo(s, ',', 3);
  }

  lemma TrimName()
    ensures Trim(" John Doe") == "John Doe"
  {
    var s := " John Doe";
    assert IsWhitespace(s[0]) && !IsWhitespace(s[1]);
    assert s[1..] == "John Doe";
    assert TrimStart(s[1..]) == "John Doe";
    assert !IsWhitespace('e');
  }

  lemma JoinTwoNames()
    ensures Join([" John", "Doe"], " ") == " John Doe"
  {
    assert [" John", "Doe"][1..] == ["Doe"];
  }

  /** "Doe, John" turned around is "John Doe". */
  lemma ReversedName()
    ensures Trim(Join(Reverse(Split("Doe, John", ',')), " ")) == "John Doe"
  {
    SplitName();
    var parts := ["Doe", " John"];
    assert Reverse(parts) == [" John", "Doe"];
    JoinTwoNames();
    TrimName();
  }

  /** Without a last name, the name is split at commas, turned around, joined and trimmed. */
  lemma NameInitialsWithoutLastName(h: Host, name: string)
    ensures GetNameInitials(h, name, None) == GetInitials(h, Trim(Join(Reverse(Split(name, ',')), " ")), DefaultInitials)
  {
  }

  /** A name with one comma, "last,first", has the initials of "first last", trimmed. */
  lemma NameInitialsOfLastFirst(h: Host, last: string, first: string)
    requires ',' !in last && ',' !in first
    ensures GetNameInitials(h, last + "," + first, None) == GetInitials(h, Trim(first + " " + last), DefaultInitials)
  {
    var s := last + "," + first;
    assert s[..|last|] == last && s[|last| + 1..] == first && s[|last|] == ',';
    SplitInTwo(s, ',', |last|);
    assert Reverse([last, first]) == [first, last];
    assert [first, last][1..] == [last];
    assert Join([first, last], " ") == first + " " + last;
    NameInitialsWithoutLastName(h, s);
  }

  /** A "last, first" name is turned around before its initials are taken. */
  lemma NameInitialsReversed(h: Host)
    requires forall s :: h.localeUpper(s) == AsciiUpper(s)
    ensures GetNameInitials(h, "Doe, John", None) == "JD"
  {
    NameInitialsWithoutLastName(h, "Doe, John");
    ReversedName();
    InitialsOfTwoWords(h);
  }

  lemma NameInitialsOfTwoNames(h: Host)
    requires forall s :: h.localeUpper(s) == AsciiUpper(s)
    ensures GetNameInitials(h, "ada", Some("lovelace")) == "AL"
  {
    assert AsciiUpper("a") == "A";
    assert AsciiUpper("l") == "L";
  }

  // ---------------------------------------------------------------------
  // getItemId
  // ---------------------------------------------------------------------

  /** `getItemId`: a string is the id itself; an item with an `id` gives that id. */
  function GetItemId(itemOrId: Value): (id: string)
    requires itemOrId.Str? || (itemOrId.Rec? && Get(itemOrId, "id").Str?)
    ensures itemOrId.Str? ==> id == itemOrId.s
    ensures itemOrId.Rec? ==> Get(itemOrId, "id") == Str(id)
  {
    if IsString(itemOrId) then itemOrId.s else Get(itemOrId, "id").s
  }

  // ---------------------------------------------------------------------
  // truncate
  // ---------------------------------------------------------------------

  /** `s.substring(0, end)`: the end is clamped into [0, |s|]. */
  function Substring0(s: string, end: int): (r: string)
    ensures r <= s
    ensures |r| == if end < 0 then 0 else if end > |s| then |s| else end
  {
    if end < 0 then "" else if end > |s| then s else s[..end]
  }

  const DefaultMaxLength: int := 50
  const DefaultEllipsis: string := "..."

  /**
   * `truncate`: '' for a missing or empty value; the value itself when it
   * fits in `maxLength`; otherwise the prefix of `maxLength - |ellipsis|`
   * characters followed by the ellipsis.
   */
  function Truncate(val: Option<string>, maxLength: int, ellipsis: string): (r: string)
    ensures !Present(val) ==> r == ""
    ensures Present(val) && |val.value| <= maxLength ==> r == val.value
    ensures Present(val) && |val.value| > maxLength ==>
      var keep := if maxLength < |ellipsis| then 0 else maxLength - |ellipsis|;
      r == val.value[..keep] + ellipsis
    ensures Present(val) && maxLength >= |ellipsis| ==> |r| <= maxLength
    ensures Present(val) && |val.value| > maxLength >= |ellipsis| ==> |r| == maxLength
  {
    if !Present(val) then ""
    else if |val.value| <= maxLength then val.value
    else Substring0(val.value, maxLength - |ellipsis|) + ellipsis
  }

  // ---------------------------------------------------------------------
  // stringify
  // ---------------------------------------------------------------------

  /**
   * `stringify`: a string as is, a number as `toString` renders it, a
   * boolean as 'true'/'false', null and undefined as `defaultVal`, a Date
   * through `toISOString` (throwing on an invalid one), anything else
   * through `JSON.stringify` (None where that gives undefined).
   */
  function Stringify(h: Host, v: Value, defaultVal: string): (r: Outcome<Option<string>>)
    ensures v.Str? ==> r == Ok(Some(v.s))
    ensures v.Num? ==> r == Ok(Some(NumberText(v.n)))
    ensures v.Bool? ==> r == Ok(Some(if v.b then "true" else "false"))
    ensures v.Null? || v.Undefined? ==> r == Ok(Some(defaultVal))
    ensures r.Threw? <==> v == DateObj(InvalidDate)
  {
    if TypeOf(v) == "string" then Ok(Some(v.s))
    else if TypeOf(v) == "number" then Ok(Some(NumberText(v.n)))
    else if TypeOf(v) == "boolean" then Ok(Some(if v.b then "true" else "false"))
    else if !Truthy(v) then Ok(Some(defaultVal))
    else if v.DateObj? then
      match v.date
      case InvalidDate => Threw(RangeError)
      case Time(ms) => Ok(Some(h.isoText(ms)))
    else Ok(h.jsonText(v))
  }

  /** The number 0 renders as '0', not as the default: only null and undefined fall back. */
  lemma StringifyZero(h: Host, defaultVal: string)
    ensures Stringify(h, Num(IntNumber(0)), defaultVal) == Ok(Some("0"))
  {
    assert IntText(0) == "0";
  }

  // ---------------------------------------------------------------------
  // tryParseErrorMessage
  // ---------------------------------------------------------------------

  /** `tryParseErrorMessage`: a string error itself, else a string `message` member, else the default. */
  function TryParseErrorMessage(err: Value, defaultMessage: Option<string>): (r: Option<string>)
    ensures err.Str? ==> r == Some(err.s)
    ensures !err.Str? && !err.Rec? ==> r == defaultMessage
    ensures err.Rec? && Get(err, "message").Str? ==> r == Some(Get(err, "message").s)
    ensures err.Rec? && !Get(err, "message").Str? ==> r == defaultMessage
  {
    if TypeOf(err) == "string" then Some(err.s)
    else if HasKey(err, StrKey("message")) && TypeOf(Get(err, "message")) == "string" then Some(Get(err, "message").s)
    else defaultMessage
  }

  // ---------------------------------------------------------------------
  // simpleHash
  // ---------------------------------------------------------------------

  const TwoTo32: int := 0x1_0000_0000
  const TwoTo31: int := 0x8000_0000

  predicate IsInt32(x: int)
  {
    -TwoTo31 <= x < TwoTo31
  }

  /** `ToInt32` of ECMA-262 on an integer: the value wrapped into [-2^31, 2^31). */
  function ToInt32(x: int): (r: int)
    ensures IsInt32(r) && r % TwoTo32 == x % TwoTo32
  {
    (x + TwoTo31) % TwoTo32 - TwoTo31
  }

  /** Adding a multiple of 2^32 does not change the residue. */
  lemma ModShift(x: int, k: int)
    ensures (x + k * TwoTo32) % TwoTo32 == x % TwoTo32
  {
  }

  /** Residues agree after adding the same number to both sides. */
  lemma ModCongruent(a: int, b: int, y: int)
    requires a % TwoTo32 == b % TwoTo32
    ensures (a + y) % TwoTo32 == (b + y) % TwoTo32
  {
    var qa, qb := a / TwoTo32, b / TwoTo32;
    assert a == qa * TwoTo32 + a % TwoTo32;
    assert b == qb * TwoTo32 + b % TwoTo32;
    assert a + y == (b + y) + (qa - qb) * TwoTo32;
    ModShift(b + y, qa - qb);
  }

  /** Reducing a factor before multiplying does not change the residue. */
  lemma ModMulAdd(a: int, b: int, c: int)
    ensures (b * (a % TwoTo32) + c) % TwoTo32 == (b * a + c) % TwoTo32
  {
    var q := a / TwoTo32;
    assert a == q * TwoTo32 + a % TwoTo32;
    assert b * a + c == b * (a % TwoTo32) + c + (b * q) * TwoTo32;
    ModShift(b * (a % TwoTo32) + c, b * q);
  }

  /**
   * The Java-style string hash the loop computes, unsigned: `31 * h + c`
   * over the UTF-16 code units, modulo 2^32, from 0.
   */
  function HashCode(s: string): (r: nat)
    ensures r < TwoTo32
  {
    if s == [] then 0 else (31 * HashCode(s[..|s| - 1]) + s[|s| - 1] as int) % TwoTo32
  }

  /** `sum s[i] * 31^(|s|-1-i)` in Horner form, without wrap-around. */
  function PolyHash(s: string): int
  {
    if s == [] then 0 else 31 * PolyHash(s[..|s| - 1]) + s[|s| - 1] as int
  }

  /** The hash is the polynomial hash reduced modulo 2^32. */
  lemma {:induction false} HashCodeIsPolynomial(s: string)
    ensures HashCode(s) == PolyHash(s) % TwoTo32
  {
    if s != [] {
      var p := s[..|s| - 1];
      HashCodeIsPolynomial(p);
      ModMulAdd(PolyHash(p), 31, s[|s| - 1] as int);
    }
  }

  /** One turn of the loop: `hash = (hash << 5) - hash + char; hash &= hash`. */
  function HashStep(hash: int, c: char): (r: int)
    requires IsInt32(hash)
    ensures IsInt32(r) && r % TwoTo32 == (31 * (hash % TwoTo32) + c as int) % TwoTo32
  {
    var shifted := ToInt32(hash * 32);
    var x := shifted - hash + c as int;
    ModCongruent(shifted, hash * 32, c as int - hash);
    assert hash * 32 + (c as int - hash) == 31 * hash + c as int;
    ModMulAdd(hash, 31, c as int);
    ToInt32(x)
  }

  function Digit36(d: nat): (c: char)
    requires d < 36
  {
    if d < 10 then ('0' as int + d) as char else ('a' as int + d - 10) as char
  }

  /** A digit of `Number.prototype.toString(36)`. */
  predicate IsBase36Char(c: char)
  {
    IsDigit(c) || IsAsciiLower(c)
  }

  function Value36(c: char): (d: nat)
    requires IsBase36Char(c)
    ensures d < 36
  {
    if IsDigit(c) then c as int - '0' as int else c as int - 'a' as int + 10
  }

  /** `n.toString(36)` for a natural number: base-36 digits without leading zeros. */
  function Base36(n: nat): (r: string)
    ensures |r| >= 1 && forall k | 0 <= k < |r| :: IsBase36Char(r[k])
    ensures n > 0 ==> r[0] != '0'
    decreases n
  {
    if n < 36 then [Digit36(n)] else Base36(n / 36) + [Digit36(n % 36)]
  }

  function ParseBase36(s: string): nat
    requires forall k | 0 <= k < |s| :: IsBase36Char(s[k])
  {
    if s == [] then 0 else 36 * ParseBase36(s[..|s| - 1]) + Value36(s[|s| - 1])
  }

  /** Reading the base-36 digits back gives the number. */
  lemma {:induction false} Base36RoundTrip(n: nat)
    ensures ParseBase36(Base36(n)) == n
    decreases n
  {
    var r := Base36(n);
    if n >= 36 {
      Base36RoundTrip(n / 36);
      assert r[..|r| - 1] == Base36(n / 36);
    }
  }

  /**
   * `simpleHash`: the 32-bit hash of the code units, read as unsigned
   * (`Uint32Array`) and written in base 36.
   */
  method SimpleHash(s: string) returns (r: string)
    ensures r == Base36(HashCode(s))
  {
    var hash := 0;
    var i := 0;
    while i < |s|
      invariant 0 <= i <= |s|
      invariant IsInt32(hash) && hash % TwoTo32 == HashCode(s[..i])
    {
      assert s[..i + 1][..i] == s[..i];
      hash := HashStep(hash, s[i]);
      i := i + 1;
    }
    assert s[..i] == s;
    r := Base36(hash % TwoTo32);
  }

  /** The empty string hashes to "0". */
  lemma EmptyHash()
    ensures Base36(HashCode("")) == "0"
  {
  }

  // ---------------------------------------------------------------------
  // toCamelCase
  // ---------------------------------------------------------------------

  /** `s.replace(/\s+/g, '')`: every whitespace character removed. */
  function RemoveWhitespace(s: string): (r: string)
    ensures |r| <= |s|
    ensures forall k | 0 <= k < |r| :: !IsWhitespace(r[k])
  {
    if s == [] then []
    else (if IsWhitespace(s[0]) then [] else [s[0]]) + RemoveWhitespace(s[1..])
  }

  lemma {:induction false} RemoveWhitespaceAppend(a: string, b: string)
    ensures RemoveWhitespace(a + b) == RemoveWhitespace(a) + RemoveWhitespace(b)
    decreases |a|
  {
    if a == [] {
      assert a + b == b;
    } else {
      assert (a + b)[1..] == a[1..] + b;
      RemoveWhitespaceAppend(a[1..], b);
    }
  }

  lemma {:induction false} RemoveWhitespaceNone(s: string)
    requires forall k | 0 <= k < |s| :: !IsWhitespace(s[k])
    ensures RemoveWhitespace(s) == s
  {
    if s != [] {
      RemoveWhitespaceNone(s[1..]);
    }
  }

  /**
   * Whether `/(?:^\w|[A-Z]|\b\w)/g` matches the one character at `i`: an
   * ASCII capital, or a word character at the start or after a non-word
   * character.
   */
  predicate CamelMatch(s: string, i: nat)
    requires i < |s|
  {
    IsAsciiUpper(s[i]) || (IsWordChar(s[i]) && (i == 0 || !IsWordChar(s[i - 1])))
  }

  /** The replace callback: a match at index 0 is lower-cased, every other match upper-cased. */
  function CamelMarks(s: string): (r: string)
    ensures |r| == |s|
    ensures forall i | 0 <= i < |s| ::
      r[i] == if !CamelMatch(s, i) then s[i] else if i == 0 then LowerChar(s[i]) else UpperChar(s[i])
  {
    seq(|s|, i requires 0 <= i < |s| =>
      if !CamelMatch(s, i) then s[i] else if i == 0 then LowerChar(s[i]) else UpperChar(s[i]))
  }

  /**
   * `toCamelCase` as written: the whitespace is removed first, so no word
   * boundary is left for `\b\w` to find between the words.
   */
  function ToCamelCase(s: string): (r: string)
    ensures |r| == |RemoveWhitespace(s)|
    ensures forall k | 0 <= k < |r| :: !IsWhitespace(r[k])
    ensures AsciiLower(r) == AsciiLower(RemoveWhitespace(s))
  {
    var t := RemoveWhitespace(s);
    var r := CamelMarks(t);
    assert forall k | 0 <= k < |r| :: LowerChar(r[k]) == LowerChar(t[k]) by {
      forall k | 0 <= k < |r| ensures LowerChar(r[k]) == LowerChar(t[k]) {
        LowerUpperChar(t[k]);
      }
    }
    r
  }

  /** `toCamelCase` with the two replacements in the evidently intended order: capitalise, then remove whitespace. */
  function ToCamelCaseCorrected(s: string): (r: string)
    ensures forall k | 0 <= k < |r| :: !IsWhitespace(r[k])
  {
    RemoveWhitespace(CamelMarks(s))
  }

  /** A non-empty word of lower-case ASCII letters. */
  predicate LowerWord(w: string)
  {
    |w| >= 1 && forall k | 0 <= k < |w| :: IsAsciiLower(w[k])
  }

  /** On a lower-case word no character after the first matches, and the first is already lower-case. */
  lemma CamelMarksOfLowerWord(w: string)
    requires LowerWord(w)
    ensures CamelMarks(w) == w
  {
  }

  /** Removing the whitespace of two whitespace-free strings around a space joins them. */
  lemma RemoveSpaceBetween(a: string, b: string)
    requires forall k | 0 <= k < |a| :: !IsWhitespace(a[k])
    requires forall k | 0 <= k < |b| :: !IsWhitespace(b[k])
    ensures RemoveWhitespace(a + " " + b) == a + b
  {
    assert a + " " + b == a + (" " + b);
    RemoveWhitespaceAppend(a, " " + b);
    DropLeadingSpace(b);
    RemoveWhitespaceNone(a);
    RemoveWhitespaceNone(b);
  }

  lemma DropLeadingSpace(b: string)
    ensures RemoveWhitespace(" " + b) == RemoveWhitespace(b)
  {
    assert (" " + b)[1..] == b;
  }

  /** As written, "hello world" becomes "helloworld": the second word is not capitalised. */
  lemma ToCamelCaseJoinsWords(a: string, b: string)
    requires LowerWord(a) && LowerWord(b)
    ensures ToCamelCase(a + " " + b) == a + b
  {
    RemoveSpaceBetween(a, b);
    assert LowerWord(a + b);
    CamelMarksOfLowerWord(a + b);
  }

  /** Corrected, each word after the first starts with a capital: "hello world" becomes "helloWorld". */
  lemma ToCamelCaseCorrectedCapitalises(a: string, b: string)
    requires LowerWord(a) && LowerWord(b)
    ensures ToCamelCaseCorrected(a + " " + b) == a + [UpperChar(b[0])] + b[1..]
  {
    var b' := [UpperChar(b[0])] + b[1..];
    CamelMarksAtSpace(a, b);
    RemoveSpaceBetween(a, b');
  }

  /** Marking `a b` leaves `a` and the space and capitalises the first letter of `b`. */
  lemma CamelMarksAtSpace(a: string, b: string)
    requires LowerWord(a) && LowerWord(b)
    ensures CamelMarks(a + " " + b) == a + " " + ([UpperChar(b[0])] + b[1..])
  {
    var s := a + " " + b;
    var b' := [UpperChar(b[0])] + b[1..];
    var t := a + " " + b';
    var m := CamelMarks(s);
    assert |m| == |t|;
    forall i | 0 <= i < |s|
      ensures m[i] == t[i]
    {
      CamelMarksAt(a, b, i);
    }
  }

  lemma CamelMarksAt(a: string, b: string, i: nat)
    requires LowerWord(a) && LowerWord(b) && i < |a| + 1 + |b|
    ensures CamelMarks(a + " " + b)[i] == (a + " " + ([UpperChar(b[0])] + b[1..]))[i]
  {
    var s := a + " " + b;
    var t := a + " " + ([UpperChar(b[0])] + b[1..]);
    if i < |a| {
      assert s[i] == a[i] && t[i] == a[i];
      assert i > 0 ==> s[i - 1] == a[i - 1];
    } else if i == |a| {
      assert s[i] == ' ' && t[i] == ' ';
    } else if i == |a| + 1 {
      assert s[i] == b[0] && s[i - 1] == ' ' && t[i] == UpperChar(b[0]);
    } else {
      assert s[i] == b[i - |a| - 1] && s[i - 1] == b[i - |a| - 2] && t[i] == b[i - |a| - 1];
    }
  }

  lemma HelloWorld()
    ensures LowerWord("hello") && LowerWord("world")
    ensures "hello world" == "hello" + " " + "world"
    ensures "hello" + "world" == "helloworld"
    ensures "hello" + [UpperChar('w')] + "orld" == "helloWorld"
  {
  }

  lemma ToCamelCaseExample()
    ensures ToCamelCase("hello world") == "helloworld"
  {
    HelloWorld();
    ToCamelCaseJoinsWords("hello", "world");
  }

  lemma ToCamelCaseCorrectedExample()
    ensures ToCamelCaseCorrected("hello world") == "helloWorld"
  {
    HelloWorld();
    ToCamelCaseCorrectedCapitalises("hello", "world");
    assert "world"[0] == 'w' && "world"[1..] == "orld";
  }

  // ---------------------------------------------------------------------
  // toSnakeCase
  // ---------------------------------------------------------------------

  /** `s` with every `c` removed. */
  function WithoutChar(s: string, c: char): (r: string)
    ensures c !in r
  {
    if s == [] then [] else (if s[0] == c then [] else [s[0]]) + WithoutChar(s[1..], c)
  }

  lemma WithoutCharCons(x: char, s: string, c: char)
    ensures WithoutChar([x] + s, c) == (if x == c then [] else [x]) + WithoutChar(s, c)
  {
    assert ([x] + s)[1..] == s;
  }

  /** Leading whitespace is removed anyway: trimming it first changes nothing. */
  lemma {:induction false} RemoveWhitespaceTrimStart(s: string)
    ensures RemoveWhitespace(TrimStart(s)) == RemoveWhitespace(s)
    decreases |s|
  {
    if s != [] && IsWhitespace(s[0]) {
      RemoveWhitespaceTrimStart(s[1..]);
    }
  }

  /**
   * `s.replace(/\s+/g, [c])`: each maximal run of whitespace becomes one `c`.
   * Apart from the inserted `c`, the text is the input without its whitespace.
   */
  function CollapseWhitespace(s: string, c: char): (r: string)
    requires !IsWhitespace(c)
    ensures |r| <= |s|
    ensures forall k | 0 <= k < |r| :: !IsWhitespace(r[k])
    ensures s != [] ==> r != [] && r[0] == if IsWhitespace(s[0]) then c else s[0]
    ensures (forall k | 0 <= k < |s| :: !IsWhitespace(s[k])) ==> r == s
    ensures c !in s ==> WithoutChar(r, c) == RemoveWhitespace(s)
    decreases |s|
  {
    if s == [] then []
    else if IsWhitespace(s[0]) then
      var t := TrimStart(s);
      assert c !in s ==> c !in t;
      RemoveWhitespaceTrimStart(s);
      WithoutCharCons(c, CollapseWhitespace(t, c), c);
      [c] + CollapseWhitespace(t, c)
    else
      WithoutCharCons(s[0], CollapseWhitespace(s[1..], c), c);
      [s[0]] + CollapseWhitespace(s[1..], c)
  }

  /** The characters of `TrimStart(s)` are characters of `s`. */
  lemma TrimStartChars(s: string)
    ensures var t := TrimStart(s);
      forall k | 0 <= k < |t| :: t[k] == s[|s| - |t| + k]
  {
  }

  /** `TrimStart` removes a whitespace run up to the first other character. */
  lemma {:induction false} TrimStartRun(w: string, b: string)
    requires forall k | 0 <= k < |w| :: IsWhitespace(w[k])
    requires b == [] || !IsWhitespace(b[0])
    ensures TrimStart(w + b) == b
    decreases |w|
  {
    if w == [] {
      assert w + b == b;
    } else {
      assert (w + b)[1..] == w[1..] + b;
      TrimStartRun(w[1..], b);
    }
  }

  /**
   * Each maximal whitespace run becomes one `c` in its own place: text `a`
   * without whitespace, then a run `w`, then text `b` that does not start
   * with whitespace, collapse to `a`, `c`, and the collapse of `b`.
   */
  lemma {:induction false} CollapseRun(a: string, w: string, b: string, c: char)
    requires !IsWhitespace(c)
    requires forall k | 0 <= k < |a| :: !IsWhitespace(a[k])
    requires w != [] && forall k | 0 <= k < |w| :: IsWhitespace(w[k])
    requires b == [] || !IsWhitespace(b[0])
    ensures CollapseWhitespace(a + w + b, c) == a + [c] + CollapseWhitespace(b, c)
    decreases |a|
  {
    if a == [] {
      assert a + w + b == w + b && a + [c] == [c];
      CollapseOfRun(w, b, c);
    } else {
      CollapseRun(a[1..], w, b, c);
      ConsAppend(a, w, b);
      CollapseCons(a[0], a[1..] + w + b, c);
      ConsAppend(a, [c], CollapseWhitespace(b, c));
    }
  }

  /** Splitting the head off a concatenation. */
  lemma ConsAppend<T>(a: seq<T>, u: seq<T>, v: seq<T>)
    requires a != []
    ensures a + u + v == [a[0]] + (a[1..] + u + v)
  {
    assert a == [a[0]] + a[1..];
  }

  lemma CollapseCons(x: char, t: string, c: char)
    requires !IsWhitespace(c) && !IsWhitespace(x)
    ensures CollapseWhitespace([x] + t, c) == [x] + CollapseWhitespace(t, c)
  {
    assert ([x] + t)[0] == x && ([x] + t)[1..] == t;
  }

  /** A leading whitespace run gives one `c`. */
  lemma CollapseOfRun(w: string, b: string, c: char)
    requires !IsWhitespace(c)
    requires w != [] && forall k | 0 <= k < |w| :: IsWhitespace(w[k])
    requires b == [] || !IsWhitespace(b[0])
    ensures CollapseWhitespace(w + b, c) == [c] + CollapseWhitespace(b, c)
  {
    assert (w + b)[0] == w[0];
    TrimStartRun(w, b);
  }

  /** Every character of the collapsed string is `c` or a character of `s` that `keep` accepts. */
  lemma {:induction false} CollapseKeeps(s: string, c: char, keep: char -> bool)
    requires !IsWhitespace(c)
    requires forall k | 0 <= k < |s| :: keep(s[k]) || IsWhitespace(s[k])
    ensures forall k | 0 <= k < |CollapseWhitespace(s, c)| ::
      CollapseWhitespace(s, c)[k] == c || keep(CollapseWhitespace(s, c)[k])
    decreases |s|
  {
    if s != [] {
      if IsWhitespace(s[0]) {
        var t := TrimStart(s);
        TrimStartChars(s);
        CollapseKeeps(t, c, keep);
        ConsKeeps(c, CollapseWhitespace(t, c), c, keep);
      } else {
        CollapseKeeps(s[1..], c, keep);
        ConsKeeps(s[0], CollapseWhitespace(s[1..], c), c, keep);
      }
    }
  }

  /** Putting an accepted character in front keeps every character accepted. */
  lemma ConsKeeps(x: char, rest: string, c: char, keep: char -> bool)
    requires x == c || keep(x)
    requires forall k | 0 <= k < |rest| :: rest[k] == c || keep(rest[k])
    ensures forall k | 0 <= k < |[x] + rest| :: ([x] + rest)[k] == c || keep(([x] + rest)[k])
  {
    forall k | 0 <= k < |[x] + rest| ensures ([x] + rest)[k] == c || keep(([x] + rest)[k]) {
      if k > 0 {
        assert ([x] + rest)[k] == rest[k - 1];
      }
    }
  }

  /** Without `c` in the input, no two `c` are adjacent in the output. */
  lemma {:induction false} CollapseNoDoubled(s: string, c: char)
    requires !IsWhitespace(c) && c !in s
    ensures forall k | 0 <= k < |CollapseWhitespace(s, c)| - 1 ::
      !(CollapseWhitespace(s, c)[k] == c && CollapseWhitespace(s, c)[k + 1] == c)
    decreases |s|
  {
    if s != [] {
      var r := CollapseWhitespace(s, c);
      if IsWhitespace(s[0]) {
        var t := TrimStart(s);
        TrimStartChars(s);
        assert c !in t;
        CollapseNoDoubled(t, c);
        var rest := CollapseWhitespace(t, c);
        assert r == [c] + rest;
        assert rest != [] ==> rest[0] == t[0];
        forall k | 1 <= k < |r| - 1 ensures !(r[k] == c && r[k + 1] == c) {
          assert r[k] == rest[k - 1] && r[k + 1] == rest[k];
        }
      } else {
        assert c !in s[1..];
        CollapseNoDoubled(s[1..], c);
        var rest := CollapseWhitespace(s[1..], c);
        assert r == [s[0]] + rest;
        forall k | 1 <= k < |r| - 1 ensures !(r[k] == c && r[k + 1] == c) {
          assert r[k] == rest[k - 1] && r[k + 1] == rest[k];
        }
      }
    }
  }

  /** `toSnakeCase`: each whitespace run becomes `_`, then the whole is lower-cased when asked. */
  function ToSnakeCase(s: string, toLowerCase: bool): (r: string)
    ensures forall k | 0 <= k < |r| :: !IsWhitespace(r[k])
    ensures (forall k | 0 <= k < |s| :: !IsWhitespace(s[k])) ==> r == (if toLowerCase then AsciiLower(s) else s)
    ensures '_' !in s ==>
      WithoutChar(r, '_') == (if toLowerCase then AsciiLower(RemoveWhitespace(s)) else RemoveWhitespace(s))
  {
    var t := CollapseWhitespace(s, '_');
    WithoutUnderscoreLower(t);
    if toLowerCase then AsciiLower(t) else t
  }

  /** Lower-casing neither makes nor unmakes a `_`, so it commutes with removing them. */
  lemma {:induction false} WithoutUnderscoreLower(s: string)
    ensures WithoutChar(AsciiLower(s), '_') == AsciiLower(WithoutChar(s, '_'))
    decreases |s|
  {
    if s != [] {
      var x := s[0];
      assert AsciiLower(s) == [LowerChar(x)] + AsciiLower(s[1..]);
      WithoutCharCons(LowerChar(x), AsciiLower(s[1..]), '_');
      WithoutUnderscoreLower(s[1..]);
      var rest := WithoutChar(s[1..], '_');
      if x != '_' {
        assert AsciiLower([x] + rest) == [LowerChar(x)] + AsciiLower(rest);
      }
    }
  }

  /** Each whitespace run gives a single `_`: without `_` in the input, no two are adjacent. */
  lemma ToSnakeCaseSingleSeparators(s: string, toLowerCase: bool)
    requires '_' !in s
    ensures var r := ToSnakeCase(s, toLowerCase);
      forall k | 0 <= k < |r| - 1 :: !(r[k] == '_' && r[k + 1] == '_')
  {
    CollapseNoDoubled(s, '_');
    var t := CollapseWhitespace(s, '_');
    assert forall k | 0 <= k < |t| :: LowerChar(t[k]) == '_' ==> t[k] == '_';
  }

  /** Each whitespace run becomes one `_` in its own place, and the text around it is lower-cased when asked. */
  lemma ToSnakeCaseRun(a: string, w: string, b: string, toLowerCase: bool)
    requires forall k | 0 <= k < |a| :: !IsWhitespace(a[k])
    requires w != [] && forall k | 0 <= k < |w| :: IsWhitespace(w[k])
    requires b == [] || !IsWhitespace(b[0])
    ensures ToSnakeCase(a + w + b, toLowerCase)
         == (if toLowerCase then AsciiLower(a) else a) + "_" + ToSnakeCase(b, toLowerCase)
  {
    CollapseRun(a, w, b, '_');
    var rest := CollapseWhitespace(b, '_');
    if toLowerCase {
      AsciiLowerAppend(a + "_", rest);
      AsciiLowerAppend(a, "_");
      assert AsciiLower("_") == "_";
    }
  }

  /** `toSnakeCase` is idempotent. */
  lemma ToSnakeCaseIdempotent(s: string, toLowerCase: bool)
    ensures ToSnakeCase(ToSnakeCase(s, toLowerCase), toLowerCase) == ToSnakeCase(s, toLowerCase)
  {
    var r := ToSnakeCase(s, toLowerCase);
    if toLowerCase {
      assert AsciiLower(r) == r;
    }
  }

  // ---------------------------------------------------------------------
  // camelToSnakeCase, snakeToCamelCase
  // ---------------------------------------------------------------------

  function CountUpper(s: string): nat
  {
    if s == [] then 0 else (if IsAsciiUpper(s[0]) then 1 else 0) + CountUpper(s[1..])
  }

  /**
   * `camelToSnakeCase`: each ASCII capital becomes `_` and its lower case;
   * the output has no capital and is one character longer per capital.
   */
  function CamelToSnakeCase(s: string): (r: string)
    ensures |r| == |s| + CountUpper(s)
    ensures forall k | 0 <= k < |r| :: !IsAsciiUpper(r[k])
  {
    if s == [] then []
    else SnakeOfChar(s[0]) + CamelToSnakeCase(s[1..])
  }

  /** What `camelToSnakeCase` writes for one character. */
  function SnakeOfChar(c: char): string
  {
    if IsAsciiUpper(c) then ['_', LowerChar(c)] else [c]
  }

  /** Without capitals, `camelToSnakeCase` changes nothing. */
  lemma {:induction false} CamelToSnakeCaseNoUpper(s: string)
    requires CountUpper(s) == 0
    ensures CamelToSnakeCase(s) == s
  {
    if s != [] {
      CamelToSnakeCaseNoUpper(s[1..]);
    }
  }

  /** `camelToSnakeCase` works character by character, so it distributes over concatenation. */
  lemma {:induction false} CamelToSnakeCaseAppend(x: string, y: string)
    ensures CamelToSnakeCase(x + y) == CamelToSnakeCase(x) + CamelToSnakeCase(y)
    decreases |x|
  {
    if x == [] {
      assert x + y == y;
    } else {
      HeadAppend(x, y);
      calc {
        CamelToSnakeCase(x + y);
        SnakeOfChar(x[0]) + CamelToSnakeCase(x[1..] + y);
      == { CamelToSnakeCaseAppend(x[1..], y); }
        SnakeOfChar(x[0]) + (CamelToSnakeCase(x[1..]) + CamelToSnakeCase(y));
        CamelToSnakeCase(x) + CamelToSnakeCase(y);
      }
    }
  }

  /** Each capital becomes `_` followed by its lower case, and the text around it is kept. */
  lemma CamelToSnakeCaseAtCapital(a: string, c: char, b: string)
    requires CountUpper(a) == 0 && IsAsciiUpper(c)
    ensures CamelToSnakeCase(a + [c] + b) == a + ['_', LowerChar(c)] + CamelToSnakeCase(b)
  {
    assert CamelToSnakeCase([c]) == ['_', LowerChar(c)] by {
      assert [c][1..] == [];
    }
    calc {
      CamelToSnakeCase(a + [c] + b);
    == { CamelToSnakeCaseAppend(a + [c], b); }
      CamelToSnakeCase(a + [c]) + CamelToSnakeCase(b);
    == { CamelToSnakeCaseAppend(a, [c]); }
      CamelToSnakeCase(a) + CamelToSnakeCase([c]) + CamelToSnakeCase(b);
    == { CamelToSnakeCaseNoUpper(a); }
      a + ['_', LowerChar(c)] + CamelToSnakeCase(b);
    }
  }

  lemma CamelToSnakeCaseExample()
    ensures CamelToSnakeCase("fooBar") == "foo_bar"
  {
    assert "fooBar" == "foo" + ['B'] + "ar";
    CamelToSnakeCaseAtCapital("foo", 'B', "ar");
    CamelToSnakeCaseNoUpper("ar");
  }

  function Occurrences(s: string, c: char): nat
  {
    if s == [] then 0 else (if s[0] == c then 1 else 0) + Occurrences(s[1..], c)
  }

  /**
   * The scan of `/([-_][a-z])/g` over `s` with the callback
   * `g.toUpperCase().replace('-', '')`: the letter of each match is
   * upper-cased and a `-` before it dropped; `_` is dropped only when
   * `dropUnderscore` is set. Without it every `_` is kept.
   */
  function CamelizeSeparators(s: string, dropUnderscore: bool): (r: string)
    ensures |r| <= |s|
    ensures !dropUnderscore ==> Occurrences(r, '_') == Occurrences(s, '_')
    decreases |s|
  {
    if |s| >= 2 && (s[0] == '-' || s[0] == '_') && IsAsciiLower(s[1]) then
      (if s[0] == '-' || dropUnderscore then [] else [s[0]]) + [UpperChar(s[1])] + CamelizeSeparators(s[2..], dropUnderscore)
    else if s == [] then []
    else [s[0]] + CamelizeSeparators(s[1..], dropUnderscore)
  }

  /** `snakeToCamelCase` as written: lower-case, then the scan that keeps `_`. */
  function SnakeToCamelCase(s: string): (r: string)
    ensures |r| <= |s|
    ensures Occurrences(r, '_') == Occurrences(AsciiLower(s), '_')
    ensures (forall k | 0 <= k < |s| :: s[k] != '-' && s[k] != '_') ==> r == AsciiLower(s)
  {
    LowerPlain(s, false);
    CamelizeSeparators(AsciiLower(s), false)
  }

  /** `snakeToCamelCase` as evidently intended: the separator is dropped whether `-` or `_`. */
  function SnakeToCamelCaseCorrected(s: string): (r: string)
    ensures |r| <= |s|
    ensures (forall k | 0 <= k < |s| :: s[k] != '-' && s[k] != '_') ==> r == AsciiLower(s)
  {
    LowerPlain(s, true);
    CamelizeSeparators(AsciiLower(s), true)
  }

  /** Without `-` or `_`, the lower-cased text has no separator to act on. */
  lemma LowerPlain(s: string, dropUnderscore: bool)
    ensures (forall k | 0 <= k < |s| :: s[k] != '-' && s[k] != '_') ==>
      CamelizeSeparators(AsciiLower(s), dropUnderscore) == AsciiLower(s)
  {
    if forall k | 0 <= k < |s| :: s[k] != '-' && s[k] != '_' {
      CamelizePlain(AsciiLower(s), dropUnderscore);
    }
  }

  /** As written, `_` survives between two lower-case words: "foo_bar" becomes "foo_Bar". */
  lemma SnakeToCamelCaseKeepsUnderscore(a: string, b: string)
    requires LowerWord(a) && LowerWord(b)
    ensures SnakeToCamelCase(a + "_" + b) == a + "_" + [UpperChar(b[0])] + b[1..]
  {
    calc {
      SnakeToCamelCase(a + "_" + b);
      CamelizeSeparators(AsciiLower(a + "_" + b), false);
    == { SnakeWordsLower(a, b); }
      CamelizeSeparators(a + "_" + b, false);
    == { CamelizeWords(a, b, false); }
      a + "_" + [UpperChar(b[0])] + b[1..];
    }
  }

  /** Corrected, the separator goes: "foo_bar" becomes "fooBar". */
  lemma SnakeToCamelCaseCorrectedDropsUnderscore(a: string, b: string)
    requires LowerWord(a) && LowerWord(b)
    ensures SnakeToCamelCaseCorrected(a + "_" + b) == a + [UpperChar(b[0])] + b[1..]
  {
    SnakeWordsLower(a, b);
    CamelizeWords(a, b, true);
    assert a + [] + [] + [UpperChar(b[0])] + b[1..] == a + [UpperChar(b[0])] + b[1..];
  }

  /** A `-` between two lower-case words is dropped and the second word gets a capital: "foo-bar" becomes "fooBar". */
  lemma SnakeToCamelCaseDropsHyphen(a: string, b: string)
    requires LowerWord(a) && LowerWord(b)
    ensures SnakeToCamelCase(a + "-" + b) == a + [UpperChar(b[0])] + b[1..]
  {
    var s := a + "-" + b;
    assert s == a + ['-', b[0]] + b[1..];
    assert AsciiLower(s) == s;
    LowerWordPlain(a);
    LowerTailPlain(b);
    CamelizeAtMatch(a, '-', b[0], b[1..], false);
    CamelizePlain(b[1..], false);
    assert a + "" == a;
  }

  lemma SnakeToCamelCaseHyphenExample()
    ensures SnakeToCamelCase("foo-bar") == "fooBar"
  {
    FooBar();
    assert "foo-bar" == "foo" + "-" + "bar";
    SnakeToCamelCaseDropsHyphen("foo", "bar");
  }

  lemma SnakeToCamelCaseExample()
    ensures SnakeToCamelCase("foo_bar") == "foo_Bar"
  {
    FooBar();
    SnakeToCamelCaseKeepsUnderscore("foo", "bar");
  }

  lemma SnakeToCamelCaseCorrectedExample()
    ensures SnakeToCamelCaseCorrected("foo_bar") == "fooBar"
  {
    FooBar();
    SnakeToCamelCaseCorrectedDropsUnderscore("foo", "bar");
  }

  lemma FooBar()
    ensures LowerWord("foo") && LowerWord("bar")
    ensures "foo_bar" == "foo" + "_" + "bar"
    ensures "foo" + "_" + [UpperChar('b')] + "ar" == "foo_Bar"
    ensures "foo" + [UpperChar('b')] + "ar" == "fooBar"
  {
  }

  lemma SnakeWordsLower(a: string, b: string)
    requires LowerWord(a) && LowerWord(b)
    ensures AsciiLower(a + "_" + b) == a + "_" + b
  {
  }

  /** The scan over two lower-case words joined by `_`: only the `_` pair matches. */
  lemma CamelizeWords(a: string, b: string, dropUnderscore: bool)
    requires LowerWord(a) && LowerWord(b)
    ensures CamelizeSeparators(a + "_" + b, dropUnderscore) ==
      a + (if dropUnderscore then [] else ['_']) + [UpperChar(b[0])] + b[1..]
  {
    var sep: string := if dropUnderscore then [] else ['_'];
    var pair := ['_', b[0]] + b[1..];
    UnderscorePair(a, b);
    assert pair[2..] == b[1..];
    LowerWordPlain(a);
    LowerTailPlain(b);
    calc {
      CamelizeSeparators(a + pair, dropUnderscore);
    == { CamelizePlainPrefix(a, pair, dropUnderscore); }
      a + CamelizeSeparators(pair, dropUnderscore);
    == { CamelizeAtPair(pair, dropUnderscore); }
      a + (sep + [UpperChar(b[0])] + CamelizeSeparators(b[1..], dropUnderscore));
    == { CamelizePlain(b[1..], dropUnderscore); }
      a + (sep + [UpperChar(b[0])] + b[1..]);
    }
  }

  lemma UnderscorePair(a: string, b: string)
    requires b != []
    ensures a + "_" + b == a + (['_', b[0]] + b[1..])
  {
    assert b == [b[0]] + b[1..];
  }

  lemma LowerWordPlain(w: string)
    requires LowerWord(w)
    ensures forall k | 0 <= k < |w| :: w[k] != '-' && w[k] != '_'
  {
  }

  lemma LowerTailPlain(w: string)
    requires LowerWord(w)
    ensures forall k | 0 <= k < |w[1..]| :: w[1..][k] != '-' && w[1..][k] != '_'
  {
    forall k | 0 <= k < |w[1..]| ensures w[1..][k] != '-' && w[1..][k] != '_' {
      assert w[1..][k] == w[k + 1];
    }
  }

  /** A string with no `-` or `_` is copied as it stands. */
  lemma CamelizePlain(w: string, dropUnderscore: bool)
    requires forall k | 0 <= k < |w| :: w[k] != '-' && w[k] != '_'
    ensures CamelizeSeparators(w, dropUnderscore) == w
  {
    CamelizePlainPrefix(w, [], dropUnderscore);
    assert w + [] == w;
  }

  /** A prefix with no `-` or `_` is copied as it stands. */
  lemma {:induction false} CamelizePlainPrefix(w: string, rest: string, dropUnderscore: bool)
    requires forall k | 0 <= k < |w| :: w[k] != '-' && w[k] != '_'
    ensures CamelizeSeparators(w + rest, dropUnderscore) == w + CamelizeSeparators(rest, dropUnderscore)
    decreases |w|
  {
    if w == [] {
      assert w + rest == rest;
    } else {
      HeadAppend(w, rest);
      CamelizeAtPlain(w + rest, dropUnderscore);
      CamelizePlainPrefix(w[1..], rest, dropUnderscore);
      HeadAppend(w, CamelizeSeparators(rest, dropUnderscore));
    }
  }

  /** Splitting the head off a concatenation of two. */
  lemma HeadAppend<T>(a: seq<T>, v: seq<T>)
    requires a != []
    ensures (a + v)[0] == a[0] && (a + v)[1..] == a[1..] + v
    ensures a + v == [a[0]] + (a[1..] + v)
  {
    assert a == [a[0]] + a[1..];
  }


  /** A character other than `-` and `_` starts no match and is copied. */
  lemma CamelizeAtPlain(s: string, dropUnderscore: bool)
    requires s != [] && s[0] != '-' && s[0] != '_'
    ensures CamelizeSeparators(s, dropUnderscore) == [s[0]] + CamelizeSeparators(s[1..], dropUnderscore)
  {
  }

  /**
   * `-` or `_` before a lower-case letter is a match: the letter is
   * upper-cased, and the separator kept only when it is `_` and
   * `dropUnderscore` is off.
   */
  lemma CamelizeAtPair(s: string, dropUnderscore: bool)
    requires |s| >= 2 && (s[0] == '-' || s[0] == '_') && IsAsciiLower(s[1])
    ensures CamelizeSeparators(s, dropUnderscore) ==
      (if s[0] == '_' && !dropUnderscore then ['_'] else []) + [UpperChar(s[1])] + CamelizeSeparators(s[2..], dropUnderscore)
  {
  }

  /** The first match after a stretch without `-` or `_`, in its place. */
  lemma CamelizeAtMatch(a: string, sep: char, x: char, b: string, dropUnderscore: bool)
    requires forall k | 0 <= k < |a| :: a[k] != '-' && a[k] != '_'
    requires (sep == '-' || sep == '_') && IsAsciiLower(x)
    ensures CamelizeSeparators(a + [sep, x] + b, dropUnderscore) ==
      a + (if sep == '_' && !dropUnderscore then "_" else "") + [UpperChar(x)] + CamelizeSeparators(b, dropUnderscore)
  {
    var pair := [sep, x] + b;
    var kept: string := if sep == '_' && !dropUnderscore then "_" else "";
    assert pair[0] == sep && pair[1] == x && pair[2..] == b;
    calc {
      CamelizeSeparators(a + [sep, x] + b, dropUnderscore);
    == { assert a + [sep, x] + b == a + pair; }
      CamelizeSeparators(a + pair, dropUnderscore);
    == { CamelizePlainPrefix(a, pair, dropUnderscore); }
      a + CamelizeSeparators(pair, dropUnderscore);
    == { CamelizeAtPair(pair, dropUnderscore); }
      a + (kept + [UpperChar(x)] + CamelizeSeparators(b, dropUnderscore));
    == { AppendAssoc(a, kept + [UpperChar(x)], CamelizeSeparators(b, dropUnderscore)); AppendAssoc(a, kept, [UpperChar(x)]); }
      a + kept + [UpperChar(x)] + CamelizeSeparators(b, dropUnderscore);
    }
  }

  /** The corrected `snakeToCamelCase` undoes `camelToSnakeCase` on strings without `_` or `-`. */
  lemma SnakeToCamelCaseInverts(s: string)
    requires '_' !in s && '-' !in s
    ensures SnakeToCamelCaseCorrected(CamelToSnakeCase(s)) == s
  {
    var t := CamelToSnakeCase(s);
    assert AsciiLower(t) == t;
    CamelizeCamelToSnake(s);
  }

  lemma {:induction false} CamelizeCamelToSnake(s: string)
    requires '_' !in s && '-' !in s
    ensures CamelizeSeparators(CamelToSnakeCase(s), true) == s
  {
    if s != [] {
      var t := CamelToSnakeCase(s);
      assert s[0] in s;
      assert '_' !in s[1..] && '-' !in s[1..];
      CamelizeCamelToSnake(s[1..]);
      var rest := CamelToSnakeCase(s[1..]);
      assert t == SnakeOfChar(s[0]) + rest;
      if IsAsciiUpper(s[0]) {
        assert t[0] == '_' && t[1] == LowerChar(s[0]) && t[2..] == rest;
        CamelizeAtPair(t, true);
        assert UpperChar(LowerChar(s[0])) == s[0];
        assert s == [s[0]] + s[1..];
      } else {
        assert t[0] == s[0] && t[1..] == rest;
        CamelizeAtPlain(t, true);
        assert s == [s[0]] + s[1..];
      }
    }
  }

  // ---------------------------------------------------------------------
  // slugify
  // ---------------------------------------------------------------------

  /** The characters `s` holds that `keep` accepts, in order. */
  function Filter(s: string, keep: char -> bool): (r: string)
    ensures |r| <= |s|
    ensures forall k | 0 <= k < |r| :: keep(r[k])
  {
    if s == [] then []
    else (if keep(s[0]) then [s[0]] else []) + Filter(s[1..], keep)
  }

  /** Not one of the combining diacritical marks U+0300..U+036F. */
  predicate IsNotCombiningMark(c: char)
  {
    !('\U{0300}' <= c <= '\U{036F}')
  }

  /** What `/[^a-z0-9 ]/g` leaves in place. */
  predicate IsSlugSource(c: char)
  {
    IsAsciiLower(c) || IsDigit(c) || c == ' '
  }

  predicate IsSlugChar(c: char)
  {
    IsAsciiLower(c) || IsDigit(c) || c == '-'
  }

  /**
   * `slugify`: the arguments joined by spaces, decomposed (NFD) with the
   * combining marks removed, lower-cased, trimmed, stripped to `[a-z0-9 ]`,
   * and each run of spaces turned into `-`. Only lower-case letters,
   * digits and `-` remain, and no two `-` are adjacent.
   */
  function Slugify(h: Host, args: seq<string>): (r: string)
    ensures forall k | 0 <= k < |r| :: IsSlugChar(r[k])
    ensures forall k | 0 <= k < |r| - 1 :: !(r[k] == '-' && r[k + 1] == '-')
  {
    var t := Filter(Trim(AsciiLower(Filter(h.nfd(Join(args, " ")), IsNotCombiningMark))), IsSlugSource);
    assert '-' !in t;
    CollapseNoDoubled(t, '-');
    CollapseKeeps(t, '-', IsSlugChar);
    CollapseWhitespace(t, '-')
  }

  // ---------------------------------------------------------------------
  // titleCase
  // ---------------------------------------------------------------------

  /** `val.toLowerCase().replace(/[^a-z]/g, ' ')`. */
  function LettersOnly(s: string): (r: string)
    ensures |r| == |s|
    ensures forall k | 0 <= k < |s| :: r[k] == if IsAsciiLower(LowerChar(s[k])) then LowerChar(s[k]) else ' '
  {
    seq(|s|, k requires 0 <= k < |s| => if IsAsciiLower(LowerChar(s[k])) then LowerChar(s[k]) else ' ')
  }

  /** A gap word stays as it is; any other word gets its first character upper-cased. */
  function Capitalize(w: string, gapWords: seq<string>): (r: string)
    ensures |r| == |w| && AsciiLower(r) == AsciiLower(w)
    ensures w !in gapWords && w != [] ==> r[0] == UpperChar(w[0]) && r[1..] == w[1..]
    ensures w in gapWords || w == [] ==> r == w
  {
    if w in gapWords || w == [] then w
    else
      var r := AsciiUpper(CharAt0(w)) + w[1..];
      LowerUpperChar(w[0]);
      assert forall k | 1 <= k < |w| :: r[k] == w[k];
      r
  }

  lemma AsciiLowerAppend(a: string, b: string)
    ensures AsciiLower(a + b) == AsciiLower(a) + AsciiLower(b)
  {
  }

  /** Joining words that agree up to case gives strings that agree up to case. */
  lemma {:induction false} JoinAgreesUpToCase(xs: seq<string>, ys: seq<string>, sep: string)
    requires |xs| == |ys|
    requires forall i | 0 <= i < |xs| :: |xs[i]| == |ys[i]| && AsciiLower(xs[i]) == AsciiLower(ys[i])
    ensures |Join(xs, sep)| == |Join(ys, sep)|
    ensures AsciiLower(Join(xs, sep)) == AsciiLower(Join(ys, sep))
  {
    if |xs| > 1 {
      JoinAgreesUpToCase(xs[1..], ys[1..], sep);
      AsciiLowerAppend(xs[0] + sep, Join(xs[1..], sep));
      AsciiLowerAppend(xs[0], sep);
      AsciiLowerAppend(ys[0] + sep, Join(ys[1..], sep));
      AsciiLowerAppend(ys[0], sep);
    }
  }

  /**
   * `titleCase`: every character that is no ASCII letter becomes a space,
   * and each space-separated word that is no gap word is capitalised.
   * The result is as long as the input and, lower-cased, is the input
   * with its letters lower-cased and everything else blanked.
   */
  function TitleCase(val: string, gapWords: seq<string>): (r: string)
    ensures |r| == |val|
    ensures AsciiLower(r) == LettersOnly(val)
  {
    var t := LettersOnly(val);
    var words := Split(t, ' ');
    var caps := Capitals(words, gapWords);
    JoinAgreesUpToCase(caps, words, " ");
    JoinSplit(t, ' ');
    assert AsciiLower(t) == t;
    Join(caps, " ")
  }

  /** `words.map(...)` in `titleCase`: each word through `Capitalize`. */
  function Capitals(words: seq<string>, gapWords: seq<string>): (caps: seq<string>)
    ensures |caps| == |words|
    ensures forall i | 0 <= i < |words| :: caps[i] == Capitalize(words[i], gapWords)
  {
    seq(|words|, i requires 0 <= i < |words| => Capitalize(words[i], gapWords))
  }

  /** The default gap words of `titleCase`. */
  const DefaultGapWords: seq<string> := ["and", "or"]

  lemma LettersOnlyOfWords(a: string, b: string)
    requires LowerWord(a) && LowerWord(b)
    ensures LettersOnly(a + " " + b) == a + " " + b
  {
    var s := a + " " + b;
    forall k | 0 <= k < |s| ensures LettersOnly(s)[k] == s[k] {
      assert IsAsciiLower(s[k]) || s[k] == ' ';
    }
  }

  lemma SplitWords(a: string, b: string)
    requires LowerWord(a) && LowerWord(b)
    ensures Split(a + " " + b, ' ') == [a, b]
  {
    var s := a + " " + b;
    assert s[..|a|] == a && s[|a| + 1..] == b;
    assert forall k | 0 <= k < |a| :: a[k] != ' ';
    assert forall k | 0 <= k < |b| :: b[k] != ' ';
    SplitInTwo(s, ' ', |a|);
  }

  /** Two lower-case words that are no gap words both get a capital. */
  lemma TitleCaseTwoWords(a: string, b: string, gapWords: seq<string>)
    requires LowerWord(a) && LowerWord(b) && a !in gapWords && b !in gapWords
    ensures TitleCase(a + " " + b, gapWords) ==
      [UpperChar(a[0])] + a[1..] + " " + [UpperChar(b[0])] + b[1..]
  {
    var s := a + " " + b;
    TitleCaseSteps(s, gapWords);
    LettersOnlyOfWords(a, b);
    SplitWords(a, b);
    var x, y := Capitalize(a, gapWords), Capitalize(b, gapWords);
    CapitalsOfTwo(a, b, gapWords);
    JoinTwo(x, y, " ");
    CapitalizeWord(a, gapWords);
    CapitalizeWord(b, gapWords);
  }

  /**
   * On lower-case words joined by single spaces, `titleCase` capitalises
   * each word that is no gap word and leaves each gap word as it is.
   */
  lemma TitleCaseOfLowerWords(words: seq<string>, gapWords: seq<string>)
    requires |words| >= 1 && forall k | 0 <= k < |words| :: LowerWord(words[k])
    ensures TitleCase(Join(words, " "), gapWords) == Join(Capitals(words, gapWords), " ")
  {
    var s := Join(words, " ");
    JoinOfLowerWords(words);
    forall k | 0 <= k < |s| ensures LettersOnly(s)[k] == s[k] {
      assert IsAsciiLower(s[k]) || s[k] == ' ';
    }
    assert LettersOnly(s) == s;
    forall k | 0 <= k < |words| ensures ' ' !in words[k] {
      assert LowerWord(words[k]);
    }
    SplitJoin(words, ' ');
    TitleCaseSteps(s, gapWords);
  }

  lemma {:induction false} JoinOfLowerWords(words: seq<string>)
    requires forall k | 0 <= k < |words| :: LowerWord(words[k])
    ensures forall k | 0 <= k < |Join(words, " ")| :: IsAsciiLower(Join(words, " ")[k]) || Join(words, " ")[k] == ' '
  {
    if |words| > 1 {
      JoinOfLowerWords(words[1..]);
      assert LowerWord(words[0]);
    } else if |words| == 1 {
      assert LowerWord(words[0]);
    }
  }

  /** With the default gap words, "salt and pepper" becomes "Salt and Pepper". */
  lemma TitleCaseExample()
    ensures TitleCase("salt and pepper", DefaultGapWords) == "Salt and Pepper"
  {
    var words := ["salt", "and", "pepper"];
    calc {
      TitleCase("salt and pepper", DefaultGapWords);
    == { SaltAndPepperWords(); }
      TitleCase(Join(words, " "), DefaultGapWords);
    == { SaltAndPepperWords(); TitleCaseOfLowerWords(words, DefaultGapWords); }
      Join(Capitals(words, DefaultGapWords), " ");
    == { SaltAndPepperCapitals(); }
      Join(["Salt", "and", "Pepper"], " ");
    == { JoinThree("Salt", "and", "Pepper", " "); }
      "Salt and Pepper";
    }
  }

  lemma SaltAndPepperWords()
    ensures Join(["salt", "and", "pepper"], " ") == "salt and pepper"
    ensures forall k | 0 <= k < 3 :: LowerWord(["salt", "and", "pepper"][k])
  {
    JoinThree("salt", "and", "pepper", " ");
  }

  lemma SaltAndPepperCapitals()
    ensures Capitals(["salt", "and", "pepper"], DefaultGapWords) == ["Salt", "and", "Pepper"]
  {
    var c := Capitals(["salt", "and", "pepper"], DefaultGapWords);
    CapitalizeExamples();
    assert c[0] == "Salt" && c[1] == "and" && c[2] == "Pepper";
  }

  lemma CapitalizeExamples()
    ensures Capitalize("salt", DefaultGapWords) == "Salt"
    ensures Capitalize("and", DefaultGapWords) == "and"
    ensures Capitalize("pepper", DefaultGapWords) == "Pepper"
  {
    assert "and" in DefaultGapWords;
    CapitalizeWord("salt", DefaultGapWords);
    CapitalizeWord("pepper", DefaultGapWords);
  }

  lemma JoinThree(x: string, y: string, z: string, sep: string)
    ensures Join([x, y, z], sep) == x + sep + y + sep + z
  {
    assert [x, y, z][1..] == [y, z];
    JoinTwo(y, z, sep);
  }

  /** `titleCase` is the capitalised words of the blanked text, joined by spaces. */
  lemma TitleCaseSteps(val: string, gapWords: seq<string>)
    ensures TitleCase(val, gapWords) == Join(Capitals(Split(LettersOnly(val), ' '), gapWords), " ")
  {
  }

  lemma CapitalsOfTwo(a: string, b: string, gapWords: seq<string>)
    ensures Capitals([a, b], gapWords) == [Capitalize(a, gapWords), Capitalize(b, gapWords)]
  {
  }

  lemma CapitalizeWord(w: string, gapWords: seq<string>)
    requires w !in gapWords && w != []
    ensures Capitalize(w, gapWords) == [UpperChar(w[0])] + w[1..]
  {
    var r := Capitalize(w, gapWords);
    assert r[0] == UpperChar(w[0]) && r[1..] == w[1..];
    HeadTail(r);
  }

  lemma HeadTail(r: string)
    requires r != []
    ensures r == [r[0]] + r[1..]
  {
  }

  lemma JoinTwo(x: string, y: string, sep: string)
    ensures Join([x, y], sep) == x + sep + y
  {
    assert [x, y][1..] == [y];
  }

  // ---------------------------------------------------------------------
  // replacePlaceholders
  // ---------------------------------------------------------------------

  /**
   * Where a placeholder whose `{` sits before `j` closes under the
   * non-greedy `/\{.*?\}/`: the first `}` from `j` on, unless a line
   * terminator comes first (`.` matches none).
   */
  function CloseFrom(s: string, j: nat): (r: Option<nat>)
    ensures r.Some? ==> j <= r.value < |s| && s[r.value] == '}'
    decreases |s| - j
  {
    if j >= |s| then None
    else if s[j] == '}' then Some(j)
    else if IsLineTerminator(s[j]) then None
    else CloseFrom(s, j + 1)
  }

  /**
   * The match is the shortest one: no `}` and no line terminator lies
   * between `j` and the closing `}`, and there is no close exactly when a
   * line terminator or the end of the text comes before any `}`.
   */
  lemma {:induction false} CloseFromIsFirst(s: string, j: nat)
    ensures CloseFrom(s, j).Some? ==>
      forall k | j <= k < CloseFrom(s, j).value :: !IsLineTerminator(s[k]) && s[k] != '}'
    ensures CloseFrom(s, j).None? ==>
      forall k | j <= k < |s| :: s[k] == '}' ==> exists m | j <= m < k :: IsLineTerminator(s[m])
    decreases |s| - j
  {
    if j < |s| && s[j] != '}' && !IsLineTerminator(s[j]) {
      CloseFromIsFirst(s, j + 1);
    }
  }

  /** A placeholder starts at `i`: a `{` closed by a `}` on the same line. */
  predicate OpensAt(s: string, i: nat)
  {
    i < |s| && s[i] == '{' && CloseFrom(s, i + 1).Some?
  }

  /** The number of matches of `/\{.*?\}/g` in `s` from `i` on. */
  function PlaceholderCount(s: string, i: nat): nat
    decreases |s| - i
  {
    if i >= |s| then 0
    else if OpensAt(s, i) then 1 + PlaceholderCount(s, CloseFrom(s, i + 1).value + 1)
    else PlaceholderCount(s, i + 1)
  }

  /** The placeholders of `s` from `i` on, braces included, left to right. */
  function Placeholders(s: string, i: nat): (r: seq<string>)
    ensures |r| == PlaceholderCount(s, i)
    ensures forall k | 0 <= k < |r| :: IsPlaceholder(r[k])
    decreases |s| - i
  {
    if i >= |s| then []
    else if OpensAt(s, i) then
      var close := CloseFrom(s, i + 1).value;
      CloseFromIsFirst(s, i + 1);
      PlaceholderSpan(s, i, close);
      [s[i..close + 1]] + Placeholders(s, close + 1)
    else Placeholders(s, i + 1)
  }

  /**
   * A match of `/\{.*?\}/`: a `{`, then characters that are neither `}`
   * nor a line terminator, then a `}`.
   */
  predicate IsPlaceholder(p: string)
  {
    && 2 <= |p| && p[0] == '{' && p[|p| - 1] == '}'
    && forall m | 0 < m < |p| - 1 :: p[m] != '}' && !IsLineTerminator(p[m])
  }

  lemma PlaceholderSpan(s: string, i: nat, close: nat)
    requires i < close < |s| && s[i] == '{' && s[close] == '}'
    requires forall k | i + 1 <= k < close :: !IsLineTerminator(s[k]) && s[k] != '}'
    ensures IsPlaceholder(s[i..close + 1])
  {
    var p := s[i..close + 1];
    forall m | 0 < m < |p| - 1 ensures p[m] != '}' && !IsLineTerminator(p[m]) {
      assert p[m] == s[i + m];
    }
  }

  /** The text of `s` from `i` on with its placeholders replaced, in order, by `values`. */
  function Fill(s: string, i: nat, values: seq<string>): string
    requires |values| == PlaceholderCount(s, i)
    decreases |s| - i
  {
    if i >= |s| then ""
    else if OpensAt(s, i) then values[0] + Fill(s, CloseFrom(s, i + 1).value + 1, values[1..])
    else [s[i]] + Fill(s, i + 1, values)
  }

  /** Filling each placeholder with its own text gives the template back. */
  lemma {:induction false} FillWithPlaceholders(s: string, i: nat)
    requires i <= |s|
    ensures Fill(s, i, Placeholders(s, i)) == s[i..]
    decreases |s| - i
  {
    if i < |s| {
      var next := FillStep(s, i);
      FillWithPlaceholders(s, next);
      SliceSplit(s, i, next);
    }
  }

  /** One step of the scan: a whole placeholder or a single character is emitted as it stands. */
  lemma FillOwnAtChar(s: string, i: nat)
    requires i < |s| && !OpensAt(s, i)
    ensures Fill(s, i, Placeholders(s, i)) == s[i..i + 1] + Fill(s, i + 1, Placeholders(s, i + 1))
  {
    assert s[i..i + 1] == [s[i]];
    assert Placeholders(s, i) == Placeholders(s, i + 1);
    FillAtChar(s, i, Placeholders(s, i));
  }

  lemma FillStep(s: string, i: nat) returns (next: nat)
    requires i < |s|
    ensures i < next <= |s|
    ensures Fill(s, i, Placeholders(s, i)) == s[i..next] + Fill(s, next, Placeholders(s, next))
  {
    if OpensAt(s, i) {
      next := CloseFrom(s, i + 1).value + 1;
      FillPlaceholderStep(s, i, next - 1);
    } else {
      next := i + 1;
      FillOwnAtChar(s, i);
    }
  }

  /** At a placeholder, filling with the placeholders emits it and carries on after its `}`. */
  lemma FillPlaceholderStep(s: string, i: nat, close: nat)
    requires OpensAt(s, i) && close == CloseFrom(s, i + 1).value
    ensures Fill(s, i, Placeholders(s, i)) == s[i..close + 1] + Fill(s, close + 1, Placeholders(s, close + 1))
  {
    PlaceholdersAtOpen(s, i);
    FillOfCons(s, i, s[i..close + 1], Placeholders(s, close + 1));
  }

  lemma SliceSplit(s: string, i: nat, j: nat)
    requires i <= j <= |s|
    ensures s[i..] == s[i..j] + s[j..]
  {
  }

  lemma PlaceholdersAtOpen(s: string, i: nat)
    requires OpensAt(s, i)
    ensures Placeholders(s, i) == [s[i..CloseFrom(s, i + 1).value + 1]] + Placeholders(s, CloseFrom(s, i + 1).value + 1)
  {
  }

  lemma FillOfCons(s: string, i: nat, v: string, rest: seq<string>)
    requires OpensAt(s, i) && |rest| == PlaceholderCount(s, CloseFrom(s, i + 1).value + 1)
    ensures |[v] + rest| == PlaceholderCount(s, i)
    ensures Fill(s, i, [v] + rest) == v + Fill(s, CloseFrom(s, i + 1).value + 1, rest)
  {
    assert ([v] + rest)[1..] == rest;
  }

  /** A template with no `{` has no placeholder and is its own filling. */
  lemma {:induction false} NoBraceNoPlaceholder(s: string, i: nat)
    requires '{' !in s
    ensures PlaceholderCount(s, i) == 0
    ensures i <= |s| ==> Fill(s, i, []) == s[i..]
    decreases |s| - i
  {
    if i < |s| {
      NoBraceNoPlaceholder(s, i + 1);
      assert s[i..] == [s[i]] + s[i + 1..];
    }
  }

  /** The match is non-greedy: `{a}-{b}` holds two placeholders, not one. */
  lemma FillExample()
    ensures PlaceholderCount("{a}-{b}", 0) == 2
    ensures Fill("{a}-{b}", 0, ["1", "2"]) == "1-2"
  {
    var s := "{a}-{b}";
    assert CloseFrom(s, 5) == Some(6);
    assert CloseFrom(s, 1) == Some(2);
    assert PlaceholderCount(s, 7) == 0;
    assert PlaceholderCount(s, 4) == 1;
    assert PlaceholderCount(s, 3) == 1;
    assert Fill(s, 4, ["2"]) == "2";
    assert Fill(s, 3, ["2"]) == "-2";
  }

  /** At a placeholder, `Fill` emits the first value and goes on after the `}`. */
  lemma FillAtOpen(s: string, i: nat, values: seq<string>)
    requires OpensAt(s, i) && |values| == PlaceholderCount(s, i)
    ensures values != []
    ensures PlaceholderCount(s, i) == 1 + PlaceholderCount(s, CloseFrom(s, i + 1).value + 1)
    ensures Fill(s, i, values) == values[0] + Fill(s, CloseFrom(s, i + 1).value + 1, values[1..])
  {
  }

  /** Elsewhere, `Fill` copies the character and goes on with the next one. */
  lemma FillAtChar(s: string, i: nat, values: seq<string>)
    requires i < |s| && !OpensAt(s, i) && |values| == PlaceholderCount(s, i)
    ensures PlaceholderCount(s, i + 1) == PlaceholderCount(s, i)
    ensures Fill(s, i, values) == [s[i]] + Fill(s, i + 1, values)
  {
  }

  /** One step of the replace pass at a placeholder, with `index` values already used. */
  lemma FillStepAtOpen(s: string, i: nat, values: seq<string>, index: nat)
    requires OpensAt(s, i) && index + PlaceholderCount(s, i) == |values|
    ensures index < |values|
    ensures index + 1 + PlaceholderCount(s, CloseFrom(s, i + 1).value + 1) == |values|
    ensures Fill(s, i, values[index..]) == values[index] + Fill(s, CloseFrom(s, i + 1).value + 1, values[index + 1..])
  {
    FillAtOpen(s, i, values[index..]);
    assert values[index..][0] == values[index];
    assert values[index..][1..] == values[index + 1..];
  }

  /** One step of the replace pass at any other character. */
  lemma FillStepAtChar(s: string, i: nat, values: seq<string>, index: nat)
    requires i < |s| && !OpensAt(s, i) && index + PlaceholderCount(s, i) == |values|
    ensures index + PlaceholderCount(s, i + 1) == |values|
    ensures Fill(s, i, values[index..]) == [s[i]] + Fill(s, i + 1, values[index..])
  {
    FillAtChar(s, i, values[index..]);
  }

  lemma AppendAssoc(a: string, b: string, c: string)
    ensures a + (b + c) == (a + b) + c
  {
  }

  predicate AllStrings(items: seq<Value>)
  {
    forall k | 0 <= k < |items| :: items[k].Str?
  }

  function StringsOf(items: seq<Value>): (r: seq<string>)
    requires AllStrings(items)
    ensures |r| == |items| && forall k | 0 <= k < |items| :: items[k] == Str(r[k])
  {
    seq(|items|, k requires 0 <= k < |items| => items[k].s)
  }

  const AllStringsMessage: string := "All values must be strings"
  const CountMismatchMessage: string := "The number of placeholders in the template must match the number of values"

  /**
   * `replacePlaceholders`: the template unchanged when `values` is no
   * array or is empty; an Error when a value is no string or when the
   * placeholder count differs from the number of values; otherwise the
   * k-th placeholder replaced by the k-th value. The counter never runs
   * past the values, so the `undefined` check in the callback never fires.
   */
  method ReplacePlaceholders(template: string, values: Value) returns (r: Outcome<string>)
    ensures !values.Arr? || values.items == [] ==> r == Ok(template)
    ensures values.Arr? && values.items != [] && !AllStrings(values.items) ==> r == Threw(Error(AllStringsMessage))
    ensures values.Arr? && values.items != [] && AllStrings(values.items) ==>
      if PlaceholderCount(template, 0) != |values.items| then r == Threw(Error(CountMismatchMessage))
      else r == Ok(Fill(template, 0, StringsOf(values.items)))
  {
    if !IsArray(values) || |values.items| == 0 {
      return Ok(template);
    }
    if !AllStrings(values.items) {
      return Threw(Error(AllStringsMessage));
    }
    var strings := StringsOf(values.items);
    if PlaceholderCount(template, 0) != |strings| {
      return Threw(Error(CountMismatchMessage));
    }
    var out := ReplaceInOrder(template, strings);
    r := Ok(out);
  }

  /**
   * The `template.replace(/\{.*?\}/g, ...)` pass: a counter `index` walks
   * the values while the template is scanned left to right.
   */
  method ReplaceInOrder(template: string, strings: seq<string>) returns (out: string)
    requires PlaceholderCount(template, 0) == |strings|
    ensures out == Fill(template, 0, strings)
  {
    out := "";
    var index := 0;
    var i := 0;
    assert strings[0..] == strings;
    while i < |template|
      invariant ReplacedUpTo(template, strings, i, index, out)
      decreases |template| - i
    {
      if OpensAt(template, i) {
        var close := CloseFrom(template, i + 1).value;
        ReplacedAtOpen(template, strings, i, index, out);
        out := out + strings[index];
        index := index + 1;
        i := close + 1;
      } else {
        ReplacedAtChar(template, strings, i, index, out);
        out := out + [template[i]];
        i := i + 1;
      }
    }
    assert Fill(template, i, strings[index..]) == "";
    assert out + "" == out;
  }

  /**
   * The loop invariant of the replace pass: `out` is the text produced for
   * `template[..i]`, having used `index` values, and filling the rest with
   * the remaining values completes the whole filling.
   */
  ghost predicate ReplacedUpTo(template: string, strings: seq<string>, i: nat, index: nat, out: string)
  {
    && i <= |template| && PlaceholderCount(template, 0) == |strings|
    && index + PlaceholderCount(template, i) == |strings|
    && out + Fill(template, i, strings[index..]) == Fill(template, 0, strings)
  }

  lemma ReplacedAtOpen(template: string, strings: seq<string>, i: nat, index: nat, out: string)
    requires ReplacedUpTo(template, strings, i, index, out) && OpensAt(template, i)
    ensures index < |strings|
    ensures ReplacedUpTo(template, strings, CloseFrom(template, i + 1).value + 1, index + 1, out + strings[index])
  {
    var close := CloseFrom(template, i + 1).value;
    FillStepAtOpen(template, i, strings, index);
    AppendAssoc(out, strings[index], Fill(template, close + 1, strings[index + 1..]));
  }

  lemma ReplacedAtChar(template: string, strings: seq<string>, i: nat, index: nat, out: string)
    requires ReplacedUpTo(template, strings, i, index, out) && i < |template| && !OpensAt(template, i)
    ensures ReplacedUpTo(template, strings, i + 1, index, out + [template[i]])
  {
    FillStepAtChar(template, i, strings, index);
    AppendAssoc(out, [template[i]], Fill(template, i + 1, strings[index..]));
  }

}
