/**
 * The date-format regular expressions of `date.utils.ts`, written out as
 * predicates over strings:
 *
 *   DATE_STRING      ^\d{4}-\d{2}-\d{2}$
 *   ISO_8601_FULL    ^\d{4}-\d\d-\d\dT\d\d:\d\d:\d\d(\.\d+)?(([+-]\d\d:\d\d)|Z)?$   (flag i)
 *   UTC_DATE_STRING  [A-Za-z]{3}, \d{2} [A-Za-z]{3} [0-9]{4} (.*) GMT             (unanchored)
 *
 * ISO_8601_FULL is the "complete date plus hours, minutes, seconds and an
 * optional decimal fraction of a second" form of the W3C note "Date and Time
 * Formats" (NOTE-datetime); UTC_DATE_STRING is a loose match of the
 * IMF-fixdate shape that `Date.prototype.toUTCString` produces (section
 * 7.1.1.1 of RFC 7231). None of them checks that the date exists.
 */
module DateFormats {
  import opened Text

  predicate AllDigits(s: string) { forall k :: 0 <= k < |s| ==> IsDigit(s[k]) }

  /** Every character of `s` in [a, b) is a digit. */
  predicate DigitsIn(s: string, a: int, b: int)
    requires 0 <= a <= b <= |s|
  {
    forall k | a <= k < b :: IsDigit(s[k])
  }

  /** Every character of `s` in [a, b) is an ASCII letter. */
  predicate LettersIn(s: string, a: int, b: int)
    requires 0 <= a <= b <= |s|
  {
    forall k | a <= k < b :: IsAsciiLetter(s[k])
  }

  /** `\d{4}-\d{2}-\d{2}` at the start of `s`. */
  predicate DatePart(s: string)
    requires |s| >= 10
  {
    DigitsIn(s, 0, 4) && s[4] == '-' && DigitsIn(s, 5, 7) && s[7] == '-' && DigitsIn(s, 8, 10)
  }

  /** DATE_STRING (also the literal pattern at date.utils.ts:48, 119 and 126). */
  predicate IsDateOnly(s: string)
    ensures IsDateOnly(s) <==>
      |s| == 10 && forall k | 0 <= k < 10 :: if k == 4 || k == 7 then s[k] == '-' else IsDigit(s[k])
  {
    |s| == 10 && DatePart(s)
  }

  /** `^\d{4}-\d{2}-\d{2}T` (case-sensitive), the test at date.utils.ts:117. */
  predicate HasDateTimePrefix(s: string)
  {
    |s| >= 11 && DatePart(s) && s[10] == 'T'
  }

  /** The fixed part `\d{4}-\d\d-\d\dT\d\d:\d\d:\d\d` at the start of `s`, case-insensitive. */
  predicate IsoHead(s: string)
    requires |s| >= 19
  {
    && DatePart(s)
    && (s[10] == 'T' || s[10] == 't')
    && DigitsIn(s, 11, 13) && s[13] == ':'
    && DigitsIn(s, 14, 16) && s[16] == ':'
    && DigitsIn(s, 17, 19)
  }

  /** `(([+-]\d\d:\d\d)|Z)?` followed by the end of input, case-insensitive. */
  predicate IsZone(z: string)
  {
    || z == ""
    || z == "Z" || z == "z"
    || (&& |z| == 6
        && (z[0] == '+' || z[0] == '-')
        && DigitsIn(z, 1, 3) && z[3] == ':' && DigitsIn(z, 4, 6))
  }

  /** `\d+` followed by a zone: the digits of a fraction, at least one. */
  predicate DigitsThenZone(u: string)
    decreases |u|
  {
    |u| >= 1 && IsDigit(u[0]) && (IsZone(u[1..]) || DigitsThenZone(u[1..]))
  }

  /** `(\.\d+)?(([+-]\d\d:\d\d)|Z)?$`: an optional fraction, then an optional zone. */
  predicate IsIsoTail(t: string)
  {
    IsZone(t) || (|t| >= 1 && t[0] == '.' && DigitsThenZone(t[1..]))
  }

  /** ISO_8601_FULL. */
  predicate IsIsoFull(s: string)
    ensures IsIsoFull(s) ==> |s| >= 19 && IsDateOnly(s[..10]) && (s[10] == 'T' || s[10] == 't') && s[13] == ':' && s[16] == ':'
  {
    |s| >= 19 && IsoHead(s) && IsIsoTail(s[19..])
  }

  /** `[A-Za-z]{3}, \d{2} [A-Za-z]{3} [0-9]{4} `: the 17 characters before `(.*)`, at index `i`. */
  predicate UtcHeaderAt(s: string, i: int)
    requires 0 <= i && i + 17 <= |s|
  {
    && LettersIn(s, i, i + 3) && s[i + 3] == ',' && s[i + 4] == ' '
    && DigitsIn(s, i + 5, i + 7) && s[i + 7] == ' '
    && LettersIn(s, i + 8, i + 11) && s[i + 11] == ' '
    && DigitsIn(s, i + 12, i + 16) && s[i + 16] == ' '
  }

  /**
   * `(.*) GMT` after the header of a match at `i`: the group spans
   * [i + 17, j) with no line break in it, then " GMT" at `j`.
   */
  predicate GmtAfter(s: string, i: int, j: int)
    requires 0 <= i && i + 17 <= j && j + 4 <= |s|
  {
    && (forall k | i + 17 <= k < j :: !IsLineTerminator(s[k]))
    && s[j] == ' ' && s[j + 1] == 'G' && s[j + 2] == 'M' && s[j + 3] == 'T'
  }

  /** UTC_DATE_STRING matches starting at index `i`. */
  predicate UtcMatchAt(s: string, i: int)
  {
    && 0 <= i && i + 17 <= |s|
    && UtcHeaderAt(s, i)
    && exists j | i + 17 <= j <= |s| - 4 :: GmtAfter(s, i, j)
  }

  /** `UTC_DATE_STRING.test(s)`: a match anywhere in `s`. */
  predicate ContainsUtcDate(s: string)
    ensures ContainsUtcDate(s) ==> |s| >= 21
  {
    exists i | 0 <= i <= |s| :: UtcMatchAt(s, i)
  }

  // ---------------------------------------------------------------------
  // ISO_8601_FULL: what the tail after the seconds may be
  // ---------------------------------------------------------------------

  /** A zone never starts with a digit. */
  lemma ZoneNotDigit(z: string)
    requires |z| >= 1 && IsDigit(z[0])
    ensures !IsZone(z)
  {
  }

  /** A zone never starts with the fraction point. */
  lemma ZoneStart(z: string)
    requires |z| >= 1 && z[0] == '.'
    ensures !IsZone(z)
  {
    assert z != "Z" && z != "z" by {
      assert "Z"[0] == 'Z' && "z"[0] == 'z';
    }
  }

  /** A run of fraction digits followed by `z` is accepted exactly when `z` is a zone. */
  lemma {:induction false} FractionThenZone(u: string, z: string)
    requires |u| >= 1 && AllDigits(u)
    requires z == [] || !IsDigit(z[0])
    ensures DigitsThenZone(u + z) <==> IsZone(z)
    decreases |u|
  {
    assert (u + z)[0] == u[0];
    assert (u + z)[1..] == u[1..] + z;
    if |u| > 1 {
      FractionThenZone(u[1..], z);
      assert (u[1..] + z)[0] == u[1];
      ZoneNotDigit(u[1..] + z);
    } else {
      assert u[1..] + z == z;
      if z != [] {
        assert !DigitsThenZone(z);
      }
    }
  }

  /** The head of a longer string is judged on its first 19 characters alone. */
  lemma IsoHeadOfPrefix(head: string, rest: string)
    requires |head| == 19
    ensures IsoHead(head + rest) <==> IsoHead(head)
  {
    var s := head + rest;
    assert forall k | 0 <= k < 19 :: s[k] == head[k];
  }

  /**
   * After the seconds, a string without a fraction is accepted iff the rest
   * is a zone: "", Z/z, or exactly `[+-]hh:mm`.
   */
  lemma IsoWithoutFraction(head: string, z: string)
    requires |head| == 19 && IsoHead(head)
    requires z == [] || z[0] != '.'
    ensures IsIsoFull(head + z) <==> IsZone(z)
  {
    IsoHeadOfPrefix(head, z);
    assert (head + z)[19..] == z;
  }

  /**
   * After the seconds, a point is accepted iff at least one digit follows it
   * and what follows the digits is a zone.
   */
  lemma IsoWithFraction(head: string, u: string, z: string)
    requires |head| == 19 && IsoHead(head)
    requires AllDigits(u)
    requires z == [] || !IsDigit(z[0])
    ensures IsIsoFull(head + "." + u + z) <==> |u| >= 1 && IsZone(z)
  {
    var s := head + "." + u + z;
    var t := "." + u + z;
    assert s == head + t;
    IsoHeadOfPrefix(head, t);
    assert s[19..] == t;
    assert t[0] == '.' && t[1..] == u + z;
    ZoneStart(t);
    assert IsIsoFull(s) <==> IsoHead(head) && IsIsoTail(t);
    assert IsIsoTail(t) <==> DigitsThenZone(u + z);
    if |u| >= 1 {
      FractionThenZone(u, z);
    } else {
      assert u + z == z;
      if z != [] {
        assert !DigitsThenZone(z);
      }
    }
  }

  /** Seconds are mandatory: every accepted string has `:ss` at indices 16 to 18. */
  lemma IsoHasSeconds(s: string)
    requires IsIsoFull(s)
    ensures |s| >= 19 && s[16] == ':' && IsDigit(s[17]) && IsDigit(s[18])
  {
  }

  // ---------------------------------------------------------------------
  // ISO_8601_FULL: the `i` flag
  // ---------------------------------------------------------------------

  lemma DigitsInUpper(s: string, a: int, b: int)
    requires 0 <= a <= b <= |s|
    ensures DigitsIn(AsciiUpper(s), a, b) <==> DigitsIn(s, a, b)
  {
  }

  lemma IsZoneUpper(z: string)
    ensures IsZone(AsciiUpper(z)) <==> IsZone(z)
  {
    var u := AsciiUpper(z);
    if |z| == 6 {
      DigitsInUpper(z, 1, 3);
      DigitsInUpper(z, 4, 6);
    }
    if |z| == 1 {
      assert u == [UpperChar(z[0])];
    }
  }

  lemma {:induction false} DigitsThenZoneUpper(u: string)
    ensures DigitsThenZone(AsciiUpper(u)) <==> DigitsThenZone(u)
    decreases |u|
  {
    if |u| >= 1 {
      var U := AsciiUpper(u);
      assert U[1..] == AsciiUpper(u[1..]);
      assert IsDigit(U[0]) <==> IsDigit(u[0]);
      IsZoneUpper(u[1..]);
      DigitsThenZoneUpper(u[1..]);
    }
  }

  lemma DatePartUpper(s: string)
    requires |s| >= 10
    ensures DatePart(AsciiUpper(s)) <==> DatePart(s)
  {
    DigitsInUpper(s, 0, 4);
    DigitsInUpper(s, 5, 7);
    DigitsInUpper(s, 8, 10);
  }

  /** ISO_8601_FULL carries the `i` flag: a string matches iff its upper-cased form does. */
  lemma IsoFullIgnoresCase(s: string)
    ensures IsIsoFull(AsciiUpper(s)) <==> IsIsoFull(s)
  {
    var u := AsciiUpper(s);
    if |s| >= 19 {
      DatePartUpper(s);
      DigitsInUpper(s, 11, 13);
      DigitsInUpper(s, 14, 16);
      DigitsInUpper(s, 17, 19);
      assert IsoHead(u) <==> IsoHead(s);
      var t := s[19..];
      assert u[19..] == AsciiUpper(t);
      IsZoneUpper(t);
      if |t| >= 1 {
        assert AsciiUpper(t)[1..] == AsciiUpper(t[1..]);
        DigitsThenZoneUpper(t[1..]);
      }
    }
  }

  // ---------------------------------------------------------------------
  // Relations between the formats
  // ---------------------------------------------------------------------

  /** A date-only string extended with UTC midnight, as toDateObject builds it, is a full ISO 8601 timestamp. */
  lemma DateOnlyAtMidnightIsIsoFull(s: string)
    requires IsDateOnly(s)
    ensures IsIsoFull(s + "T00:00:00.000Z")
    ensures HasDateTimePrefix(s + "T00:00:00.000Z")
  {
    var t := s + "T00:00:00.000Z";
    assert forall k | 0 <= k < 10 :: t[k] == s[k];
    assert t[19..] == ".000Z";
    assert ".000Z"[1..] == "000Z";
    assert "000Z"[1..] == "00Z";
    assert "00Z"[1..] == "0Z";
    assert "0Z"[1..] == "Z";
  }

  /** A date-only string is no full timestamp, and a full timestamp starts with a date-only string. */
  lemma DateOnlyIsNotIsoFull(s: string)
    ensures IsDateOnly(s) ==> !IsIsoFull(s)
    ensures IsIsoFull(s) ==> IsDateOnly(s[..10])
  {
  }

  /** Text around `s` shifts a match at `i` by the length of the text before it. */
  lemma UtcHeaderShift(t: string, s: string, p: int, i: int)
    requires 0 <= p && p + |s| <= |t| && t[p..p + |s|] == s
    requires 0 <= i && i + 17 <= |s| && UtcHeaderAt(s, i)
    ensures UtcHeaderAt(t, p + i)
  {
    forall k | i <= k < i + 17
      ensures t[p + k] == s[k]
    {
    }
  }

  lemma GmtShift(t: string, s: string, p: int, i: int, j: int)
    requires 0 <= p && p + |s| <= |t| && t[p..p + |s|] == s
    requires 0 <= i && i + 17 <= j && j + 4 <= |s| && GmtAfter(s, i, j)
    ensures GmtAfter(t, p + i, p + j)
  {
    forall k | p + i + 17 <= k < p + j
      ensures !IsLineTerminator(t[k])
    {
      assert t[k] == s[k - p];
    }
    assert t[p + j] == s[j] && t[p + j + 1] == s[j + 1];
    assert t[p + j + 2] == s[j + 2] && t[p + j + 3] == s[j + 3];
  }

  /** UTC_DATE_STRING is unanchored: text before and after a match does not stop it matching. */
  lemma UtcMatchIgnoresSurroundings(prefix: string, s: string, suffix: string, i: int)
    requires UtcMatchAt(s, i)
    ensures UtcMatchAt(prefix + s + suffix, |prefix| + i)
    ensures ContainsUtcDate(prefix + s + suffix)
  {
    var t := prefix + s + suffix;
    var j :| i + 17 <= j <= |s| - 4 && GmtAfter(s, i, j);
    var p := |prefix|;
    assert t[p..p + |s|] == s;
    UtcHeaderShift(t, s, p, i);
    GmtShift(t, s, p, i, j);
    assert UtcMatchAt(t, p + i);
  }

  // ---------------------------------------------------------------------
  // Examples
  // ---------------------------------------------------------------------

  /** The recognisers check shape only: month 13, day 45 and hour 99 pass. */
  lemma FormatOnlyExamples()
    ensures IsDateOnly("2024-13-45")
    ensures IsIsoFull("2024-13-45T99:99:99Z")
  {
    assert "2024-13-45T99:99:99Z"[19..] == "Z";
  }

  lemma IsoAcceptsNoZone()
    ensures IsIsoFull("2024-10-02T10:20:30")
  {
    var head := "2024-10-02T10:20:30";
    assert IsoHead(head);
    assert head == head + "";
    IsoWithoutFraction(head, "");
  }

  lemma IsoAcceptsLowerCase()
    ensures IsIsoFull("2024-10-02t10:20:30.5z")
  {
    var head := "2024-10-02t10:20:30";
    assert IsoHead(head);
    assert "2024-10-02t10:20:30.5z" == head + "." + "5" + "z";
    IsoWithFraction(head, "5", "z");
  }

  lemma IsoAcceptsOffset()
    ensures IsIsoFull("2024-10-02T10:20:30.123+02:00")
  {
    var head := "2024-10-02T10:20:30";
    SampleHead();
    var z := "+02:00";
    assert IsZone(z) by {
      assert DigitsIn(z, 1, 3) && DigitsIn(z, 4, 6);
    }
    assert AllDigits("123");
    assert head + "." + "123" + z == "2024-10-02T10:20:30.123+02:00";
    IsoWithFraction(head, "123", z);
  }

  lemma SampleHead()
    ensures IsoHead("2024-10-02T10:20:30")
  {
  }

  lemma IsoRejectExamples()
    ensures !IsIsoFull("2024-10-02T10:20Z")            // seconds are mandatory
    ensures !IsIsoFull("2024-10-02T10:20:30.Z")        // a fraction needs a digit
    ensures !IsIsoFull("2024-10-02T10:20:30+0200")     // the offset needs its colon
    ensures !IsIsoFull("2024-10-02T10:20:30+02")
  {
    IsoRejectsEmptyFraction();
    IsoRejectsShortOffsets();
  }

  lemma IsoRejectsEmptyFraction()
    ensures !IsIsoFull("2024-10-02T10:20:30.Z")
  {
    var head := "2024-10-02T10:20:30";
    ExampleIsoHead(head);
    assert "2024-10-02T10:20:30.Z" == head + "." + "" + "Z";
    IsoWithFraction(head, "", "Z");
  }

  lemma IsoRejectsShortOffsets()
    ensures !IsIsoFull("2024-10-02T10:20:30+0200")
    ensures !IsIsoFull("2024-10-02T10:20:30+02")
  {
    var head := "2024-10-02T10:20:30";
    ExampleIsoHead(head);
    IsoRejectsOffset(head, "+0200");
    IsoRejectsOffset(head, "+02");
  }

  /** The date and time of the examples, without zone. */
  lemma ExampleIsoHead(head: string)
    requires head == "2024-10-02T10:20:30"
    ensures |head| == 19 && IsoHead(head)
  {
  }

  /** An offset other than six characters is no zone, so the whole is rejected. */
  lemma IsoRejectsOffset(head: string, z: string)
    requires |head| == 19 && IsoHead(head)
    requires 1 <= |z| < 6 && z[0] == '+'
    ensures !IsIsoFull(head + z)
  {
    assert z != "Z" && z != "z" by { assert "Z"[0] == 'Z' && "z"[0] == 'z'; }
    IsoWithoutFraction(head, z);
  }


  lemma UtcAcceptsUtcString()
    ensures ContainsUtcDate("Wed, 02 Oct 2024 00:00:00 GMT")
  {
    var s := "Wed, 02 Oct 2024 00:00:00 GMT";
    UtcStringHeader(s);
    UtcStringGmt(s);
    assert UtcMatchAt(s, 0);
  }

  lemma UtcStringHeader(s: string)
    requires s == "Wed, 02 Oct 2024 00:00:00 GMT"
    ensures |s| == 29 && UtcHeaderAt(s, 0)
  {
    var head := "Wed, 02 Oct 2024 ";
    HeaderOfChars(head, 0);
    assert s == "" + head + "00:00:00 GMT";
    HeaderInside("", head, "00:00:00 GMT");
  }

  /** The header test, one character at a time. */
  lemma HeaderOfChars(s: string, i: int)
    requires 0 <= i && i + 17 <= |s|
    requires IsAsciiLetter(s[i]) && IsAsciiLetter(s[i + 1]) && IsAsciiLetter(s[i + 2])
    requires s[i + 3] == ',' && s[i + 4] == ' '
    requires IsDigit(s[i + 5]) && IsDigit(s[i + 6]) && s[i + 7] == ' '
    requires IsAsciiLetter(s[i + 8]) && IsAsciiLetter(s[i + 9]) && IsAsciiLetter(s[i + 10]) && s[i + 11] == ' '
    requires IsDigit(s[i + 12]) && IsDigit(s[i + 13]) && IsDigit(s[i + 14]) && IsDigit(s[i + 15])
    requires s[i + 16] == ' '
    ensures UtcHeaderAt(s, i)
  {
  }

  lemma UtcStringGmt(s: string)
    requires s == "Wed, 02 Oct 2024 00:00:00 GMT"
    ensures |s| == 29 && GmtAfter(s, 0, 25)
  {
  }

  /** Only the shape counts, and the match may start anywhere. */
  lemma UtcAcceptsLooseText()
    ensures ContainsUtcDate("sent: Xyz, 99 Abc 0000  GMT+1")
  {
    var t := "sent: Xyz, 99 Abc 0000  GMT+1";
    LooseTextHeader(t);
    LooseTextGmt(t);
    assert UtcMatchAt(t, 6);
  }

  lemma LooseTextHeader(t: string)
    requires t == "sent: Xyz, 99 Abc 0000  GMT+1"
    ensures |t| == 29 && UtcHeaderAt(t, 6)
  {
    var head := "Xyz, 99 Abc 0000 ";
    HeaderOfChars(head, 0);
    assert t == "sent: " + head + " GMT+1";
    HeaderInside("sent: ", head, " GMT+1");
  }

  /** A header stays a header inside surrounding text. */
  lemma HeaderInside(prefix: string, head: string, suffix: string)
    requires |head| == 17 && UtcHeaderAt(head, 0)
    ensures UtcHeaderAt(prefix + head + suffix, |prefix|)
  {
    var t := prefix + head + suffix;
    assert t[|prefix|..|prefix| + |head|] == head;
    UtcHeaderShift(t, head, |prefix|, 0);
  }

  lemma LooseTextGmt(t: string)
    requires t == "sent: Xyz, 99 Abc 0000  GMT+1"
    ensures |t| == 29 && GmtAfter(t, 6, 23)
  {
  }
}
