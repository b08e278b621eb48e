/**
 * `java.time.LocalDateTime` restricted to what the program stores: a calendar
 * date and a time of day to the minute. Two text forms are modelled: the user
 * input pattern "yyyy-MM-dd HHmm" and the ISO-8601 form "yyyy-MM-ddTHH:mm" that
 * `LocalDateTime.toString` writes (seconds are always zero here, so they are
 * omitted) and `LocalDateTime.parse` reads back.
 */
module DateTimes {
  import opened Results
  import opened Numbers

  datatype DateTime = DateTime(year: int, month: int, day: int, hour: int, minute: int)

  /** Proleptic Gregorian leap years. */
  predicate IsLeapYear(y: int)
  {
    y % 4 == 0 && (y % 100 != 0 || y % 400 == 0)
  }

  function DaysInMonth(y: int, m: int): int
  {
    if m == 2 then (if IsLeapYear(y) then 29 else 28)
    else if m == 4 || m == 6 || m == 9 || m == 11 then 30
    else 31
  }

  /** A real date-time whose year has four digits. */
  predicate Valid(dt: DateTime)
  {
    && 0 <= dt.year <= 9999
    && 1 <= dt.month <= 12
    && 1 <= dt.day <= DaysInMonth(dt.year, dt.month)
    && 0 <= dt.hour <= 23
    && 0 <= dt.minute <= 59
  }

  /** A `LocalDateTime` value: it can only ever denote a real instant. */
  type LocalDateTime = dt: DateTime | Valid(dt) witness DateTime(2000, 1, 1, 0, 0)

  /** The characters of `s` at positions `a` (inclusive) to `b` (exclusive) are all digits. */
  predicate DigitsAt(s: string, a: nat, b: nat)
  {
    a <= b <= |s| && AllDigits(s[a..b])
  }

  function ValueAt(s: string, a: nat, b: nat): nat
    requires DigitsAt(s, a, b)
  {
    DigitsValue(s[a..b])
  }

  /** "yyyy-MM-dd HHmm", as `DateTimeFormatter.ofPattern("yyyy-MM-dd HHmm")` formats it. */
  function FormatInput(dt: LocalDateTime): (r: string)
    ensures |r| == 15
  {
    Pad(dt.year, 4) + "-" + Pad(dt.month, 2) + "-" + Pad(dt.day, 2) + " " + Pad(dt.hour, 2) + Pad(dt.minute, 2)
  }

  /**
   * `LocalDateTime.parse(text, ofPattern("yyyy-MM-dd HHmm"))`: four-digit year,
   * two-digit month and day, a space, then two-digit hour and minute. The
   * pattern letter `y` is the year of the era, which starts at 1, so year 0000
   * is refused although the ISO form allows it.
   */
  function ParseInput(s: string): (r: Option<LocalDateTime>)
    ensures r.Some? ==> |s| == 15 && r.value.year >= 1
    ensures r.Some? ==> FormatInput(r.value) == s
  {
    if |s| == 15 && s[4] == '-' && s[7] == '-' && s[10] == ' '
       && DigitsAt(s, 0, 4) && DigitsAt(s, 5, 7) && DigitsAt(s, 8, 10)
       && DigitsAt(s, 11, 13) && DigitsAt(s, 13, 15)
    then
      var dt := DateTime(ValueAt(s, 0, 4), ValueAt(s, 5, 7), ValueAt(s, 8, 10), ValueAt(s, 11, 13), ValueAt(s, 13, 15));
      PadOfDigits(s[0..4]);
      PadOfDigits(s[5..7]);
      PadOfDigits(s[8..10]);
      PadOfDigits(s[11..13]);
      PadOfDigits(s[13..15]);
      InputPieces(s);
      if Valid(dt) && dt.year >= 1 then Some(dt) else None
    else None
  }

  /** `LocalDateTime.toString()` for a value with zero seconds: "yyyy-MM-ddTHH:mm". */
  function RenderIso(dt: LocalDateTime): (r: string)
    ensures |r| == 16
  {
    Pad(dt.year, 4) + "-" + Pad(dt.month, 2) + "-" + Pad(dt.day, 2) + "T" + Pad(dt.hour, 2) + ":" + Pad(dt.minute, 2)
  }

  /** `LocalDateTime.parse(text)` on the ISO-8601 form "yyyy-MM-ddTHH:mm". */
  function ParseIso(s: string): (r: Option<LocalDateTime>)
    ensures r.Some? ==> |s| == 16
    ensures r.Some? ==> RenderIso(r.value) == s
  {
    if |s| == 16 && s[4] == '-' && s[7] == '-' && s[10] == 'T' && s[13] == ':'
       && DigitsAt(s, 0, 4) && DigitsAt(s, 5, 7) && DigitsAt(s, 8, 10)
       && DigitsAt(s, 11, 13) && DigitsAt(s, 14, 16)
    then
      var dt := DateTime(ValueAt(s, 0, 4), ValueAt(s, 5, 7), ValueAt(s, 8, 10), ValueAt(s, 11, 13), ValueAt(s, 14, 16));
      PadOfDigits(s[0..4]);
      PadOfDigits(s[5..7]);
      PadOfDigits(s[8..10]);
      PadOfDigits(s[11..13]);
      PadOfDigits(s[14..16]);
      IsoPieces(s);
      if Valid(dt) then Some(dt) else None
    else None
  }

  /** Reading back what `toString` wrote gives the same date-time. */
  lemma IsoRoundTrip(dt: LocalDateTime)
    ensures ParseIso(RenderIso(dt)) == Some(dt)
  {
    IsoText(dt);
    ParseIsoOf(RenderIso(dt), dt);
  }

  /**
   * What `toString` writes: the four separators of "yyyy-MM-ddTHH:mm" in their
   * places, and between them the year, month, day, hour and minute in digits.
   */
  lemma IsoText(dt: LocalDateTime)
    ensures var r := RenderIso(dt);
            && r[4] == '-' && r[7] == '-' && r[10] == 'T' && r[13] == ':'
            && DigitsAt(r, 0, 4) && DigitsAt(r, 5, 7) && DigitsAt(r, 8, 10) && DigitsAt(r, 11, 13) && DigitsAt(r, 14, 16)
            && ValueAt(r, 0, 4) == dt.year && ValueAt(r, 5, 7) == dt.month && ValueAt(r, 8, 10) == dt.day
            && ValueAt(r, 11, 13) == dt.hour && ValueAt(r, 14, 16) == dt.minute
  {
    var y, mo, d, h, mi := Pad(dt.year, 4), Pad(dt.month, 2), Pad(dt.day, 2), Pad(dt.hour, 2), Pad(dt.minute, 2);
    IsoLayout(y, mo, d, h, mi);
    PadValue(dt.year, 4);
    PadValue(dt.month, 2);
    PadValue(dt.day, 2);
    PadValue(dt.hour, 2);
    PadValue(dt.minute, 2);
  }

  /** Where the five numbers and four separators of the ISO form sit. */
  lemma IsoLayout(y: string, mo: string, d: string, h: string, mi: string)
    requires |y| == 4 && |mo| == 2 && |d| == 2 && |h| == 2 && |mi| == 2
    ensures var s := y + "-" + mo + "-" + d + "T" + h + ":" + mi;
            && |s| == 16 && s[4] == '-' && s[7] == '-' && s[10] == 'T' && s[13] == ':'
            && s[0..4] == y && s[5..7] == mo && s[8..10] == d && s[11..13] == h && s[14..16] == mi
  {
  }

  lemma ParseIsoOf(s: string, dt: LocalDateTime)
    requires |s| == 16 && s[4] == '-' && s[7] == '-' && s[10] == 'T' && s[13] == ':'
    requires AllDigits(s[0..4]) && AllDigits(s[5..7]) && AllDigits(s[8..10]) && AllDigits(s[11..13]) && AllDigits(s[14..16])
    requires DigitsValue(s[0..4]) == dt.year && DigitsValue(s[5..7]) == dt.month && DigitsValue(s[8..10]) == dt.day
    requires DigitsValue(s[11..13]) == dt.hour && DigitsValue(s[14..16]) == dt.minute
    ensures ParseIso(s) == Some(dt)
  {
  }

  /**
   * The ISO form is canonical: a text reads as a date-time exactly when it is
   * what `toString` writes for that date-time.
   */
  lemma IsoCanonical(s: string, dt: LocalDateTime)
    ensures ParseIso(s) == Some(dt) <==> s == RenderIso(dt)
  {
    IsoRoundTrip(dt);
  }

  lemma IsoPieces(s: string)
    requires |s| == 16 && s[4] == '-' && s[7] == '-' && s[10] == 'T' && s[13] == ':'
    ensures s == s[0..4] + "-" + s[5..7] + "-" + s[8..10] + "T" + s[11..13] + ":" + s[14..16]
  {
  }

  /** The user pattern reads back what it formats, for every year it admits. */
  lemma InputRoundTrip(dt: LocalDateTime)
    requires dt.year >= 1
    ensures ParseInput(FormatInput(dt)) == Some(dt)
  {
    InputText(dt);
    ParseInputOf(FormatInput(dt), dt);
  }

  /**
   * The user pattern is canonical too: a text reads as a date-time exactly
   * when it is that date-time formatted, for the years the pattern admits.
   */
  lemma InputCanonical(s: string, dt: LocalDateTime)
    ensures ParseInput(s) == Some(dt) <==> s == FormatInput(dt) && dt.year >= 1
  {
    if dt.year >= 1 {
      InputRoundTrip(dt);
    }
  }

  lemma InputPieces(s: string)
    requires |s| == 15 && s[4] == '-' && s[7] == '-' && s[10] == ' '
    ensures s == s[0..4] + "-" + s[5..7] + "-" + s[8..10] + " " + s[11..13] + s[13..15]
  {
  }

  /**
   * What the user pattern formats: "yyyy-MM-dd HHmm" with the year, month,
   * day, hour and minute in digits at fixed places.
   */
  lemma InputText(dt: LocalDateTime)
    ensures var r := FormatInput(dt);
            && r[4] == '-' && r[7] == '-' && r[10] == ' '
            && DigitsAt(r, 0, 4) && DigitsAt(r, 5, 7) && DigitsAt(r, 8, 10) && DigitsAt(r, 11, 13) && DigitsAt(r, 13, 15)
            && ValueAt(r, 0, 4) == dt.year && ValueAt(r, 5, 7) == dt.month && ValueAt(r, 8, 10) == dt.day
            && ValueAt(r, 11, 13) == dt.hour && ValueAt(r, 13, 15) == dt.minute
  {
    var y, mo, d, h, mi := Pad(dt.year, 4), Pad(dt.month, 2), Pad(dt.day, 2), Pad(dt.hour, 2), Pad(dt.minute, 2);
    InputLayout(y, mo, d, h, mi);
    PadValue(dt.year, 4);
    PadValue(dt.month, 2);
    PadValue(dt.day, 2);
    PadValue(dt.hour, 2);
    PadValue(dt.minute, 2);
  }

  /** Where the five numbers and three separators of the user pattern sit. */
  lemma InputLayout(y: string, mo: string, d: string, h: string, mi: string)
    requires |y| == 4 && |mo| == 2 && |d| == 2 && |h| == 2 && |mi| == 2
    ensures var s := y + "-" + mo + "-" + d + " " + h + mi;
            && |s| == 15 && s[4] == '-' && s[7] == '-' && s[10] == ' '
            && s[0..4] == y && s[5..7] == mo && s[8..10] == d && s[11..13] == h && s[13..15] == mi
  {
  }

  lemma ParseInputOf(s: string, dt: LocalDateTime)
    requires dt.year >= 1
    requires |s| == 15 && s[4] == '-' && s[7] == '-' && s[10] == ' '
    requires AllDigits(s[0..4]) && AllDigits(s[5..7]) && AllDigits(s[8..10]) && AllDigits(s[11..13]) && AllDigits(s[13..15])
    requires DigitsValue(s[0..4]) == dt.year && DigitsValue(s[5..7]) == dt.month && DigitsValue(s[8..10]) == dt.day
    requires DigitsValue(s[11..13]) == dt.hour && DigitsValue(s[13..15]) == dt.minute
    ensures ParseInput(s) == Some(dt)
  {
  }

  /**
   * The ISO text is made of digits, '-', 'T' and ':' only, so it never holds
   * another character: not the file separator's '|', and not a line break.
   */
  lemma IsoAvoids(dt: LocalDateTime, c: char)
    requires !IsDigit(c) && c !in "-T:"
    ensures c !in RenderIso(dt)
  {
    var s := RenderIso(dt);
    forall i | 0 <= i < |s|
      ensures s[i] != c
    {
      assert IsDigit(s[i]) || s[i] in "-T:";
    }
  }
}
