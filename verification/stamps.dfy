/** The iCalendar date tokens the parser decodes, `YYYYMMDD` and
    `YYYYMMDDTHHMMSS[Z]`, and the instants they become.  An instant is a
    whole number of seconds since 1970-01-01T00:00:00Z; the source's `Date`
    keeps milliseconds, which a token never sets. */
module Stamps {
  import opened Dates

  const SecondsPerDay: int := 86400

  predicate IsDigit(c: char) { '0' <= c <= '9' }

  predicate AllDigits(s: string) {
    forall i :: 0 <= i < |s| ==> IsDigit(s[i])
  }

  function Pow10(n: nat): (p: nat)
    ensures p >= 1
  {
    if n == 0 then 1 else 10 * Pow10(n - 1)
  }

  function DigitValue(c: char): (v: nat)
    requires IsDigit(c)
    ensures v < 10
  {
    c as int - '0' as int
  }

  /** `parseInt(s, 10)` for a non-empty run of decimal digits. */
  function DigitsValue(s: string): (v: nat)
    requires AllDigits(s)
    ensures v < Pow10(|s|)
    decreases |s|
  {
    if |s| == 0 then 0
    else 10 * DigitsValue(s[..|s| - 1]) + DigitValue(s[|s| - 1])
  }

  /** `v` written in `width` decimal digits, zero-padded (and cut to its last
      `width` digits). */
  function PadDigits(v: nat, width: nat): (s: string)
    ensures |s| == width && AllDigits(s)
    decreases width
  {
    if width == 0 then ""
    else PadDigits(v / 10, width - 1) + [('0' as int + v % 10) as char]
  }

  /** Reading back a zero-padded number gives the number, as long as it fits. */
  lemma {:induction false} PadDigitsRoundTrip(v: nat, width: nat)
    requires v < Pow10(width)
    ensures DigitsValue(PadDigits(v, width)) == v
    decreases width
  {
    if width > 0 {
      var s := PadDigits(v, width);
      assert s[..width - 1] == PadDigits(v / 10, width - 1);
      PadDigitsRoundTrip(v / 10, width - 1);
    }
  }

  // ---------------------------------------------------------------------------
  // Tokens
  // ---------------------------------------------------------------------------

  lemma DigitsSlice(s: string, a: nat, b: nat)
    requires AllDigits(s) && a <= b <= |s|
    ensures AllDigits(s[a..b])
  {
    assert forall i :: 0 <= i < b - a ==> s[a..b][i] == s[a + i];
  }

  /** The shape `parseDate` reads: eight digits of date and, when the token
      is longer, six digits of time at offsets 9 through 14.  Offset 8 (the
      `T`) and anything after offset 14 (the `Z`) are not looked at. */
  predicate WellFormed(token: string) {
    && |token| >= 8
    && AllDigits(token[..8])
    && (|token| > 8 ==> |token| >= 15 && AllDigits(token[9..15]))
  }

  /** The day number of the eight date digits: year, month and day are read
      by position and handed to `Date.UTC`, so a month or day out of range
      rolls over instead of failing, and a year below 100 is read as 19xx. */
  function DateDigitsDay(date: string): int
    requires |date| == 8 && AllDigits(date)
  {
    DigitsSlice(date, 0, 4);
    DigitsSlice(date, 4, 6);
    DigitsSlice(date, 6, 8);
    MakeDay(FullYear(DigitsValue(date[..4])), DigitsValue(date[4..6]) - 1, DigitsValue(date[6..8]))
  }

  /** The seconds of the six time digits `HHMMSS`, again without range checks. */
  function TimeDigitsSeconds(time: string): nat
    requires |time| == 6 && AllDigits(time)
  {
    DigitsSlice(time, 0, 2);
    DigitsSlice(time, 2, 4);
    DigitsSlice(time, 4, 6);
    DigitsValue(time[..2]) * 3600 + DigitsValue(time[2..4]) * 60 + DigitsValue(time[4..6])
  }

  /** `parseDate`: the instant a token names, in UTC. */
  function ParseDate(token: string): (r: int)
    requires WellFormed(token)
    ensures |token| == 8 ==> r == DateDigitsDay(token[..8]) * SecondsPerDay
    ensures DateDigitsDay(token[..8]) * SecondsPerDay <= r < (DateDigitsDay(token[..8]) + 5) * SecondsPerDay
  {
    DateDigitsDay(token[..8]) * SecondsPerDay
      + if |token| > 8 then TimeDigitsSeconds(token[9..15]) else 0
  }

  /** The `YYYYMMDD` token of a date. */
  function FormatDate(c: Civil): (token: string)
    requires 0 <= c.year && 0 <= c.month && 0 <= c.day
    ensures |token| == 8 && AllDigits(token)
  {
    PadDigits(c.year, 4) + PadDigits(c.month, 2) + PadDigits(c.day, 2)
  }

  function FormatTime(hour: nat, minute: nat, second: nat): (time: string)
    ensures |time| == 6 && AllDigits(time)
  {
    PadDigits(hour, 2) + PadDigits(minute, 2) + PadDigits(second, 2)
  }

  /** The `YYYYMMDDTHHMMSSZ` token of a date and a time of day. */
  function FormatDateTime(c: Civil, hour: nat, minute: nat, second: nat): (token: string)
    requires 0 <= c.year && 0 <= c.month && 0 <= c.day
    ensures |token| == 16
  {
    FormatDate(c) + "T" + FormatTime(hour, minute, second) + "Z"
  }

  lemma Concat3(x: string, y: string, z: string)
    ensures var s := x + y + z;
      s[..|x|] == x && s[|x|..|x| + |y|] == y && s[|x| + |y|..|x| + |y| + |z|] == z
  {
  }

  /** Three zero-padded numbers that fit their widths read back as themselves. */
  lemma FieldsRoundTrip(a: nat, wa: nat, b: nat, c: nat)
    requires a < Pow10(wa) && b < 100 && c < 100
    ensures var s := PadDigits(a, wa) + PadDigits(b, 2) + PadDigits(c, 2);
      && |s| == wa + 4
      && DigitsValue(s[..wa]) == a && DigitsValue(s[wa..wa + 2]) == b && DigitsValue(s[wa + 2..wa + 4]) == c
  {
    var x, y, z := PadDigits(a, wa), PadDigits(b, 2), PadDigits(c, 2);
    TwoDigits(b);
    TwoDigits(c);
    PadDigitsRoundTrip(a, wa);
    ReadFields(x, y, z);
    assert |x| == wa && |y| == 2 && |z| == 2;
  }

  lemma TwoDigits(b: nat)
    requires b < 100
    ensures DigitsValue(PadDigits(b, 2)) == b
  {
    assert Pow10(2) == 100 by {
      assert Pow10(1) == 10;
    }
    PadDigitsRoundTrip(b, 2);
  }

  /** Each field of three digit strings put side by side reads back as the
      field. */
  lemma ReadFields(x: string, y: string, z: string)
    requires AllDigits(x) && AllDigits(y) && AllDigits(z)
    ensures var s := x + y + z;
      && s[..|x|] == x && s[|x|..|x| + |y|] == y && s[|x| + |y|..|x| + |y| + |z|] == z
      && DigitsValue(s[..|x|]) == DigitsValue(x)
      && DigitsValue(s[|x|..|x| + |y|]) == DigitsValue(y)
      && DigitsValue(s[|x| + |y|..|x| + |y| + |z|]) == DigitsValue(z)
  {
    Concat3(x, y, z);
  }

  /** The date digits of a date from year 100 on name that date. */
  lemma DateDigitsRoundTrip(c: Civil)
    requires 100 <= c.year <= 9999 && ValidCivil(c)
    ensures DateDigitsDay(FormatDate(c)) == DaysFromCivil(c)
  {
    FieldsRoundTrip(c.year, 4, c.month, c.day);
    MakeDayOfDate(c.year, c.month - 1, c.day);
  }

  /** A date token of a date from year 100 on decodes to midnight UTC of
      that date. */
  lemma DateTokenRoundTrip(c: Civil)
    requires 100 <= c.year <= 9999 && ValidCivil(c)
    ensures WellFormed(FormatDate(c))
    ensures ParseDate(FormatDate(c)) == DaysFromCivil(c) * SecondsPerDay
  {
    var token := FormatDate(c);
    assert token[..8] == token;
    DateDigitsRoundTrip(c);
  }

  /** A date-time token decodes to that date at that time of day, UTC. */
  lemma DateTimeTokenRoundTrip(c: Civil, hour: nat, minute: nat, second: nat)
    requires 100 <= c.year <= 9999 && ValidCivil(c)
    requires hour < 24 && minute < 60 && second < 60
    ensures WellFormed(FormatDateTime(c, hour, minute, second))
    ensures ParseDate(FormatDateTime(c, hour, minute, second))
      == DaysFromCivil(c) * SecondsPerDay + hour * 3600 + minute * 60 + second
  {
    var token := FormatDateTime(c, hour, minute, second);
    assert token[..8] == FormatDate(c);
    assert token[9..15] == FormatTime(hour, minute, second);
    DateDigitsRoundTrip(c);
    FieldsRoundTrip(hour, 2, minute, second);
  }

  /** A four-digit year below 100 is taken as a twentieth-century year. */
  lemma ShortYearsMeanNineteenHundreds(y: nat, m: int, d: int)
    requires y <= 99 && 1 <= m <= 12 && 1 <= d <= DaysInMonth(1900 + y, m)
    ensures WellFormed(FormatDate(Civil(y, m, d)))
    ensures ParseDate(FormatDate(Civil(y, m, d))) == DaysFromCivil(Civil(1900 + y, m, d)) * SecondsPerDay
  {
    var token := FormatDate(Civil(y, m, d));
    assert token[..8] == token;
    FieldsRoundTrip(y, 4, m, d);
    var day := DateDigitsDay(token);
    assert day == MakeDay(1900 + y, m - 1, d);
    MakeDayInYear(1900 + y, m - 1, d);
    assert ParseDate(token) == day * SecondsPerDay;
  }

  // ---------------------------------------------------------------------------
  // Instants
  // ---------------------------------------------------------------------------

  /** A decoded token, or one outside the shape `parseDate` reads.  The
      source's `Date` for such a token is not modelled; it lies in no day
      range, as an invalid `Date` compares false with everything. */
  datatype Stamp = At(seconds: int) | Undecoded(token: string)

  function DecodeStamp(token: string): (st: Stamp)
    ensures st.At? <==> WellFormed(token)
    ensures st.Undecoded? ==> st.token == token
  {
    if WellFormed(token) then At(ParseDate(token)) else Undecoded(token)
  }

  /** The UTC day an instant falls on. */
  function DayOf(t: int): (d: int)
    ensures d * SecondsPerDay <= t < d * SecondsPerDay + SecondsPerDay
  {
    t / SecondsPerDay
  }

  /** `setUTCDate(getUTCDate() - 1)`: exactly one day earlier, at the same
      time of day. */
  function DayEarlier(st: Stamp): (r: Stamp)
    ensures r.At? <==> st.At?
    ensures st.At? ==> DayOf(r.seconds) == DayOf(st.seconds) - 1
    ensures st.At? ==> r.seconds % SecondsPerDay == st.seconds % SecondsPerDay
  {
    match st
    case At(t) =>
      DivUnique(t - SecondsPerDay, SecondsPerDay, DayOf(t) - 1, t % SecondsPerDay);
      At(t - SecondsPerDay)
    case Undecoded(_) => st
  }
}
