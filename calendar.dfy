/** Calendar dates and timestamps as the top-movies report uses them:
    `strptime(s, '%Y-%m-%d')`, `date + timedelta(days=1)`, `strftime('%Y-%m-%d')`
    and the comparison of dates and of comment creation times.

    Dates are proleptic Gregorian, years 1 to 9999, as in Python's `datetime`
    (ISO 8601 calendar dates in extended format, section 4.1.2.2 of ISO 8601:2004). */
module Calendar {
  import opened Wrappers
  import opened Decimal

  datatype Date = Date(year: int, month: int, day: int)

  const MinYear := 1
  const MaxYear := 9999

  /** The last date `datetime` can represent; the day after it overflows. */
  const LastDate := Date(MaxYear, 12, 31)

  predicate IsLeapYear(y: int) {
    y % 4 == 0 && (y % 100 != 0 || y % 400 == 0)
  }

  function DaysInMonth(y: int, m: int): int {
    if m == 2 then (if IsLeapYear(y) then 29 else 28)
    else if m == 4 || m == 6 || m == 9 || m == 11 then 30
    else 31
  }

  function DaysInYear(y: int): int {
    if IsLeapYear(y) then 366 else 365
  }

  predicate ValidDate(d: Date) {
    && MinYear <= d.year <= MaxYear
    && 1 <= d.month <= 12
    && 1 <= d.day <= DaysInMonth(d.year, d.month)
  }

  /** Strict chronological order: year, then month, then day. */
  predicate Before(a: Date, b: Date) {
    || a.year < b.year
    || (a.year == b.year && a.month < b.month)
    || (a.year == b.year && a.month == b.month && a.day < b.day)
  }

  // ---------------------------------------------------------------------
  // Day numbers: the ordinal of a date, day 1 being 0001-01-01.

  function DaysBeforeYear(y: int): int {
    var p := y - 1;
    p * 365 + p / 4 - p / 100 + p / 400
  }

  function DaysBeforeMonth(y: int, m: int): int
    requires 1 <= m <= 12
  {
    var common :=
      if m == 1 then 0 else if m == 2 then 31 else if m == 3 then 59
      else if m == 4 then 90 else if m == 5 then 120 else if m == 6 then 151
      else if m == 7 then 181 else if m == 8 then 212 else if m == 9 then 243
      else if m == 10 then 273 else if m == 11 then 304 else 334;
    common + (if m > 2 && IsLeapYear(y) then 1 else 0)
  }

  function DayNumber(d: Date): int
    requires ValidDate(d)
  {
    DaysBeforeYear(d.year) + DaysBeforeMonth(d.year, d.month) + d.day
  }

  lemma DaysBeforeYearStep(y: int)
    requires y >= 1
    ensures DaysBeforeYear(y + 1) == DaysBeforeYear(y) + DaysInYear(y)
  {
    var p := y - 1;
    assert y / 4 == p / 4 + (if y % 4 == 0 then 1 else 0);
    assert y / 100 == p / 100 + (if y % 100 == 0 then 1 else 0);
    assert y / 400 == p / 400 + (if y % 400 == 0 then 1 else 0);
  }

  lemma {:induction false} DaysBeforeYearGrows(y1: int, y2: int)
    requires 1 <= y1 < y2
    ensures DaysBeforeYear(y1) + DaysInYear(y1) <= DaysBeforeYear(y2)
    decreases y2 - y1
  {
    DaysBeforeYearStep(y2 - 1);
    if y1 < y2 - 1 {
      DaysBeforeYearGrows(y1, y2 - 1);
    }
  }

  lemma MonthStep(y: int, m: int)
    requires 1 <= m < 12
    ensures DaysBeforeMonth(y, m + 1) == DaysBeforeMonth(y, m) + DaysInMonth(y, m)
  {
  }

  lemma DaysBeforeMonthGrows(y: int, m1: int, m2: int)
    requires 1 <= m1 < m2 <= 12
    ensures DaysBeforeMonth(y, m1) + DaysInMonth(y, m1) <= DaysBeforeMonth(y, m2)
  {
  }

  lemma DayOfYearBound(d: Date)
    requires ValidDate(d)
    ensures DaysBeforeMonth(d.year, d.month) + d.day <= DaysInYear(d.year)
  {
  }

  /** Chronological order is the order of day numbers. */
  lemma BeforeIffSmallerDayNumber(a: Date, b: Date)
    requires ValidDate(a) && ValidDate(b)
    ensures Before(a, b) <==> DayNumber(a) < DayNumber(b)
    ensures a == b <==> DayNumber(a) == DayNumber(b)
  {
    if a.year < b.year {
      DayOfYearBound(a);
      DaysBeforeYearGrows(a.year, b.year);
    } else if b.year < a.year {
      DayOfYearBound(b);
      DaysBeforeYearGrows(b.year, a.year);
    } else if a.month < b.month {
      DaysBeforeMonthGrows(a.year, a.month, b.month);
    } else if b.month < a.month {
      DaysBeforeMonthGrows(b.year, b.month, a.month);
    }
  }

  // ---------------------------------------------------------------------
  // The next calendar day.

  /** `date + timedelta(days=1)`; `None` stands for the `OverflowError`
      raised on the last representable date. */
  function AddOneDay(d: Date): (r: Option<Date>)
    requires ValidDate(d)
    ensures r.None? <==> d == LastDate
    ensures r.Some? ==> ValidDate(r.value) && Before(d, r.value)
  {
    if d.day < DaysInMonth(d.year, d.month) then Some(Date(d.year, d.month, d.day + 1))
    else if d.month < 12 then Some(Date(d.year, d.month + 1, 1))
    else if d.year < MaxYear then Some(Date(d.year + 1, 1, 1))
    else None
  }

  /** The day after `d` is exactly one day number later. */
  lemma NextDayNumber(d: Date)
    requires ValidDate(d) && d != LastDate
    ensures DayNumber(AddOneDay(d).value) == DayNumber(d) + 1
  {
    if d.day < DaysInMonth(d.year, d.month) {
    } else if d.month < 12 {
      MonthStep(d.year, d.month);
    } else {
      DaysBeforeYearStep(d.year);
    }
  }

  /** No valid date lies strictly between a date and the next one. */
  lemma NothingBetweenNextDay(d: Date, x: Date)
    requires ValidDate(d) && d != LastDate && ValidDate(x)
    ensures Before(d, x) <==> !Before(x, AddOneDay(d).value)
  {
    var n := AddOneDay(d).value;
    NextDayNumber(d);
    BeforeIffSmallerDayNumber(d, x);
    BeforeIffSmallerDayNumber(x, n);
  }

  // ---------------------------------------------------------------------
  // Text form YYYY-MM-DD.

  function Pad2(n: int): (s: string)
    requires 0 <= n < 100
    ensures |s| == 2 && AllDigits(s)
  {
    [DigitChar(n / 10), DigitChar(n % 10)]
  }

  function Pad4(n: int): (s: string)
    requires 0 <= n < 10000
    ensures |s| == 4 && AllDigits(s)
  {
    Pad2(n / 100) + Pad2(n % 100)
  }

  /** `strftime('%Y-%m-%d')`, zero padded. */
  function Format(d: Date): (s: string)
    requires ValidDate(d)
  {
    Pad4(d.year) + "-" + Pad2(d.month) + "-" + Pad2(d.day)
  }

  predicate HasDateShape(s: string) {
    && |s| == 10 && s[4] == '-' && s[7] == '-'
    && AllDigits(s[0..4]) && AllDigits(s[5..7]) && AllDigits(s[8..10])
  }

  /** `strptime(s, '%Y-%m-%d')`: four digits, two digits and two digits
      separated by dashes, naming a valid date. */
  function ParseDate(s: string): (r: Option<Date>)
    ensures r.Some? ==> ValidDate(r.value)
  {
    if HasDateShape(s) then
      var d := Date(DigitsValue(s[0..4]), DigitsValue(s[5..7]), DigitsValue(s[8..10]));
      if ValidDate(d) then Some(d) else None
    else
      None
  }

  lemma Digits2(t: string)
    requires |t| == 2 && AllDigits(t)
    ensures DigitsValue(t) == DigitValue(t[0]) * 10 + DigitValue(t[1])
  {
    var head := t[..1];
    assert head[..0] == [] && head[0] == t[0];
    assert DigitsValue(head) == DigitValue(t[0]);
  }

  lemma Digits4(t: string)
    requires |t| == 4 && AllDigits(t)
    ensures DigitsValue(t) == DigitsValue(t[..2]) * 100 + DigitsValue(t[2..])
  {
    assert t[..3][..2] == t[..2];
    Digits2(t[..2]);
    Digits2(t[2..]);
  }

  lemma Pad2Value(n: int)
    requires 0 <= n < 100
    ensures DigitsValue(Pad2(n)) == n
  {
    Digits2(Pad2(n));
  }

  lemma Pad4Value(n: int)
    requires 0 <= n < 10000
    ensures DigitsValue(Pad4(n)) == n
  {
    var s := Pad4(n);
    Digits4(s);
    assert s[..2] == Pad2(n / 100) && s[2..] == Pad2(n % 100);
    Pad2Value(n / 100);
    Pad2Value(n % 100);
  }

  lemma Pad2OfValue(t: string)
    requires |t| == 2 && AllDigits(t)
    ensures DigitsValue(t) < 100 && Pad2(DigitsValue(t)) == t
  {
    Digits2(t);
    DigitCharOfValue(t[0]);
    DigitCharOfValue(t[1]);
  }

  lemma Pad4OfValue(t: string)
    requires |t| == 4 && AllDigits(t)
    ensures DigitsValue(t) < 10000 && Pad4(DigitsValue(t)) == t
  {
    Digits4(t);
    Pad2OfValue(t[..2]);
    Pad2OfValue(t[2..]);
    var v := DigitsValue(t);
    assert v / 100 == DigitsValue(t[..2]) && v % 100 == DigitsValue(t[2..]);
    assert t == t[..2] + t[2..];
  }

  /** Formatting a date and parsing it back gives the same date. */
  lemma {:induction false} ParseFormat(d: Date)
    requires ValidDate(d)
    ensures ParseDate(Format(d)) == Some(d)
  {
    var s := Format(d);
    assert s[0..4] == Pad4(d.year);
    assert s[5..7] == Pad2(d.month);
    assert s[8..10] == Pad2(d.day);
    Pad4Value(d.year);
    Pad2Value(d.month);
    Pad2Value(d.day);
  }

  /** A string that parses is the formatted form of its date: the accepted
      strings and the valid dates correspond one to one. */
  lemma {:induction false} FormatParse(s: string)
    requires ParseDate(s).Some?
    ensures Format(ParseDate(s).value) == s
  {
    Pad4OfValue(s[0..4]);
    Pad2OfValue(s[5..7]);
    Pad2OfValue(s[8..10]);
    assert s == s[0..4] + "-" + s[5..7] + "-" + s[8..10];
  }

  // ---------------------------------------------------------------------
  // Timestamps: a date and the microseconds elapsed since its midnight.

  const MicrosPerDay := 86_400_000_000

  datatype Timestamp = Timestamp(date: Date, micros: int)

  predicate ValidTimestamp(t: Timestamp) {
    ValidDate(t.date) && 0 <= t.micros < MicrosPerDay
  }

  /** The timestamp a bare `YYYY-MM-DD` bound stands for: that day at 00:00. */
  function StartOfDay(d: Date): Timestamp {
    Timestamp(d, 0)
  }

  predicate NotAfter(a: Timestamp, b: Timestamp) {
    Before(a.date, b.date) || (a.date == b.date && a.micros <= b.micros)
  }

  /** SQL `t BETWEEN lo AND hi`: both bounds inclusive. */
  predicate Between(t: Timestamp, lo: Timestamp, hi: Timestamp) {
    NotAfter(lo, t) && NotAfter(t, hi)
  }
}
