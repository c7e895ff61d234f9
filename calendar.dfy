/** Calendar dates of the proleptic Gregorian calendar, as JavaScript's Date
    handles them: a date-only value is midnight UTC of that day, two such
    values are a whole number of days apart, and toISOString() renders them
    as "YYYY-MM-DDT00:00:00.000Z" for the years 0 to 9999. */
module Calendar {
  import opened Outcomes
  import opened Text

  datatype CalendarDate = CalendarDate(year: int, month: int, day: int)

  predicate IsLeapYear(y: int) {
    y % 4 == 0 && (y % 100 != 0 || y % 400 == 0)
  }

  function DaysInYear(y: int): int {
    if IsLeapYear(y) then 366 else 365
  }

  function DaysInMonth(y: int, m: int): (n: int)
    requires 1 <= m <= 12
    ensures 28 <= n <= 31
  {
    if m == 2 then (if IsLeapYear(y) then 29 else 28)
    else if m == 4 || m == 6 || m == 9 || m == 11 then 30
    else 31
  }

  /** Days of year y that come before the first of month m (m == 13: the whole year). */
  function DaysBeforeMonth(y: int, m: int): int
    requires 1 <= m <= 13
  {
    if m == 1 then 0 else DaysBeforeMonth(y, m - 1) + DaysInMonth(y, m - 1)
  }

  /** A date toISOString() writes with a four-digit year. */
  predicate ValidDate(d: CalendarDate) {
    0 <= d.year <= 9999 && 1 <= d.month <= 12 && 1 <= d.day <= DaysInMonth(d.year, d.month)
  }

  type Date = d: CalendarDate | ValidDate(d) witness CalendarDate(1970, 1, 1)

  /** Days from 0000-01-01 to the first of January of year y. */
  function DaysBeforeYear(y: nat): nat {
    if y == 0 then 0 else DaysBeforeYear(y - 1) + DaysInYear(y - 1)
  }

  /** The day number of a date: days elapsed since 0000-01-01. */
  function Ordinal(d: Date): int {
    DaysBeforeYear(d.year) + DaysBeforeMonth(d.year, d.month) + d.day - 1
  }

  /** The `days` of the booking rule: (end - start) in milliseconds divided by
      the milliseconds of one day, which is whole for two UTC midnights. */
  function DaysBetween(start: Date, end: Date): int {
    Ordinal(end) - Ordinal(start)
  }

  /** Calendar order: earlier year, or same year and earlier month, or same month and earlier day. */
  predicate Before(a: Date, b: Date) {
    a.year < b.year
    || (a.year == b.year && a.month < b.month)
    || (a.year == b.year && a.month == b.month && a.day < b.day)
  }

  const LastDate: Date := CalendarDate(9999, 12, 31)

  /** The calendar successor of a date, by the calendar's own rules. */
  function NextDay(d: Date): (n: Date)
    requires d != LastDate
    ensures Before(d, n)
  {
    if d.day < DaysInMonth(d.year, d.month) then CalendarDate(d.year, d.month, d.day + 1)
    else if d.month < 12 then CalendarDate(d.year, d.month + 1, 1)
    else CalendarDate(d.year + 1, 1, 1)
  }

  lemma DaysBeforeMonthYear(y: int)
    ensures DaysBeforeMonth(y, 13) == DaysInYear(y)
  {
    var feb := DaysInMonth(y, 2);
    assert DaysBeforeMonth(y, 2) == 31;
    assert DaysBeforeMonth(y, 3) == 31 + feb;
    assert DaysBeforeMonth(y, 4) == 62 + feb;
    assert DaysBeforeMonth(y, 5) == 92 + feb;
    assert DaysBeforeMonth(y, 6) == 123 + feb;
    assert DaysBeforeMonth(y, 7) == 153 + feb;
    assert DaysBeforeMonth(y, 8) == 184 + feb;
    assert DaysBeforeMonth(y, 9) == 215 + feb;
    assert DaysBeforeMonth(y, 10) == 245 + feb;
    assert DaysBeforeMonth(y, 11) == 276 + feb;
    assert DaysBeforeMonth(y, 12) == 306 + feb;
  }

  /** A date's offset inside its year is less than the length of the year. */
  lemma DayOfYearBounds(d: Date)
    ensures 0 <= DaysBeforeMonth(d.year, d.month) + d.day - 1 < DaysInYear(d.year)
  {
    DaysBeforeMonthStrict(d.year, d.month, 13);
    DaysBeforeMonthYear(d.year);
    DaysBeforeMonthNonNegative(d.year, d.month);
  }

  lemma {:induction false} DaysBeforeMonthNonNegative(y: int, m: int)
    requires 1 <= m <= 13
    ensures DaysBeforeMonth(y, m) >= 0
  {
    if m > 1 {
      DaysBeforeMonthNonNegative(y, m - 1);
    }
  }

  lemma {:induction false} DaysBeforeMonthStrict(y: int, m1: int, m2: int)
    requires 1 <= m1 < m2 <= 13
    ensures DaysBeforeMonth(y, m1) + DaysInMonth(y, m1) <= DaysBeforeMonth(y, m2)
  {
    if m2 > m1 + 1 {
      DaysBeforeMonthStrict(y, m1, m2 - 1);
    }
  }

  lemma {:induction false} DaysBeforeYearStrict(y1: nat, y2: nat)
    requires y1 < y2
    ensures DaysBeforeYear(y1) + DaysInYear(y1) <= DaysBeforeYear(y2)
  {
    if y2 > y1 + 1 {
      DaysBeforeYearStrict(y1, y2 - 1);
    }
  }

  /** Day numbers follow the calendar order. */
  lemma OrdinalMonotone(a: Date, b: Date)
    requires Before(a, b)
    ensures Ordinal(a) < Ordinal(b)
  {
    DayOfYearBounds(a);
    DayOfYearBounds(b);
    if a.year < b.year {
      DaysBeforeYearStrict(a.year, b.year);
    } else if a.month < b.month {
      DaysBeforeMonthStrict(a.year, a.month, b.month);
    }
  }

  /** Successive calendar days have successive day numbers, so DaysBetween
      counts calendar days. */
  lemma NextDayOrdinal(d: Date)
    requires d != LastDate
    ensures Ordinal(NextDay(d)) == Ordinal(d) + 1
  {
    var y, m := d.year, d.month;
    if d.day < DaysInMonth(y, m) {
      assert NextDay(d) == CalendarDate(y, m, d.day + 1);
    } else if m < 12 {
      assert NextDay(d) == CalendarDate(y, m + 1, 1);
      assert DaysBeforeMonth(y, m + 1) == DaysBeforeMonth(y, m) + DaysInMonth(y, m);
    } else {
      assert NextDay(d) == CalendarDate(y + 1, 1, 1);
      DaysBeforeMonthYear(y);
      assert DaysBeforeMonth(y, 13) == DaysBeforeMonth(y, 12) + 31;
      assert DaysBeforeYear(y + 1) == DaysBeforeYear(y) + DaysInYear(y);
    }
  }

  /** The sign of the day span is the calendar order of its two ends. */
  lemma DaysBetweenSign(start: Date, end: Date)
    ensures DaysBetween(start, end) > 0 <==> Before(start, end)
    ensures DaysBetween(start, end) == 0 <==> start == end
    ensures DaysBetween(start, end) < 0 <==> Before(end, start)
  {
    if Before(start, end) {
      OrdinalMonotone(start, end);
    } else if Before(end, start) {
      OrdinalMonotone(end, start);
    }
  }

  /** "YYYY-MM-DD", the calendar-date part of an ISO 8601 timestamp. */
  function FormatDate(d: Date): (s: string)
    ensures |s| == 10 && s[4] == '-' && s[7] == '-'
    ensures AllDigits(s[..4]) && AllDigits(s[5..7]) && AllDigits(s[8..])
  {
    Pad4(d.year) + "-" + Pad2(d.month) + "-" + Pad2(d.day)
  }

  function Pad2(n: int): (s: string)
    requires 0 <= n <= 99
    ensures |s| == 2 && AllDigits(s)
  {
    [DigitChar(n / 10), DigitChar(n % 10)]
  }

  function Pad4(n: int): (s: string)
    requires 0 <= n <= 9999
    ensures |s| == 4 && AllDigits(s)
  {
    Pad2(n / 100) + Pad2(n % 100)
  }

  /** Reads a "YYYY-MM-DD" string back into a date; None for anything else. */
  function ParseDate(s: string): (r: Option<Date>)
    ensures r.Some? ==> |s| == 10
  {
    if |s| == 10 && s[4] == '-' && s[7] == '-'
       && AllDigits(s[..4]) && AllDigits(s[5..7]) && AllDigits(s[8..])
    then
      var d := CalendarDate(DigitsValue(s[..4]), DigitsValue(s[5..7]), DigitsValue(s[8..]));
      if ValidDate(d) then Some(d) else None
    else None
  }

  lemma DivMod10(q: int, r: int)
    requires 0 <= r < 10
    ensures (q * 10 + r) / 10 == q && (q * 10 + r) % 10 == r
  {
  }

  lemma DivMod100(q: int, r: int)
    requires 0 <= r < 100
    ensures (q * 100 + r) / 100 == q && (q * 100 + r) % 100 == r
  {
  }

  lemma Pad2Value(n: int)
    requires 0 <= n <= 99
    ensures DigitsValue(Pad2(n)) == n
  {
    var s := Pad2(n);
    assert s == [] + [s[0]] + [s[1]];
    DigitsValueSnoc([], s[0]);
    DigitsValueSnoc([s[0]], s[1]);
    assert [] + [s[0]] == [s[0]];
  }

  lemma Pad4Value(n: int)
    requires 0 <= n <= 9999
    ensures DigitsValue(Pad4(n)) == n
  {
    Pad2Value(n / 100);
    Pad2Value(n % 100);
    DigitsValuePair(Pad2(n / 100), Pad2(n % 100));
  }

  lemma Pad2OfValue(s: string)
    requires |s| == 2 && AllDigits(s)
    ensures DigitsValue(s) <= 99 && Pad2(DigitsValue(s)) == s
  {
    DigitsValuePair([], s);
    assert [] + s == s;
    var d0, d1 := DigitValue(s[0]), DigitValue(s[1]);
    assert s == [] + [s[0]] + [s[1]];
    DigitsValueSnoc([], s[0]);
    DigitsValueSnoc([s[0]], s[1]);
    assert [] + [s[0]] == [s[0]];
    DivMod10(d0, d1);
    assert DigitChar(d0) == s[0] && DigitChar(d1) == s[1];
  }

  lemma Pad4OfValue(s: string)
    requires |s| == 4 && AllDigits(s)
    ensures DigitsValue(s) <= 9999 && Pad4(DigitsValue(s)) == s
  {
    var hi, lo := s[..2], s[2..];
    assert hi + lo == s;
    Pad2OfValue(hi);
    Pad2OfValue(lo);
    DigitsValuePair(hi, lo);
    DivMod100(DigitsValue(hi), DigitsValue(lo));
  }

  /** Formatting loses nothing: the string reads back as the same date. */
  lemma ParseFormatDate(d: Date)
    ensures ParseDate(FormatDate(d)) == Some(d)
  {
    var s := FormatDate(d);
    assert s[..4] == Pad4(d.year);
    assert s[5..7] == Pad2(d.month);
    assert s[8..] == Pad2(d.day);
    Pad4Value(d.year);
    Pad2Value(d.month);
    Pad2Value(d.day);
  }

  /** The format is canonical: a string that reads as a date is that date's format. */
  lemma FormatParseDate(s: string, d: Date)
    requires ParseDate(s) == Some(d)
    ensures FormatDate(d) == s
  {
    Pad4OfValue(s[..4]);
    Pad2OfValue(s[5..7]);
    Pad2OfValue(s[8..]);
    assert s == s[..4] + "-" + s[5..7] + "-" + s[8..];
  }

  /** Date.prototype.toISOString() of a UTC midnight. */
  function IsoTimestamp(d: Date): (s: string)
    ensures |s| == 24
  {
    FormatDate(d) + "T00:00:00.000Z"
  }

  /** String.prototype.slice(0, n) for n >= 0. */
  function SliceTo(s: string, n: nat): (r: string)
    ensures |r| == if n <= |s| then n else |s|
    ensures r <= s
  {
    if n <= |s| then s[..n] else s
  }

  /** Cutting an ISO timestamp to 10 characters leaves exactly the calendar
      date, with no time-of-day part, and it reads back as the same date. */
  lemma IsoDatePart(d: Date)
    ensures SliceTo(IsoTimestamp(d), 10) == FormatDate(d)
    ensures ParseDate(SliceTo(IsoTimestamp(d), 10)) == Some(d)
  {
    ParseFormatDate(d);
  }
}
