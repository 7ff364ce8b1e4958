/**
 * Calendar dates as the due-soon check uses them: `datetime.strptime(s,
 * "%m/%d/%Y").date()` to read a due date, and `(due - today).days` to count
 * the days left. Dates are proleptic Gregorian, years 1 to 9999, and a date
 * is turned into its day number (`date.toordinal()`) so that the days left
 * are a plain integer difference.
 */
module Dates {
  import opened Optional

  datatype Date = Date(year: int, month: int, day: int)

  predicate IsLeapYear(y: int) {
    y % 4 == 0 && (y % 100 != 0 || y % 400 == 0)
  }

  function DaysInYear(y: int): int {
    if IsLeapYear(y) then 366 else 365
  }

  function DaysInMonth(y: int, m: int): int
    requires 1 <= m <= 12
  {
    if m == 2 then (if IsLeapYear(y) then 29 else 28)
    else if m == 4 || m == 6 || m == 9 || m == 11 then 30
    else 31
  }

  /** The dates `datetime.date` accepts. */
  predicate ValidDate(d: Date) {
    1 <= d.year <= 9999 && 1 <= d.month <= 12 && 1 <= d.day <= DaysInMonth(d.year, d.month)
  }

  type CalendarDate = d: Date | ValidDate(d) witness Date(1, 1, 1)

  /** Days in the years before `y`, counting from 1 January of year 1. */
  function DaysBeforeYear(y: int): int
    requires y >= 1
  {
    var z := y - 1;
    z * 365 + z / 4 - z / 100 + z / 400
  }

  /** Days in the months of year `y` before month `m` (`m == 13` gives the whole year). */
  function DaysBeforeMonth(y: int, m: int): int
    requires 1 <= m <= 13
  {
    [0, 31, 59, 90, 120, 151, 181, 212, 243, 273, 304, 334, 365][m - 1] +
    (if m > 2 && IsLeapYear(y) then 1 else 0)
  }

  /** `date.toordinal()`: 1 January of year 1 is day 1. */
  function Ordinal(d: Date): int
    requires d.year >= 1 && 1 <= d.month <= 12
  {
    DaysBeforeYear(d.year) + DaysBeforeMonth(d.year, d.month) + d.day
  }

  /** `(to - from).days`. */
  function DaysBetween(from: CalendarDate, to: CalendarDate): int {
    Ordinal(to) - Ordinal(from)
  }

  /** The calendar day after `d`. */
  function NextDay(d: Date): Date
    requires ValidDate(d)
  {
    if d.day < DaysInMonth(d.year, d.month) then Date(d.year, d.month, d.day + 1)
    else if d.month < 12 then Date(d.year, d.month + 1, 1)
    else Date(d.year + 1, 1, 1)
  }

  /** `d` comes strictly before `e` in the calendar. */
  predicate Earlier(d: Date, e: Date) {
    d.year < e.year ||
    (d.year == e.year && (d.month < e.month || (d.month == e.month && d.day < e.day)))
  }

  lemma DaysBeforeYearStep(y: int)
    requires y >= 1
    ensures DaysBeforeYear(y + 1) == DaysBeforeYear(y) + DaysInYear(y)
  {
    var z := y - 1;
    assert (z + 1) / 4 - z / 4 == if y % 4 == 0 then 1 else 0;
    assert (z + 1) / 100 - z / 100 == if y % 100 == 0 then 1 else 0;
    assert (z + 1) / 400 - z / 400 == if y % 400 == 0 then 1 else 0;
  }

  lemma DaysBeforeMonthStep(y: int, m: int)
    requires 1 <= m <= 12
    ensures DaysBeforeMonth(y, m + 1) == DaysBeforeMonth(y, m) + DaysInMonth(y, m)
  {
  }

  /** Each day of the calendar is numbered one more than the day before it. */
  lemma OrdinalNextDay(d: CalendarDate)
    requires d.year < 9999 || d.month < 12 || d.day < 31
    ensures ValidDate(NextDay(d))
    ensures Ordinal(NextDay(d)) == Ordinal(d) + 1
  {
    if d.day < DaysInMonth(d.year, d.month) {
    } else if d.month < 12 {
      DaysBeforeMonthStep(d.year, d.month);
    } else {
      DaysBeforeYearStep(d.year);
    }
  }

  /** Every earlier year ends before a later year begins. */
  lemma {:induction false} YearsAreOrdered(y1: int, y2: int)
    requires 1 <= y1 < y2
    ensures DaysBeforeYear(y1) + DaysInYear(y1) <= DaysBeforeYear(y2)
    decreases y2 - y1
  {
    DaysBeforeYearStep(y1);
    if y1 + 1 < y2 {
      YearsAreOrdered(y1 + 1, y2);
    }
  }

  /** Every earlier month of a year ends before a later month begins. */
  lemma {:induction false} MonthsAreOrdered(y: int, m1: int, m2: int)
    requires 1 <= m1 < m2 <= 13
    ensures DaysBeforeMonth(y, m1) + DaysInMonth(y, m1) <= DaysBeforeMonth(y, m2)
    decreases m2 - m1
  {
    DaysBeforeMonthStep(y, m1);
    if m1 + 1 < m2 {
      MonthsAreOrdered(y, m1 + 1, m2);
    }
  }

  /** A valid date falls inside its own year. */
  lemma DayOfYearBounds(d: CalendarDate)
    ensures 1 <= DaysBeforeMonth(d.year, d.month) + d.day <= DaysInYear(d.year)
  {
    if d.month < 12 {
      MonthsAreOrdered(d.year, d.month, 13);
    }
  }

  /** Day numbers follow the calendar order, so distinct dates get distinct numbers. */
  lemma OrdinalOrdered(d: CalendarDate, e: CalendarDate)
    requires Earlier(d, e)
    ensures Ordinal(d) < Ordinal(e)
  {
    DayOfYearBounds(d);
    DayOfYearBounds(e);
    if d.year < e.year {
      YearsAreOrdered(d.year, e.year);
    } else if d.month < e.month {
      MonthsAreOrdered(d.year, d.month, e.month);
    }
  }

  /** No days are left exactly when the due date is today; later dates leave a positive count. */
  lemma DaysBetweenSign(today: CalendarDate, due: CalendarDate)
    ensures DaysBetween(today, due) == 0 <==> due == today
    ensures DaysBetween(today, due) > 0 <==> Earlier(today, due)
  {
    if Earlier(today, due) {
      OrdinalOrdered(today, due);
    } else if Earlier(due, today) {
      OrdinalOrdered(due, today);
    }
  }

  // ----- Parsing `%m/%d/%Y` -----

  predicate IsDigit(c: char) {
    '0' <= c <= '9'
  }

  function DigitValue(c: char): int
    requires IsDigit(c)
  {
    c as int - '0' as int
  }

  function DigitChar(n: int): char
    requires 0 <= n <= 9
  {
    ('0' as int + n) as char
  }

  /** The index of the first `/` in `s`, or `|s|` when there is none. */
  function FirstSlash(s: string): (k: nat)
    ensures k <= |s|
    ensures k < |s| ==> s[k] == '/'
    ensures forall j :: 0 <= j < k ==> s[j] != '/'
  {
    if s == [] || s[0] == '/' then 0 else 1 + FirstSlash(s[1..])
  }

  /** The `%m` directive: `1[0-2]`, `0[1-9]` or `[1-9]`. */
  function MonthField(f: string): (r: Option<int>)
    ensures r.Some? ==> 1 <= r.value <= 12
  {
    if |f| == 1 && '1' <= f[0] <= '9' then Some(DigitValue(f[0]))
    else if |f| == 2 && ((f[0] == '1' && '0' <= f[1] <= '2') || (f[0] == '0' && '1' <= f[1] <= '9'))
    then Some(10 * DigitValue(f[0]) + DigitValue(f[1]))
    else None
  }

  /** The `%d` directive: `3[01]`, `[12][0-9]`, `0[1-9]`, `[1-9]` or a space and `[1-9]`. */
  function DayField(f: string): (r: Option<int>)
    ensures r.Some? ==> 1 <= r.value <= 31
  {
    if |f| == 1 && '1' <= f[0] <= '9' then Some(DigitValue(f[0]))
    else if |f| == 2 && f[0] == ' ' && '1' <= f[1] <= '9' then Some(DigitValue(f[1]))
    else if |f| == 2 && ((f[0] == '3' && '0' <= f[1] <= '1') || ('1' <= f[0] <= '2' && IsDigit(f[1])) ||
                         (f[0] == '0' && '1' <= f[1] <= '9'))
    then Some(10 * DigitValue(f[0]) + DigitValue(f[1]))
    else None
  }

  /** The `%Y` directive: exactly four digits. */
  function YearField(f: string): (r: Option<int>)
    ensures r.Some? ==> 0 <= r.value <= 9999
  {
    if |f| == 4 && IsDigit(f[0]) && IsDigit(f[1]) && IsDigit(f[2]) && IsDigit(f[3])
    then Some(1000 * DigitValue(f[0]) + 100 * DigitValue(f[1]) + 10 * DigitValue(f[2]) + DigitValue(f[3]))
    else None
  }

  /**
   * `datetime.strptime(s, "%m/%d/%Y").date()`, with `None` where it raises.
   * None of the three directives matches a `/`, so the match must split `s`
   * at its first two slashes; the year must run to the end of the string
   * (otherwise "unconverted data remains"), and the date must exist
   * (year 0 and 31 April are refused).
   */
  function ParseDate(s: string): (r: Option<CalendarDate>)
  {
    var i := FirstSlash(s);
    if i == |s| then None
    else
      var rest := s[i + 1..];
      var j := FirstSlash(rest);
      if j == |rest| then None
      else
        match (MonthField(s[..i]), DayField(rest[..j]), YearField(rest[j + 1..]))
        case (Some(m), Some(d), Some(y)) =>
          if 1 <= y && d <= DaysInMonth(y, m) then Some(Date(y, m, d)) else None
        case _ => None
  }

  function TwoDigits(n: int): (r: string)
    requires 0 <= n <= 99
    ensures |r| == 2 && IsDigit(r[0]) && IsDigit(r[1])
  {
    [DigitChar(n / 10), DigitChar(n % 10)]
  }

  function FourDigits(n: int): (r: string)
    requires 0 <= n <= 9999
    ensures |r| == 4
  {
    [DigitChar(n / 10 / 10 / 10), DigitChar(n / 10 / 10 % 10), DigitChar(n / 10 % 10), DigitChar(n % 10)]
  }

  /** The zero-padded `MM/DD/YYYY` spelling of a date (`date.strftime("%m/%d/%Y")`). */
  function FormatDate(d: CalendarDate): string {
    TwoDigits(d.month) + "/" + TwoDigits(d.day) + "/" + FourDigits(d.year)
  }

  lemma MonthFieldPadded(m: int)
    requires 1 <= m <= 12
    ensures MonthField(TwoDigits(m)) == Some(m)
  {
  }

  lemma DayFieldPadded(d: int)
    requires 1 <= d <= 31
    ensures DayField(TwoDigits(d)) == Some(d)
  {
  }

  lemma DigitRoundTrip(n: int)
    requires 0 <= n <= 9
    ensures IsDigit(DigitChar(n)) && DigitValue(DigitChar(n)) == n
  {
  }

  lemma YearFieldPadded(y: int)
    requires 0 <= y <= 9999
    ensures YearField(FourDigits(y)) == Some(y)
  {
    var q1 := y / 10;
    var q2 := q1 / 10;
    var a, b, c, e := q2 / 10, q2 % 10, q1 % 10, y % 10;
    assert y == 10 * q1 + e && q1 == 10 * q2 + c && q2 == 10 * a + b && a <= 9;
    DigitRoundTrip(a);
    DigitRoundTrip(b);
    DigitRoundTrip(c);
    DigitRoundTrip(e);
    assert FourDigits(y) == [DigitChar(a), DigitChar(b), DigitChar(c), DigitChar(e)];
  }

  /** A text before which no `/` occurs has its first `/` right after it. */
  lemma {:induction false} FirstSlashAfter(a: string, b: string)
    requires forall j :: 0 <= j < |a| ==> a[j] != '/'
    ensures FirstSlash(a + "/" + b) == |a|
    decreases |a|
  {
    if a != [] {
      assert (a + "/" + b)[1..] == a[1..] + "/" + b;
      FirstSlashAfter(a[1..], b);
    }
  }

  /**
   * A text of the form `mm/dd/rest`, with no `/` in the month and day
   * parts, is read field by field: `mm` as `%m`, `dd` as `%d` and all of
   * `rest` as `%Y`, and the date must then exist.
   */
  lemma ParseDateSplit(mm: string, dd: string, rest: string)
    requires forall j :: 0 <= j < |mm| ==> mm[j] != '/'
    requires forall j :: 0 <= j < |dd| ==> dd[j] != '/'
    ensures ParseDate(mm + "/" + dd + "/" + rest) ==
      match (MonthField(mm), DayField(dd), YearField(rest))
      case (Some(m), Some(d), Some(y)) => if 1 <= y && d <= DaysInMonth(y, m) then Some(Date(y, m, d)) else None
      case _ => None
  {
    var s := mm + "/" + dd + "/" + rest;
    assert s == mm + "/" + (dd + "/" + rest);
    FirstSlashAfter(mm, dd + "/" + rest);
    assert s[..|mm|] == mm && s[|mm| + 1..] == dd + "/" + rest;
    FirstSlashAfter(dd, rest);
    var tail := dd + "/" + rest;
    assert tail[..|dd|] == dd && tail[|dd| + 1..] == rest;
  }

  /** Every date written as `MM/DD/YYYY` reads back as itself. */
  lemma ParseFormatDate(d: CalendarDate)
    ensures ParseDate(FormatDate(d)) == Some(d)
  {
    var mm, dd, yyyy := TwoDigits(d.month), TwoDigits(d.day), FourDigits(d.year);
    ParseDateSplit(mm, dd, yyyy);
    MonthFieldPadded(d.month);
    DayFieldPadded(d.day);
    YearFieldPadded(d.year);
  }

  /** `%m` and `%d` also accept a single unpadded digit. */
  lemma ParseUnpadded(d: CalendarDate)
    requires d.month <= 9 && d.day <= 9
    ensures ParseDate([DigitChar(d.month)] + "/" + [DigitChar(d.day)] + "/" + FourDigits(d.year)) == Some(d)
  {
    ParseDateSplit([DigitChar(d.month)], [DigitChar(d.day)], FourDigits(d.year));
    YearFieldPadded(d.year);
  }

  /** A year that is not exactly four characters long, such as `24`, is refused. */
  lemma ParseRefusesShortYear(mm: string, dd: string, year: string)
    requires forall j :: 0 <= j < |mm| ==> mm[j] != '/'
    requires forall j :: 0 <= j < |dd| ==> dd[j] != '/'
    requires |year| != 4
    ensures ParseDate(mm + "/" + dd + "/" + year) == None
  {
    ParseDateSplit(mm, dd, year);
  }

  /** A day past the end of its month, such as 30 February, is refused although it fits `%d`. */
  lemma ParseRefusesMissingDay(y: int, m: int, d: int)
    requires 1 <= y <= 9999 && 1 <= m <= 12 && DaysInMonth(y, m) < d <= 31
    ensures ParseDate(TwoDigits(m) + "/" + TwoDigits(d) + "/" + FourDigits(y)) == None
  {
    ParseDateSplit(TwoDigits(m), TwoDigits(d), FourDigits(y));
    MonthFieldPadded(m);
    DayFieldPadded(d);
    YearFieldPadded(y);
  }
}
