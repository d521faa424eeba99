/** Calendar dates as Python's datetime.date sees them: the proleptic Gregorian
    calendar, years 1 to 9999, day ordinals, date + timedelta(days=n),
    date.replace(year=y), and the fixed text form DD.MM.YYYY. */
module Dates {
  import opened Outcomes
  import opened Text

  /** A triple (year, month, day); ValidDate singles out the ones datetime.date accepts. */
  datatype Date = Date(year: int, month: int, day: int)

  /** datetime.MINYEAR and datetime.MAXYEAR. */
  const MinYear := 1
  const MaxYear := 9999

  predicate IsLeap(y: int)
  {
    y % 4 == 0 && (y % 100 != 0 || y % 400 == 0)
  }

  /** The length of month m (1..12) of year y. */
  function DaysInMonth(y: int, m: int): int
  {
    if m == 2 then (if IsLeap(y) then 29 else 28)
    else if m == 4 || m == 6 || m == 9 || m == 11 then 30
    else 31
  }

  /** A day that exists in the calendar, with no bound on the year. */
  predicate InCalendar(d: Date)
  {
    1 <= d.month <= 12 && 1 <= d.day <= DaysInMonth(d.year, d.month)
  }

  /** A value datetime.date can hold. */
  predicate ValidDate(d: Date)
  {
    InCalendar(d) && MinYear <= d.year <= MaxYear
  }

  /** a < b for dates: lexicographic on (year, month, day). */
  predicate Before(a: Date, b: Date)
  {
    a.year < b.year ||
    (a.year == b.year && (a.month < b.month || (a.month == b.month && a.day < b.day)))
  }

  /** a <= b for dates. */
  predicate NotAfter(a: Date, b: Date)
  {
    !Before(b, a)
  }

  // ---------------------------------------------------------------------------
  // Day ordinals (date.toordinal(): 1 January of year 1 is day 1)

  function DaysBeforeYear(y: int): int
  {
    var q := y - 1;
    q * 365 + q / 4 - q / 100 + q / 400
  }

  function DaysBeforeMonth(y: int, m: int): int
  {
    var common :=
      if m <= 1 then 0 else if m == 2 then 31 else if m == 3 then 59
      else if m == 4 then 90 else if m == 5 then 120 else if m == 6 then 151
      else if m == 7 then 181 else if m == 8 then 212 else if m == 9 then 243
      else if m == 10 then 273 else if m == 11 then 304 else 334;
    common + (if m > 2 && IsLeap(y) then 1 else 0)
  }

  function Ordinal(d: Date): int
  {
    DaysBeforeYear(d.year) + DaysBeforeMonth(d.year, d.month) + d.day
  }

  /** A year has 366 days when it is a leap year and 365 otherwise. */
  lemma YearLength(y: int)
    ensures DaysBeforeYear(y + 1) == DaysBeforeYear(y) + (if IsLeap(y) then 366 else 365)
  {
    assert y / 4 - (y - 1) / 4 == (if y % 4 == 0 then 1 else 0);
    assert y / 100 - (y - 1) / 100 == (if y % 100 == 0 then 1 else 0);
    assert y / 400 - (y - 1) / 400 == (if y % 400 == 0 then 1 else 0);
  }

  /** Year y1 starts no later than year y2 when y1 <= y2, and a whole year lies between
      them when y1 < y2. */
  lemma {:induction false} YearsAscend(y1: int, y2: int)
    requires y1 <= y2
    ensures DaysBeforeYear(y1) + 365 * (y2 - y1) <= DaysBeforeYear(y2)
    decreases y2 - y1
  {
    if y1 < y2 {
      YearLength(y1);
      YearsAscend(y1 + 1, y2);
    }
  }

  /** The months of a year follow each other without gaps. */
  lemma MonthsAscend(y: int, m1: int, m2: int)
    requires 1 <= m1 < m2 <= 12
    ensures DaysBeforeMonth(y, m1) + DaysInMonth(y, m1) <= DaysBeforeMonth(y, m2)
    ensures m2 == m1 + 1 ==> DaysBeforeMonth(y, m1) + DaysInMonth(y, m1) == DaysBeforeMonth(y, m2)
  {
  }

  /** The ordinal orders calendar days exactly as the lexicographic order does. */
  lemma OrdinalOrder(a: Date, b: Date)
    requires InCalendar(a) && InCalendar(b)
    ensures Before(a, b) <==> Ordinal(a) < Ordinal(b)
    ensures a == b <==> Ordinal(a) == Ordinal(b)
  {
    if Before(a, b) {
      OrdinalBefore(a, b);
    } else if Before(b, a) {
      OrdinalBefore(b, a);
    }
  }

  lemma OrdinalBefore(a: Date, b: Date)
    requires InCalendar(a) && InCalendar(b) && Before(a, b)
    ensures Ordinal(a) < Ordinal(b)
  {
    if a.year < b.year {
      YearLength(a.year);
      YearsAscend(a.year + 1, b.year);
      if a.month < 12 {
        MonthsAscend(a.year, a.month, 12);
      }
    } else if a.month < b.month {
      MonthsAscend(a.year, a.month, b.month);
    }
  }

  // ---------------------------------------------------------------------------
  // date + timedelta(days=n)

  /** The calendar day after d. */
  function NextDay(d: Date): (r: Date)
    requires InCalendar(d)
    ensures InCalendar(r) && Before(d, r)
  {
    if d.day < DaysInMonth(d.year, d.month) then Date(d.year, d.month, d.day + 1)
    else if d.month < 12 then Date(d.year, d.month + 1, 1)
    else Date(d.year + 1, 1, 1)
  }

  /** The day after d is the next day number. */
  lemma NextDayOrdinal(d: Date)
    requires InCalendar(d)
    ensures Ordinal(NextDay(d)) == Ordinal(d) + 1
  {
    if d.day == DaysInMonth(d.year, d.month) {
      if d.month < 12 {
        MonthsAscend(d.year, d.month, d.month + 1);
      } else {
        YearLength(d.year);
      }
    }
  }

  /** The day n days after d, with no bound on the year. */
  function AddDays(d: Date, n: nat): (r: Date)
    requires InCalendar(d)
    ensures InCalendar(r) && NotAfter(d, r)
    decreases n
  {
    if n == 0 then d else AddDays(NextDay(d), n - 1)
  }

  /** Adding n days adds n to the day number, as date + timedelta does in datetime. */
  lemma {:induction false} AddDaysOrdinal(d: Date, n: nat)
    requires InCalendar(d)
    ensures Ordinal(AddDays(d, n)) == Ordinal(d) + n
    decreases n
  {
    if n > 0 {
      NextDayOrdinal(d);
      AddDaysOrdinal(NextDay(d), n - 1);
    }
  }

  /** The last day datetime.date can hold. */
  const LastDate := Date(MaxYear, 12, 31)

  /** date + timedelta(days=n): raises OverflowError past 31.12.9999. */
  function Plus(d: Date, n: nat): (r: Result<Date>)
    requires ValidDate(d)
    ensures r.Ok? ==> ValidDate(r.value) && NotAfter(d, r.value)
    ensures r.Err? ==> r.error == DateOverflow
  {
    var e := AddDays(d, n);
    if e.year <= MaxYear then Ok(e) else Err(DateOverflow)
  }

  /** date + timedelta(days=n) succeeds exactly when the day number d + n is not past
      that of 31.12.9999, and it then lands on that day number. */
  lemma PlusSpec(d: Date, n: nat)
    requires ValidDate(d)
    ensures Plus(d, n).Ok? <==> Ordinal(d) + n <= Ordinal(LastDate)
    ensures Plus(d, n).Ok? ==> Ordinal(Plus(d, n).value) == Ordinal(d) + n
  {
    AddDaysOrdinal(d, n);
    OrdinalOrder(AddDays(d, n), LastDate);
  }

  /** date.replace(year=y): the same month and day in year y. datetime checks the year
      range first and the day of the month second. */
  function ReplaceYear(d: Date, y: int): (r: Result<Date>)
    requires ValidDate(d)
    ensures r.Ok? ==> ValidDate(r.value) && r.value == Date(y, d.month, d.day)
  {
    if !(MinYear <= y <= MaxYear) then Err(YearOutOfRange)
    else if d.day > DaysInMonth(y, d.month) then Err(DayOutOfRange)
    else Ok(Date(y, d.month, d.day))
  }

  /** date.replace(year=y) raises exactly for a year outside 1..9999 and for
      29 February moved to a common year. */
  lemma ReplaceYearSpec(d: Date, y: int)
    requires ValidDate(d)
    ensures ReplaceYear(d, y).Ok? <==> MinYear <= y <= MaxYear && !(d.month == 2 && d.day == 29 && !IsLeap(y))
    ensures !(MinYear <= y <= MaxYear) ==> ReplaceYear(d, y) == Err(YearOutOfRange)
    ensures MinYear <= y <= MaxYear && ReplaceYear(d, y).Err? ==> ReplaceYear(d, y) == Err(DayOutOfRange)
  {
  }

  // ---------------------------------------------------------------------------
  // The text form DD.MM.YYYY (strptime / strftime with "%d.%m.%Y")

  function DigitValue(c: char): int
  {
    c as int - '0' as int
  }

  function DigitChar(n: int): (c: char)
    requires 0 <= n <= 9
    ensures IsDigit(c) && DigitValue(c) == n
  {
    ('0' as int + n) as char
  }

  /** Two decimal digits with a leading zero. */
  function Pad2(n: int): string
    requires 0 <= n <= 99
  {
    [DigitChar(n / 10), DigitChar(n % 10)]
  }

  /** Four decimal digits with leading zeros. */
  function Pad4(n: int): string
    requires 0 <= n <= 9999
  {
    [DigitChar(n / 1000), DigitChar(n / 100 % 10), DigitChar(n / 10 % 10), DigitChar(n % 10)]
  }

  /** s has the shape DD.MM.YYYY: ten characters, dots at positions 2 and 5, digits elsewhere. */
  predicate Shaped(s: string)
  {
    |s| == 10 && s[2] == '.' && s[5] == '.' &&
    forall k :: 0 <= k < 10 && k != 2 && k != 5 ==> IsDigit(s[k])
  }

  /** The numbers written in the three fields of a DD.MM.YYYY string. */
  function FieldDay(s: string): int
    requires Shaped(s)
  {
    10 * DigitValue(s[0]) + DigitValue(s[1])
  }

  function FieldMonth(s: string): int
    requires Shaped(s)
  {
    10 * DigitValue(s[3]) + DigitValue(s[4])
  }

  function FieldYear(s: string): int
    requires Shaped(s)
  {
    1000 * DigitValue(s[6]) + 100 * DigitValue(s[7]) + 10 * DigitValue(s[8]) + DigitValue(s[9])
  }

  /** datetime.strptime(s, "%d.%m.%Y").date(), restricted to the two-digit day and month
      form; None where strptime raises ValueError. */
  function ParseDate(s: string): (r: Option<Date>)
    ensures r.Some? ==> ValidDate(r.value)
  {
    if !Shaped(s) then None
    else
      var d := Date(FieldYear(s), FieldMonth(s), FieldDay(s));
      if ValidDate(d) then Some(d) else None
  }

  /** d.strftime("%d.%m.%Y"). */
  function RenderDate(d: Date): string
    requires ValidDate(d)
  {
    Pad2(d.day) + "." + Pad2(d.month) + "." + Pad4(d.year)
  }

  /** The ten characters of a rendered date. */
  lemma RenderChars(d: Date)
    requires ValidDate(d)
    ensures RenderDate(d) == [DigitChar(d.day / 10), DigitChar(d.day % 10), '.',
                              DigitChar(d.month / 10), DigitChar(d.month % 10), '.',
                              DigitChar(d.year / 1000), DigitChar(d.year / 100 % 10),
                              DigitChar(d.year / 10 % 10), DigitChar(d.year % 10)]
  {
  }

  /** Rendering a date and parsing the text gives the date back. */
  lemma RenderThenParse(d: Date)
    requires ValidDate(d)
    ensures ParseDate(RenderDate(d)) == Some(d)
  {
    var s := RenderDate(d);
    RenderChars(d);
    assert Shaped(s);
    assert FieldDay(s) == 10 * (d.day / 10) + d.day % 10 == d.day;
    assert FieldMonth(s) == 10 * (d.month / 10) + d.month % 10 == d.month;
    assert FieldYear(s) == 1000 * (d.year / 1000) + 100 * (d.year / 100 % 10) + 10 * (d.year / 10 % 10) + d.year % 10;
    YearDigits(d.year);
  }

  /** A number below 10000 is the sum of its four decimal digits' place values. */
  lemma YearDigits(y: int)
    requires 0 <= y <= 9999
    ensures 1000 * (y / 1000) + 100 * (y / 100 % 10) + 10 * (y / 10 % 10) + y % 10 == y
  {
  }

  /** Parsing a text and rendering the date gives the same text back. */
  lemma ParseThenRender(s: string)
    requires ParseDate(s).Some?
    ensures RenderDate(ParseDate(s).value) == s
  {
    var d := ParseDate(s).value;
    RenderChars(d);
    TwoDigits(s[0], s[1]);
    TwoDigits(s[3], s[4]);
    FourDigits(s[6], s[7], s[8], s[9]);
    assert RenderDate(d) == [s[0], s[1], s[2], s[3], s[4], s[5], s[6], s[7], s[8], s[9]];
  }

  /** A digit character is the character of its own value. */
  lemma DigitChars(a: char)
    requires IsDigit(a)
    ensures 0 <= DigitValue(a) <= 9 && DigitChar(DigitValue(a)) == a
  {
  }

  /** The digits of the number written as ab are a and b. */
  lemma TwoDigits(a: char, b: char)
    requires IsDigit(a) && IsDigit(b)
    ensures var n := 10 * DigitValue(a) + DigitValue(b);
            DigitChar(n / 10) == a && DigitChar(n % 10) == b
  {
    DigitChars(a);
    DigitChars(b);
  }

  /** The place values of a four-digit number are its digits. */
  lemma PlaceValues(w: int, x: int, y: int, z: int)
    requires 0 <= w <= 9 && 0 <= x <= 9 && 0 <= y <= 9 && 0 <= z <= 9
    ensures var n := 1000 * w + 100 * x + 10 * y + z;
            n / 1000 == w && n / 100 % 10 == x && n / 10 % 10 == y && n % 10 == z
  {
    var n := 1000 * w + 100 * x + 10 * y + z;
    assert n / 10 == 100 * w + 10 * x + y;
    assert n / 100 == 10 * w + x;
  }

  /** The digits of the number written as abce are a, b, c and e. */
  lemma FourDigits(a: char, b: char, c: char, e: char)
    requires IsDigit(a) && IsDigit(b) && IsDigit(c) && IsDigit(e)
    ensures var n := 1000 * DigitValue(a) + 100 * DigitValue(b) + 10 * DigitValue(c) + DigitValue(e);
            DigitChar(n / 1000) == a && DigitChar(n / 100 % 10) == b &&
            DigitChar(n / 10 % 10) == c && DigitChar(n % 10) == e
  {
    DigitChars(a);
    DigitChars(b);
    DigitChars(c);
    DigitChars(e);
    PlaceValues(DigitValue(a), DigitValue(b), DigitValue(c), DigitValue(e));
  }
}
