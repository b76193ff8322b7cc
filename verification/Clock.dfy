/** From a time stamp to a date: the loops over years and months against the Gregorian
    calendar. */
module Clock {
  import opened Integers
  import W = Words

  const EPOCH_YEAR: nat := 1970
  /** The first of January 1970 was a Thursday. */
  const EPOCH_DOW: nat := 4

  const MONTHS: seq<nat> := [31, 28, 31, 30, 31, 30, 31, 31, 30, 31, 30, 31]

  // ---------- the calendar ----------

  predicate IsLeapYear(y: nat) {
    y % 4 == 0 && (y % 100 != 0 || y % 400 == 0)
  }

  function YearLength(y: nat): nat {
    if IsLeapYear(y) then 366 else 365
  }

  /** The days from the epoch to the first of January. */
  function YearStart(y: nat): nat
    requires y >= EPOCH_YEAR
    decreases y
  {
    if y == EPOCH_YEAR then 0 else YearStart(y - 1) + YearLength(y - 1)
  }

  /** The length of a month, counted from 1: February has 29 days in a leap year. */
  function MonthLength(y: nat, month: nat): nat
    requires 1 <= month <= 12
  {
    if month == 2 && IsLeapYear(y) then 29 else MONTHS[month - 1]
  }

  /** The days of a year before the first of a month. */
  function DaysBefore(y: nat, month: nat): nat
    requires 1 <= month <= 13
  {
    if month == 1 then 0 else DaysBefore(y, month - 1) + MonthLength(y, month - 1)
  }

  /** The date is that of the day `doy` of the year, counted from 0. */
  predicate IsDate(y: nat, month: nat, day: nat, doy: nat) {
    && 1 <= month <= 12 && 1 <= day <= MonthLength(y, month)
    && DaysBefore(y, month) + day - 1 == doy
  }

  /** Years follow each other without a gap, so a day lies in one year only. */
  lemma {:induction false} LaterYear(y: nat, z: nat)
    requires EPOCH_YEAR <= y < z
    ensures YearStart(y) + YearLength(y) <= YearStart(z)
    decreases z
  {
    if z > y + 1 {
      LaterYear(y, z - 1);
    }
  }

  lemma YearIsUnique(y: nat, z: nat, days: nat)
    requires EPOCH_YEAR <= y && EPOCH_YEAR <= z
    requires YearStart(y) <= days < YearStart(y) + YearLength(y) && YearStart(z) <= days < YearStart(z) + YearLength(z)
    ensures y == z
  {
    if y < z {
      LaterYear(y, z);
    } else if z < y {
      LaterYear(z, y);
    }
  }

  /** The days before each month, in an ordinary year and in a leap year. */
  lemma DaysBeforeAre(y: nat)
    ensures DaysBefore(y, 1) == 0 && DaysBefore(y, 2) == 31
    ensures var l := if IsLeapYear(y) then 1 else 0;
      && DaysBefore(y, 3) == 59 + l && DaysBefore(y, 4) == 90 + l && DaysBefore(y, 5) == 120 + l
      && DaysBefore(y, 6) == 151 + l && DaysBefore(y, 7) == 181 + l && DaysBefore(y, 8) == 212 + l
      && DaysBefore(y, 9) == 243 + l && DaysBefore(y, 10) == 273 + l && DaysBefore(y, 11) == 304 + l
      && DaysBefore(y, 12) == 334 + l && DaysBefore(y, 13) == 365 + l == YearLength(y)
  {
  }

  lemma {:induction false} LaterMonth(y: nat, m: nat, n: nat)
    requires 1 <= m < n <= 13
    ensures DaysBefore(y, m) + MonthLength(y, m) <= DaysBefore(y, n)
    decreases n
  {
    if n > m + 1 {
      LaterMonth(y, m, n - 1);
    }
  }

  /** A day of a year has one date. */
  lemma DateIsUnique(y: nat, m: nat, d: nat, n: nat, e: nat, doy: nat)
    requires IsDate(y, m, d, doy) && IsDate(y, n, e, doy)
    ensures m == n && d == e
  {
    if m < n {
      LaterMonth(y, m, n);
    } else if n < m {
      LaterMonth(y, n, m);
    }
  }

  /** How many of the years before `y` since year 1 had an extra day: every fourth, but of the
      hundredth ones only every fourth. */
  function LeapYearsBefore(y: nat): nat
    requires y > 0
  {
    (y - 1) / 4 - (y - 1) / 100 + (y - 1) / 400
  }

  lemma LeapYearsStep(y: nat)
    requires y > 0
    ensures LeapYearsBefore(y + 1) == LeapYearsBefore(y) + if y % 4 == 0 && (y % 100 != 0 || y % 400 == 0) then 1 else 0
  {
    Quotient(y, 4);
    Quotient(y, 100);
    Quotient(y, 400);
    if y % 400 == 0 {
      DivisionIsUnique(y, 100, 4 * (y / 400), 0);
    }
    if y % 100 == 0 {
      DivisionIsUnique(y, 4, 25 * (y / 100), 0);
    }
  }

  lemma Quotient(y: nat, m: nat)
    requires y > 0 && m > 1
    ensures y / m == (y - 1) / m + if y % m == 0 then 1 else 0
  {
    var q, r := (y - 1) / m, (y - 1) % m;
    assert y - 1 == q * m + r;
    if r == m - 1 {
      assert y == (q + 1) * m + 0;
      DivisionIsUnique(y, m, q + 1, 0);
    } else {
      DivisionIsUnique(y, m, q, r + 1);
    }
  }

  lemma DivisionIsUnique(n: nat, m: nat, q: nat, r: nat)
    requires n == q * m + r && r < m
    ensures n % m == r && n / m == q
  {
    W.ModulusIsUnique(n, m, q, r);
  }

  /** The first day of a year in closed form: 477 years before 1970 had an extra day. */
  lemma {:induction false} YearStartIs(y: nat)
    requires y >= EPOCH_YEAR
    ensures YearStart(y) == 365 * (y - 1970) + LeapYearsBefore(y) - 477
    decreases y
  {
    if y > EPOCH_YEAR {
      YearStartIs(y - 1);
      LeapYearsStep(y - 1);
    }
  }

  /** In 400 years, 97 have an extra day. */
  lemma LeapYearsCycle(y: nat)
    requires y > 0
    ensures LeapYearsBefore(y + 400) == LeapYearsBefore(y) + 97
  {
    Later(y - 1, 400, 4, 100);
    Later(y - 1, 400, 100, 4);
    Later(y - 1, 400, 400, 1);
  }

  /** After 400 years of 146097 days, which are whole weeks, the calendar repeats. */
  lemma CycleOf400Years(y: nat)
    requires y >= EPOCH_YEAR
    ensures YearStart(y + 400) == YearStart(y) + 146097 && 146097 % 7 == 0
    ensures YearLength(y + 400) == YearLength(y)
  {
    hide IsLeapYear, YearLength, LeapYearsBefore;
    YearStartIs(y);
    YearStartIs(y + 400);
    LeapYearsCycle(y);
    YearStartIs(y + 1);
    YearStartIs(y + 401);
    LeapYearsCycle(y + 1);
  }

  lemma Later(n: nat, d: nat, m: nat, k: nat)
    requires m > 0 && d == k * m
    ensures (n + d) / m == n / m + k
  {
    var q, r := n / m, n % m;
    assert n == q * m + r;
    assert n + d == (q + k) * m + r;
    DivisionIsUnique(n + d, m, q + k, r);
  }

  /** The weekday of a day since the epoch, Sunday being 0. */
  function Weekday(days: nat): nat {
    (EPOCH_DOW + days) % 7
  }

  /** The first of January 2000 was a Saturday, and every 400 years it is one again. */
  lemma {:induction false} WeekdayOf2000(n: nat)
    ensures Weekday(YearStart(2000 + 400 * n)) == 6
  {
    hide YearStart;
    if n == 0 {
      YearStartIs(2000);
    } else {
      WeekdayOf2000(n - 1);
      CycleOf400Years(2000 + 400 * (n - 1));
      assert 2000 + 400 * (n - 1) + 400 == 2000 + 400 * n;
    }
  }

  // ---------- the months of the firmware ----------

  /** The table counts its months from 0, and the extra day goes to number 2. */
  function TableLength(y: nat, m: nat): nat
    requires m < 12
  {
    if m == 2 && IsLeapYear(y) then MONTHS[m] + 1 else MONTHS[m]
  }

  function TableBefore(y: nat, m: nat): nat
    requires m <= 12
  {
    if m == 0 then 0 else TableBefore(y, m - 1) + TableLength(y, m - 1)
  }

  /** The firmware's months begin where those of the calendar do, except for March in a leap
      year, which begins a day early and has 32 days. */
  lemma {:induction false} TableIsShifted(y: nat, m: nat)
    requires m <= 12
    ensures TableBefore(y, m) == DaysBefore(y, m + 1) - (if m == 2 && IsLeapYear(y) then 1 else 0)
    ensures m < 12 && !(IsLeapYear(y) && 1 <= m <= 2) ==> TableLength(y, m) == MonthLength(y, m + 1)
  {
    hide IsLeapYear;
    if m > 0 {
      TableIsShifted(y, m - 1);
    }
  }

  /** What the month loop finds is the date exactly outside of the 29th of February to the
      31st of March of a leap year. */
  lemma MonthIsRight(y: nat, m: nat, left: nat, doy: nat)
    requires m < 12 && TableBefore(y, m) + left == doy && left < TableLength(y, m)
    ensures IsDate(y, m + 1, left + 1, doy) <==> !(IsLeapYear(y) && 59 <= doy <= 90)
  {
    hide IsLeapYear;
    TableIsShifted(y, m);
    DaysBeforeAre(y);
    if IsLeapYear(y) {
      if m >= 3 {
        LaterMonthOrSame(y, 4, m + 1);
      }
    }
  }

  lemma LaterMonthOrSame(y: nat, m: nat, n: nat)
    requires 1 <= m <= n <= 13
    ensures DaysBefore(y, m) <= DaysBefore(y, n)
  {
  }

  // ---------- the conversion ----------

  datatype DateTime = DateTime(sec: byte, min: byte, hour: byte, day: byte, month: byte, dow: byte, year: byte)

  /** The loop over the years. */
  method FindYear(all: u16) returns (year: nat, days: u16)
    ensures year >= EPOCH_YEAR && YearStart(year) + days == all && days < YearLength(year)
  {
    hide IsLeapYear;
    year, days := EPOCH_YEAR, all;
    while days >= 365
      invariant year >= EPOCH_YEAR && YearStart(year) + days == all
      decreases days
    {
      if IsLeapYear(year) {
        if days == 365 {
          break;
        }
        days := days - 1;
      }
      days := days - 365;
      year := year + 1;
    }
  }

  /** The loop over the months ends within the table. */
  method FindMonth(year: nat, all: u16) returns (month: nat, days: u16)
    requires all < YearLength(year)
    ensures month < 12 && TableBefore(year, month) + days == all && days < TableLength(year, month)
  {
    hide IsLeapYear;
    month, days := 0, all;
    WholeTable(year);
    while true
      invariant month < 12 && TableBefore(year, month) + days == all
      decreases 12 - month
    {
      var monthdays := MONTHS[month];
      if month == 2 && IsLeapYear(year) {
        monthdays := monthdays + 1;
      }
      if days < monthdays {
        break;
      }
      days := days - monthdays;
      month := month + 1;
    }
  }

  lemma WholeTable(y: nat)
    ensures TableBefore(y, 12) == YearLength(y)
  {
    TableIsShifted(y, 12);
    DaysBeforeAre(y);
  }

  /** `clock_datetime`: the time of day, the weekday and the year are right for every time
      stamp; month and day are, too, exactly outside of the 29th of February to the 31st of
      March of a leap year. */
  method Datetime(timestamp: u32) returns (d: DateTime, ghost year: nat, ghost doy: nat)
    ensures d.sec < 60 && d.min < 60 && d.hour < 24 && year >= EPOCH_YEAR
    ensures timestamp == (((YearStart(year) + doy) * 24 + d.hour) * 60 + d.min) * 60 + d.sec
    ensures d.dow == Weekday(YearStart(year) + doy)
    ensures doy < YearLength(year) && d.year == year % 100
    ensures 1 <= d.month <= 12 && 1 <= d.day <= 32
    ensures IsDate(year, d.month, d.day, doy) <==> !(IsLeapYear(year) && 59 <= doy <= 90)
  {
    hide IsLeapYear, YearStart, IsDate, TableBefore, YearLength;
    var t: nat := timestamp;
    var sec: byte := t % 60;
    t := t / 60;
    var min: byte := t % 60;
    t := t / 60;
    var hour: byte := t % 24;
    t := t / 24;
    var days: u16 := t;
    var dow: byte := (days + EPOCH_DOW) % 7;
    var y, left := FindYear(days);
    year, doy := y, left;
    var month, rest := FindMonth(y, left);
    MonthIsRight(y, month, rest, left);
    d := DateTime(sec, min, hour, rest + 1, month + 1, dow, y % 100);
  }
}
