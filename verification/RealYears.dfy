/** Calendar years plus a fraction: the dates of the decades. */
module RealYears {
  import opened Outcome
  import opened Circle
  import opened Gregorian
  import opened Clock

  const MEAN_YEAR_DAYS := 365.2425
  const MAX_YEAR := 9999

  /** datetime.replace(year=...), and for 29 February in a common year again with day 28. */
  function Anniversary(c: Date, year: int): Date {
    if c.month == 2 && c.day == 29 && !IsLeap(year) then Date(year, 2, 28) else Date(year, c.month, c.day)
  }

  predicate InRange(c: Date) {
    1 <= c.year <= MAX_YEAR
  }

  function FractionMicroseconds(fraction: real): int {
    RoundHalfEven(fraction * MEAN_YEAR_DAYS * DAY as real)
  }

  /** The day number of the date `years` real years after the base. */
  function RealYearsDay(base: int, years: real): int {
    var whole := Trunc(years);
    var anchored := Jdn(Anniversary(DateOfWall(base), DateOfWall(base).year + whole)) * DAY + base % DAY;
    DayOf(anchored + FractionMicroseconds(years - whole as real))
  }

  function AddRealYears(base: int, years: real): Result<Date> {
    var y := DateOfWall(base).year + Trunc(years);
    if !(1 <= y <= MAX_YEAR) then Err(ValueError)
    else
      var date := DateOf(RealYearsDay(base, years));
      if InRange(date) then Ok(date) else Err(OverflowError)
  }

  /** The date returned is the one with that day number. */
  lemma AddRealYearsDay(base: int, years: real)
    requires AddRealYears(base, years).Ok?
    ensures ValidDate(AddRealYears(base, years).value)
    ensures Jdn(AddRealYears(base, years).value) == RealYearsDay(base, years)
  {
    DateOfDay(RealYearsDay(base, years));
  }

  /** Whole years keep month and day, on or back; 29 February becomes the 28th in a common year. */
  lemma WholeYearsKeepDate(base: int, n: int)
    requires 1 <= DateOfWall(base).year + n <= 9999
    ensures var c := DateOfWall(base);
            var y := c.year + n;
            AddRealYears(base, n as real)
            == Ok(Date(y, c.month, if c.month == 2 && c.day == 29 && !IsLeap(y) then 28 else c.day))
  {
    var y := DateOfWall(base).year + n;
    WholeYearsDate(base, n);
    DateReached(base, n as real, n, Anniversary(DateOfWall(base), y));
  }

  lemma WholeYearsDate(base: int, n: int)
    ensures DateOf(RealYearsDay(base, n as real)) == Anniversary(DateOfWall(base), DateOfWall(base).year + n)
  {
    DateOfDay(DayOf(base));
    WholeYearsDay(base, n);
    AnniversaryIsDate(DateOfWall(base), DateOfWall(base).year + n);
  }

  lemma AnniversaryIsDate(c: Date, year: int)
    requires ValidDate(c)
    ensures DateOf(Jdn(Anniversary(c, year))) == Anniversary(c, year)
  {
    JdnOrdersDates(Anniversary(c, year), Anniversary(c, year));
  }

  lemma DateReached(base: int, years: real, whole: int, date: Date)
    requires years == whole as real && 1 <= DateOfWall(base).year + whole <= MAX_YEAR
    requires DateOf(RealYearsDay(base, years)) == date && InRange(date)
    ensures AddRealYears(base, years) == Ok(date)
  {
    assert Trunc(years) == whole;
  }

  lemma WholeYearsDay(base: int, n: int)
    ensures RealYearsDay(base, n as real) == Jdn(Anniversary(DateOfWall(base), DateOfWall(base).year + n))
  {
    assert Trunc(n as real) == n;
    NoFraction(n as real - n as real);
    SameDay(Jdn(Anniversary(DateOfWall(base), DateOfWall(base).year + n)), base % DAY);
  }

  lemma NoFraction(fraction: real)
    requires fraction == 0.0
    ensures FractionMicroseconds(fraction) == 0
  {
  }

  lemma SameDay(day: int, rest: int)
    requires 0 <= rest < DAY
    ensures DayOf(day * DAY + rest) == day
  {
  }

  /** A part of a year is that part of 365.2425 days from the anniversary at the time of birth, to the
      day it falls on. */
  lemma PartOfYear(base: int, years: real)
    ensures var whole := Trunc(years);
            var anniversary := Jdn(Anniversary(DateOfWall(base), DateOfWall(base).year + whole));
            var day := anniversary as real + (base - 86_400_000_000 * DayOf(base)) as real / 86_400_000_000.0
                       + (years - whole as real) * 365.2425;
            RealYearsDay(base, years) as real - 0.00001 < day < RealYearsDay(base, years) as real + 1.00001
  {
    var fraction := years - Trunc(years) as real;
    RoundNearest(fraction * MEAN_YEAR_DAYS * DAY as real);
    assert base % DAY == base - 86_400_000_000 * DayOf(base);
    DayBounds(Jdn(Anniversary(DateOfWall(base), DateOfWall(base).year + Trunc(years))), base % DAY,
              FractionMicroseconds(fraction), fraction * MEAN_YEAR_DAYS);
  }

  lemma DayBounds(day: int, rest: int, extra: int, extraDays: real)
    requires Abs(extra as real - extraDays * DAY as real) <= 0.5
    ensures var n := DayOf(day * DAY + rest + extra);
            var exact := day as real + rest as real / 86_400_000_000.0 + extraDays;
            n as real - 0.00001 < exact < n as real + 1.00001
  {
    var total := day * DAY + rest + extra;
    assert DAY * (total / DAY) <= total < DAY * (total / DAY) + DAY;
  }

  /** There is a date exactly if both the calendar year and the day reached lie in the years 1 to 9999. */
  lemma DateExistsIff(base: int, years: real)
    ensures AddRealYears(base, years).Ok? <==>
              1 <= DateOfWall(base).year + Trunc(years) <= 9999 && 1721426 <= RealYearsDay(base, years) < 5373485
    ensures AddRealYears(base, years).Err? ==>
              AddRealYears(base, years).error
              == if 1 <= DateOfWall(base).year + Trunc(years) <= 9999 then OverflowError else ValueError
  {
    KnownDays();
    YearsOfDays(RealYearsDay(base, years));
  }

  lemma YearsOfDays(day: int)
    ensures 1 <= DateOf(day).year <= 9999 <==> JdnGregorian(1, 1, 1) <= day < JdnGregorian(10000, 1, 1)
  {
    var year := DateOf(day).year;
    YearOfDay(day, year);
    if year < 1 {
      YearsNotDecrease(year + 1, 1);
    } else if year <= 9999 {
      YearsNotDecrease(1, year);
      YearsNotDecrease(year + 1, 10000);
    } else {
      YearsNotDecrease(10000, year);
    }
  }

  // ---- ten calendar years ----

  function LeapDays(y: int): int {
    y / 4 - y / 100 + y / 400
  }

  /** A century year without a leap day within (from, to]. */
  ghost predicate SkipsLeapDay(from: int, to: int) {
    exists c :: from < c <= to && c % 100 == 0 && !IsLeap(c)
  }

  lemma LeapDaysOfDecade(y: int)
    ensures 1 <= LeapDays(y + 10) - LeapDays(y) <= 3
    ensures LeapDays(y + 10) - LeapDays(y) == 1 ==> SkipsLeapDay(y, y + 10)
  {
    FourHundred(y);
    Quotients(y);
    if (y + 10) / 100 > y / 100 && (y + 10) / 400 == y / 400 {
      CommonCentury(y);
    }
  }

  lemma Quotients(y: int)
    ensures 2 <= (y + 10) / 4 - y / 4 <= 3
    ensures 0 <= (y + 10) / 100 - y / 100 <= 1
  {
  }

  lemma CommonCentury(y: int)
    requires (y + 10) / 100 > y / 100 && (y + 10) / 400 == y / 400
    ensures SkipsLeapDay(y, y + 10)
  {
    FourHundred(y);
    var c := (y + 10) / 100 * 100;
    assert c % 400 != 0;
    assert y < c <= y + 10 && c % 100 == 0 && !IsLeap(c);
  }

  lemma FourHundred(y: int)
    ensures 0 <= (y + 10) / 400 - y / 400 <= (y + 10) / 100 - y / 100
    ensures (y + 10) / 100 > y / 100 && (y + 10) / 100 * 100 % 400 == 0 ==> (y + 10) / 400 > y / 400
  {
    assert y / 400 == y / 100 / 4;
    assert (y + 10) / 400 == (y + 10) / 100 / 4;
  }

  lemma LeapDaysShift(y: int)
    ensures LeapDays(y + 4800) == LeapDays(y) + 1164
  {
    assert (y + 4800) / 4 == y / 4 + 1200;
    assert (y + 4800) / 100 == y / 100 + 48 by {
      Hundreds(y);
    }
    assert (y + 4800) / 400 == y / 400 + 12 by {
      FourHundreds(y);
    }
  }

  lemma Hundreds(y: int)
    ensures (y + 4800) / 100 == y / 100 + 48
  {
  }

  lemma FourHundreds(y: int)
    ensures (y + 4800) / 400 == y / 400 + 12
  {
  }

  /** Ten years on, the same day of the year is 3650 days plus the leap days between. */
  lemma SameDayTenYearsOn(y: int, m: int, d: int)
    requires 1 <= m <= 12
    ensures var from := if m <= 2 then y - 1 else y;
            JdnGregorian(y + 10, m, d) - JdnGregorian(y, m, d) == 3650 + LeapDays(from + 10) - LeapDays(from)
  {
    var a := (14 - m) / 12;
    assert a == if m <= 2 then 1 else 0;
    LeapDaysShift(y - a);
    LeapDaysShift(y + 10 - a);
  }

  lemma DecadeLength(c: Date, y: int)
    requires ValidDate(c)
    ensures var n := Jdn(Anniversary(c, y + 10)) - Jdn(Anniversary(c, y));
            3651 <= n <= 3653 && (n == 3651 ==> SkipsLeapDay(y - 1, y + 10))
  {
    if c.month == 2 && c.day == 29 {
      LeapBirthday(c, y);
    } else {
      PlainBirthday(c, y);
    }
  }

  lemma PlainBirthday(c: Date, y: int)
    requires ValidDate(c) && !(c.month == 2 && c.day == 29)
    ensures var n := JdnGregorian(y + 10, c.month, c.day) - JdnGregorian(y, c.month, c.day);
            3651 <= n <= 3653 && (n == 3651 ==> SkipsLeapDay(y - 1, y + 10))
  {
    var from := if c.month <= 2 then y - 1 else y;
    SameDayTenYearsOn(y, c.month, c.day);
    LeapDaysOfDecade(from);
    if SkipsLeapDay(from, from + 10) {
      var year :| from < year <= from + 10 && year % 100 == 0 && !IsLeap(year);
      assert SkipsLeapDay(y - 1, y + 10);
    }
  }

  lemma LeapBirthday(c: Date, y: int)
    requires c.month == 2 && c.day == 29
    ensures var n := Jdn(Anniversary(c, y + 10)) - Jdn(Anniversary(c, y));
            3651 <= n <= 3653 && (n == 3651 ==> SkipsLeapDay(y - 1, y + 10))
  {
    var a, z := Anniversary(c, y), Anniversary(c, y + 10);
    SameDayTenYearsOn(y, 2, a.day);
    DayDifference(y + 10, 2, z.day, a.day);
    LeapDayDecade(y);
  }

  lemma DayDifference(y: int, m: int, d: int, e: int)
    ensures JdnGregorian(y, m, d) - JdnGregorian(y, m, e) == d - e
  {
  }

  /** Decades from a 29 February, clamped to the 28th in common years. */
  lemma LeapDayDecade(y: int)
    ensures var n := LeapDays(y + 9) - LeapDays(y - 1)
                     + (if IsLeap(y + 10) then 29 else 28) - (if IsLeap(y) then 29 else 28);
            1 <= n <= 3 && (n == 1 ==> SkipsLeapDay(y - 1, y + 10))
  {
    LeapDaysOfDecade(y - 1);
    LeapDaysOfDecade(y);
    LeapStep(y);
    LeapStep(y + 10);
    assert LeapDays(y + 10) - LeapDays(y) == LeapDays(y + 9) - LeapDays(y - 1)
        + (if IsLeap(y + 10) then 1 else 0) - (if IsLeap(y) then 1 else 0);
    if SkipsLeapDay(y, y + 10) {
      var c :| y < c <= y + 10 && c % 100 == 0 && !IsLeap(c);
      assert SkipsLeapDay(y - 1, y + 10);
    }
  }

  lemma WholeDays(a: int, b: int, extra: int)
    ensures DayOf(b * DAY + extra) - DayOf(a * DAY + extra) == b - a
  {
  }

  function YearReached(base: int, years: real): int {
    DateOfWall(base).year + Trunc(years)
  }

  /** The time of day and the fraction of a year, which every decade start of a chart shares. */
  function Extra(base: int, years: real): int {
    base % DAY + FractionMicroseconds(years - Trunc(years) as real)
  }

  function AnniversaryDay(c: Date, y: int): int {
    Jdn(Anniversary(c, y))
  }

  lemma RealYearsDayParts(base: int, years: real)
    ensures RealYearsDay(base, years)
         == DayOf(AnniversaryDay(DateOfWall(base), YearReached(base, years)) * DAY + Extra(base, years))
  {
  }

  lemma TenYearsLater(base: int, years: real)
    requires years >= 0.0
    ensures YearReached(base, years + 10.0) == YearReached(base, years) + 10
    ensures Extra(base, years + 10.0) == Extra(base, years)
  {
    assert (years + 10.0).Floor == years.Floor + 10;
    assert years + 10.0 - Trunc(years + 10.0) as real == years - Trunc(years) as real;
  }

  /** A decade spans 3651 to 3653 days for every base and every non-negative start, and 3651
      only across a century year without a leap day. */
  lemma DecadeSpan(base: int, years: real)
    requires years >= 0.0
    ensures 3651 <= RealYearsDay(base, years + 10.0) - RealYearsDay(base, years) <= 3653
    ensures RealYearsDay(base, years + 10.0) - RealYearsDay(base, years) == 3651 ==>
              SkipsLeapDay(YearReached(base, years) - 1, YearReached(base, years) + 10)
  {
    var c, y := DateOfWall(base), YearReached(base, years);
    DateOfDay(DayOf(base));
    TenYearsLater(base, years);
    RealYearsDayParts(base, years);
    RealYearsDayParts(base, years + 10.0);
    DecadeLength(c, y);
    WholeDays(AnniversaryDay(c, y), AnniversaryDay(c, y + 10), Extra(base, years));
  }

  /** The same for the dates themselves. */
  lemma DecadeDates(base: int, years: real, start: Date, end: Date)
    requires years >= 0.0
    requires AddRealYears(base, years) == Ok(start) && AddRealYears(base, years + 10.0) == Ok(end)
    ensures 3651 <= Jdn(end) - Jdn(start) <= 3653
    ensures Jdn(end) - Jdn(start) == 3651 ==>
              SkipsLeapDay(YearReached(base, years) - 1, YearReached(base, years) + 10)
  {
    AddRealYearsDay(base, years);
    AddRealYearsDay(base, years + 10.0);
    DecadeSpan(base, years);
  }

  // ---- twenty years between 1900 and 2100 ----

  lemma LeapDaysOfTwenty(from: int)
    requires 1900 <= from <= 2079
    ensures LeapDays(from + 20) == LeapDays(from) + 5
  {
    CenturiesCancel(from);
    CenturiesCancel(from + 20);
    assert (from + 20) / 4 == from / 4 + 5;
  }

  lemma CenturiesCancel(y: int)
    requires 1900 <= y <= 2099
    ensures y / 100 - y / 400 == 15
  {
  }

  lemma LeapAgain(y: int)
    requires 1901 <= y <= 2079
    ensures IsLeap(y + 20) == IsLeap(y)
  {
  }

  /** Without a common century year between, the same date is 7305 days later twenty years on. */
  lemma TwentyYears(c: Date, y: int)
    requires ValidDate(c) && 1901 <= y <= 2079
    ensures AnniversaryDay(c, y + 20) == AnniversaryDay(c, y) + 7305
  {
    LeapAgain(y);
    var from := if c.month <= 2 then y - 1 else y;
    var day := Anniversary(c, y).day;
    SameDayTenYearsOn(y, c.month, day);
    SameDayTenYearsOn(y + 10, c.month, day);
    LeapDaysOfTwenty(from);
  }

  /** And so is the day on which a real age is reached. */
  lemma TwentyRealYears(base: int, years: real, later: real)
    requires years >= 0.0 && later == years + 20.0 && 1901 <= YearReached(base, years) <= 2079
    ensures RealYearsDay(base, later) == RealYearsDay(base, years) + 7305
    ensures YearReached(base, later) == YearReached(base, years) + 20
  {
    var c, y := DateOfWall(base), YearReached(base, years);
    DateOfDay(DayOf(base));
    TenYearsLater(base, years);
    TenYearsLater(base, years + 10.0);
    RealYearsDayParts(base, years);
    RealYearsDayParts(base, later);
    TwentyYears(c, y);
    WholeDays(AnniversaryDay(c, y), AnniversaryDay(c, y + 20), Extra(base, years));
  }

  // ---- the range of the calendar ----

  lemma ExtraIsShort(base: int, years: real)
    requires years >= 0.0
    ensures 0 <= Extra(base, years) < 367 * DAY
  {
    var fraction := years - Trunc(years) as real;
    assert 0.0 <= fraction < 1.0;
    RoundNearest(fraction * MEAN_YEAR_DAYS * DAY as real);
  }

  lemma DaysOf(day: int, extra: int)
    requires 0 <= extra < 367 * DAY
    ensures day <= DayOf(day * DAY + extra) <= day + 366
  {
  }

  lemma DayReached(base: int, years: real)
    requires years >= 0.0
    ensures var y := YearReached(base, years);
            JdnGregorian(y, 1, 1) <= RealYearsDay(base, years) < JdnGregorian(y + 3, 1, 1)
  {
    var y := YearReached(base, years);
    AnniversaryInYear(base, y);
    RealYearsDayParts(base, years);
    ExtraIsShort(base, years);
    DaysOf(AnniversaryDay(DateOfWall(base), y), Extra(base, years));
    YearsIncrease(y + 1, y + 3);
  }

  lemma AnniversaryInYear(base: int, y: int)
    ensures JdnGregorian(y, 1, 1) <= AnniversaryDay(DateOfWall(base), y) < JdnGregorian(y + 1, 1, 1)
  {
    DateOfDay(DayOf(base));
    InYear(Anniversary(DateOfWall(base), y));
  }

  lemma YearWithin(day: int, y: int)
    requires JdnGregorian(y, 1, 1) <= day < JdnGregorian(y + 3, 1, 1)
    ensures y <= DateOf(day).year <= y + 2
  {
    var year := DateOf(day).year;
    YearOfDay(day, year);
    if year < y {
      YearsNotDecrease(year + 1, y);
    } else if year > y + 2 {
      YearsNotDecrease(y + 3, year);
    }
  }

  /** The date reached lies in the year reached or one of the two after it, so it exists if these are
      years of the calendar. */
  lemma DateExists(base: int, years: real)
    requires years >= 0.0 && 1 <= YearReached(base, years) <= MAX_YEAR - 2
    ensures AddRealYears(base, years).Ok?
  {
    DayReached(base, years);
    YearWithin(RealYearsDay(base, years), YearReached(base, years));
  }

  // ---- drift against the mean year ----

  lemma LeapDrift(y: int)
    ensures 0.2425 * y as real - 2.0 <= LeapDays(y) as real <= 0.2425 * y as real + 1.0
  {
    assert y / 4 * 4 <= y < y / 4 * 4 + 4;
    assert y / 100 * 100 <= y < y / 100 * 100 + 100;
    assert y / 400 * 400 <= y < y / 400 * 400 + 400;
  }

  /** The same date in two years is the mean number of days apart, give or take three. */
  lemma YearDrift(y: int, z: int, m: int, d: int)
    requires 1 <= m <= 12
    ensures Abs((JdnGregorian(z, m, d) - JdnGregorian(y, m, d)) as real - MEAN_YEAR_DAYS * (z - y) as real) <= 3.0
  {
    var a := (14 - m) / 12;
    LeapDrift(y + 4800 - a);
    LeapDrift(z + 4800 - a);
    assert JdnGregorian(z, m, d) - JdnGregorian(y, m, d)
        == 365 * (z - y) + LeapDays(z + 4800 - a) - LeapDays(y + 4800 - a);
  }

  lemma AnniversaryDrift(c: Date, y: int)
    requires ValidDate(c)
    ensures Abs((AnniversaryDay(c, y) - Jdn(c)) as real - MEAN_YEAR_DAYS * (y - c.year) as real) <= 4.0
  {
    YearDrift(c.year, y, c.month, c.day);
    DayDifference(y, c.month, Anniversary(c, y).day, c.day);
  }

  /** The calendar date `years` after a base stays within five days of `years` mean years. */
  lemma RealYearsDrift(base: int, years: real)
    ensures Abs(RealYearsDay(base, years) as real - base as real / DAY as real - MEAN_YEAR_DAYS * years) <= 5.1
  {
    var c, y := DateOfWall(base), YearReached(base, years);
    var fraction := years - Trunc(years) as real;
    RealYearsDayParts(base, years);
    AnniversaryOfBase(base, y);
    RoundNearest(fraction * MEAN_YEAR_DAYS * DAY as real);
    FloorDrift(AnniversaryDay(c, y), base, FractionMicroseconds(fraction), fraction * MEAN_YEAR_DAYS);
    DriftsAddUp(RealYearsDay(base, years), base as real / DAY as real, AnniversaryDay(c, y), DayOf(base),
                Trunc(years), fraction, years);
  }

  lemma AnniversaryOfBase(base: int, y: int)
    ensures Abs((AnniversaryDay(DateOfWall(base), y) - DayOf(base)) as real
                - MEAN_YEAR_DAYS * (y - DateOfWall(base).year) as real) <= 4.0
  {
    DateOfDay(DayOf(base));
    AnniversaryDrift(DateOfWall(base), y);
  }

  lemma DriftsAddUp(day: int, baseDays: real, anniversary: int, baseDay: int, whole: int, fraction: real, years: real)
    requires years == whole as real + fraction
    requires Abs((anniversary - baseDay) as real - MEAN_YEAR_DAYS * whole as real) <= 4.0
    requires Abs(day as real - baseDays - ((anniversary - baseDay) as real + fraction * MEAN_YEAR_DAYS)) <= 1.1
    ensures Abs(day as real - baseDays - MEAN_YEAR_DAYS * years) <= 5.1
  {
  }

  lemma FloorDrift(day: int, base: int, extra: int, extraDays: real)
    requires Abs(extra as real - extraDays * DAY as real) <= 0.5
    ensures var n := DayOf(day * DAY + (base % DAY + extra));
            Abs(n as real - base as real / DAY as real - ((day - DayOf(base)) as real + extraDays)) <= 1.1
  {
    var total := day * DAY + (base % DAY + extra);
    assert DAY * (total / DAY) <= total < DAY * (total / DAY) + DAY;
    assert base == DAY * (base / DAY) + base % DAY;
  }
}
