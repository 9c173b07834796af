/** The proleptic Gregorian calendar and its closed-form day count. */
module Gregorian {

  datatype Date = Date(year: int, month: int, day: int)

  predicate IsLeap(y: int) {
    y % 4 == 0 && (y % 100 != 0 || y % 400 == 0)
  }

  function DaysInMonth(y: int, m: int): (r: int)
    ensures 28 <= r <= 31
  {
    if m == 2 then (if IsLeap(y) then 29 else 28)
    else if m == 4 || m == 6 || m == 9 || m == 11 then 30
    else 31
  }

  predicate ValidDate(c: Date) {
    1 <= c.month <= 12 && 1 <= c.day <= DaysInMonth(c.year, c.month)
  }

  /** Python's // is floor division, which is Dafny's / for these positive divisors. */
  function JdnGregorian(y: int, m: int, d: int): int {
    var a := (14 - m) / 12;
    var y2 := y + 4800 - a;
    var m2 := m + 12 * a - 3;
    d + (153 * m2 + 2) / 5 + 365 * y2 + y2 / 4 - y2 / 100 + y2 / 400 - 32045
  }

  function Jdn(c: Date): int {
    JdnGregorian(c.year, c.month, c.day)
  }

  function NextDay(c: Date): Date {
    if c.day < DaysInMonth(c.year, c.month) then Date(c.year, c.month, c.day + 1)
    else if c.month < 12 then Date(c.year, c.month + 1, 1)
    else Date(c.year + 1, 1, 1)
  }

  function PreviousDay(c: Date): Date {
    if c.day > 1 then Date(c.year, c.month, c.day - 1)
    else if c.month > 1 then Date(c.year, c.month - 1, DaysInMonth(c.year, c.month - 1))
    else Date(c.year - 1, 12, 31)
  }

  predicate Earlier(a: Date, b: Date) {
    a.year < b.year
    || (a.year == b.year && (a.month < b.month || (a.month == b.month && a.day < b.day)))
  }

  /** Leap days accumulate as the quotients of the closed form do. */
  lemma LeapStep(y: int)
    ensures y / 4 - y / 100 + y / 400
         == (y - 1) / 4 - (y - 1) / 100 + (y - 1) / 400 + if IsLeap(y) then 1 else 0
  {
    Step4(y);
    Step100(y);
    Step400(y);
  }

  lemma Step4(y: int)
    ensures y / 4 == (y - 1) / 4 + if y % 4 == 0 then 1 else 0
  {
  }

  lemma Step100(y: int)
    ensures y / 100 == (y - 1) / 100 + if y % 100 == 0 then 1 else 0
    ensures y % 100 == 0 ==> y % 4 == 0
  {
    Carry100(y);
    MultipleOf4(y, y / 100);
  }

  lemma MultipleOf4(y: int, q: int)
    ensures y == 100 * q ==> y % 4 == 0
  {
  }

  lemma Carry100(y: int)
    ensures y / 100 == (y - 1) / 100 + if y % 100 == 0 then 1 else 0
  {
    var q, r := y / 100, y % 100;
    assert y - 1 == 100 * q + (r - 1);
  }

  lemma Step400(y: int)
    ensures y / 400 == (y - 1) / 400 + if y % 400 == 0 then 1 else 0
    ensures y % 400 == 0 ==> y % 100 == 0
  {
    Carry400(y);
    if y % 400 == 0 {
      assert y == 100 * (4 * (y / 400));
    }
  }

  lemma Carry400(y: int)
    ensures y / 400 == (y - 1) / 400 + if y % 400 == 0 then 1 else 0
  {
    var q, r := y / 400, y % 400;
    assert y - 1 == 400 * q + (r - 1);
  }

  lemma LeapPeriod(y: int)
    ensures IsLeap(y + 4800) == IsLeap(y)
  {
    Shift4(y);
    Shift100(y);
    Shift400(y);
  }

  lemma Shift4(y: int)
    ensures (y + 4800) % 4 == y % 4
  {
    assert y + 4800 == 4 * (y / 4 + 1200) + y % 4;
  }

  lemma Shift100(y: int)
    ensures (y + 4800) % 100 == y % 100
  {
    assert y + 4800 == 100 * (y / 100 + 48) + y % 100;
  }

  lemma Shift400(y: int)
    ensures (y + 4800) % 400 == y % 400
  {
    assert y + 4800 == 400 * (y / 400 + 12) + y % 400;
  }

  lemma FebruaryLength(y: int)
    ensures JdnGregorian(y, 3, 1) == JdnGregorian(y, 2, 1) + if IsLeap(y) then 29 else 28
  {
    LeapStep(y + 4800);
    LeapPeriod(y);
  }

  lemma MonthLength(y: int, m: int)
    requires 1 <= m < 12
    ensures JdnGregorian(y, m + 1, 1) == JdnGregorian(y, m, 1) + DaysInMonth(y, m)
  {
    if m == 2 {
      FebruaryLength(y);
    } else {
      assert (14 - m) / 12 == (14 - (m + 1)) / 12;
    }
  }

  /** Within a month the count follows the day. */
  lemma DayInMonth(y: int, m: int, d: int)
    ensures JdnGregorian(y, m, d) == JdnGregorian(y, m, 1) + d - 1
  {
  }

  lemma NextDayIsValid(c: Date)
    requires ValidDate(c)
    ensures ValidDate(NextDay(c))
  {
  }

  /** The day count rises by exactly one from every calendar day to the next. */
  lemma JdnOfNextDay(c: Date)
    requires ValidDate(c)
    ensures ValidDate(NextDay(c)) && Jdn(NextDay(c)) == Jdn(c) + 1
  {
    NextDayIsValid(c);
    DayInMonth(c.year, c.month, c.day);
    if c.day < DaysInMonth(c.year, c.month) {
      DayInMonth(c.year, c.month, c.day + 1);
    } else if c.month < 12 {
      MonthLength(c.year, c.month);
    } else {
      NewYearsEve(c.year);
    }
  }

  lemma NewYearsEve(y: int)
    ensures JdnGregorian(y + 1, 1, 1) == JdnGregorian(y, 12, 31) + 1
  {
  }

  lemma DaysInverse(c: Date)
    requires ValidDate(c)
    ensures ValidDate(PreviousDay(c)) && NextDay(PreviousDay(c)) == c && PreviousDay(NextDay(c)) == c
  {
  }

  lemma JdnOfPreviousDay(c: Date)
    requires ValidDate(c)
    ensures ValidDate(PreviousDay(c)) && Jdn(PreviousDay(c)) == Jdn(c) - 1
  {
    DaysInverse(c);
    JdnOfNextDay(PreviousDay(c));
  }

  /** The calendar day with a given count, reached by stepping from day 0. */
  function DateOf(n: int): Date
    decreases if n < 0 then -n else n
  {
    if n == 0 then Date(-4713, 11, 24)
    else if n > 0 then NextDay(DateOf(n - 1))
    else PreviousDay(DateOf(n + 1))
  }

  lemma {:induction false} DateOfDay(n: int)
    ensures ValidDate(DateOf(n)) && Jdn(DateOf(n)) == n
    decreases if n < 0 then -n else n
  {
    if n > 0 {
      DateOfDay(n - 1);
      JdnOfNextDay(DateOf(n - 1));
    } else if n < 0 {
      DateOfDay(n + 1);
      JdnOfPreviousDay(DateOf(n + 1));
    }
  }

  lemma {:induction false} MonthsIncrease(y: int, m: int, n: int)
    requires 1 <= m < n <= 12
    ensures JdnGregorian(y, m, 1) + DaysInMonth(y, m) <= JdnGregorian(y, n, 1)
    decreases n - m
  {
    MonthLength(y, m);
    if m + 1 < n {
      MonthsIncrease(y, m + 1, n);
    }
  }

  lemma YearLength(y: int)
    ensures JdnGregorian(y + 1, 1, 1) == JdnGregorian(y, 1, 1) + if IsLeap(y) then 366 else 365
  {
    LeapStep(y + 4800);
    LeapPeriod(y);
  }

  lemma {:induction false} YearsIncrease(y: int, z: int)
    requires y < z
    ensures JdnGregorian(y, 1, 1) + 365 * (z - y) <= JdnGregorian(z, 1, 1)
    decreases z - y
  {
    YearLength(y);
    if y + 1 < z {
      YearsIncrease(y + 1, z);
    }
  }

  lemma InYear(c: Date)
    requires ValidDate(c)
    ensures JdnGregorian(c.year, 1, 1) <= Jdn(c) < JdnGregorian(c.year + 1, 1, 1)
  {
    DayInMonth(c.year, c.month, c.day);
    MonthInYear(c.year, c.month);
  }

  lemma MonthInYear(y: int, m: int)
    requires 1 <= m <= 12
    ensures JdnGregorian(y, 1, 1) <= JdnGregorian(y, m, 1)
    ensures JdnGregorian(y, m, 1) + DaysInMonth(y, m) <= JdnGregorian(y + 1, 1, 1)
  {
    NewYearsEve(y);
    DayInMonth(y, 12, 31);
    if m > 1 {
      MonthsIncrease(y, 1, m);
    }
    if m < 12 {
      MonthsIncrease(y, m, 12);
    }
  }

  /** The day count orders dates as the calendar does, so it is a bijection onto the
      integers whose inverse is DateOf. */
  lemma JdnOrdersDates(a: Date, b: Date)
    requires ValidDate(a) && ValidDate(b)
    ensures Earlier(a, b) <==> Jdn(a) < Jdn(b)
    ensures Jdn(a) == Jdn(b) <==> a == b
    ensures DateOf(Jdn(a)) == a
  {
    DateOfDay(Jdn(a));
    JdnEarlier(a, b);
    JdnEarlier(b, a);
    JdnEarlier(a, DateOf(Jdn(a)));
    JdnEarlier(DateOf(Jdn(a)), a);
  }

  lemma JdnEarlier(a: Date, b: Date)
    requires ValidDate(a) && ValidDate(b)
    ensures Earlier(a, b) ==> Jdn(a) < Jdn(b)
  {
    if a.year < b.year {
      InYear(a);
      InYear(b);
      if a.year + 1 < b.year {
        YearsIncrease(a.year + 1, b.year);
      }
    } else if a.year == b.year && a.month < b.month {
      MonthsIncrease(a.year, a.month, b.month);
    }
  }

  /** The year of a day number. */
  lemma YearOfDay(n: int, y: int)
    ensures DateOf(n).year == y <==> JdnGregorian(y, 1, 1) <= n < JdnGregorian(y + 1, 1, 1)
  {
    var year := YearAround(n);
    YearIsUnique(n, year, y);
  }

  /** Known days of the common count: a new year, and the years of the calendar. */
  lemma KnownDays()
    ensures JdnGregorian(2000, 1, 1) == 2451545
    ensures JdnGregorian(1, 1, 1) == 1721426 && JdnGregorian(10000, 1, 1) == 5373485
  {
    FirstDay();
    LastDay();
  }

  lemma FirstDay()
    ensures JdnGregorian(1, 1, 1) == 1721426
  {
  }

  lemma LastDay()
    ensures JdnGregorian(10000, 1, 1) == 5373485
  {
  }

  lemma YearAround(n: int) returns (year: int)
    ensures year == DateOf(n).year && JdnGregorian(year, 1, 1) <= n < JdnGregorian(year + 1, 1, 1)
  {
    var c := DateOf(n);
    DateOfDay(n);
    InYear(c);
    year := c.year;
  }

  lemma YearIsUnique(n: int, z: int, y: int)
    requires JdnGregorian(z, 1, 1) <= n < JdnGregorian(z + 1, 1, 1)
    ensures z == y <==> JdnGregorian(y, 1, 1) <= n < JdnGregorian(y + 1, 1, 1)
  {
    if y < z {
      YearsNotDecrease(y + 1, z);
    } else if z < y {
      YearsNotDecrease(z + 1, y);
    }
  }

  lemma YearsNotDecrease(y: int, z: int)
    requires y <= z
    ensures JdnGregorian(y, 1, 1) <= JdnGregorian(z, 1, 1)
  {
    if y < z {
      YearsIncrease(y, z);
    }
  }
}
