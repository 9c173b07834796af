/** Wall clocks and instants as integer microseconds. Day n of the clock is the calendar
    day whose Julian day number is n, so microsecond 0 is midnight of day 0. */
module Clock {
  import opened Gregorian

  const MINUTE := 60_000_000
  const HOUR := 3_600_000_000
  const DAY := 86_400_000_000

  function DayOf(wall: int): int {
    wall / DAY
  }

  function DateOfWall(wall: int): Date {
    DateOf(DayOf(wall))
  }

  /** datetime.hour */
  function HourOf(wall: int): (h: int)
    ensures 0 <= h < 24
  {
    (wall % DAY) / HOUR
  }

  /** Date and hour of a wall time, and what is left of the hour. */
  lemma WallParts(wall: int)
    ensures ValidDate(DateOfWall(wall))
    ensures 0 <= wall - Jdn(DateOfWall(wall)) * 86_400_000_000 - HourOf(wall) * 3_600_000_000 < 3_600_000_000
  {
    DateOfDay(DayOf(wall));
  }

  function YearStart(y: int): int {
    JdnGregorian(y, 1, 1) * DAY
  }

  lemma YearOfWall(wall: int, y: int)
    ensures DateOfWall(wall).year == y <==> YearStart(y) <= wall < YearStart(y + 1)
  {
    YearOfDay(DayOf(wall), y);
  }

  /** Python's round(): ties go to the even neighbour. */
  function RoundHalfEven(x: real): int {
    var below := x.Floor;
    var rest := x - below as real;
    if rest < 0.5 then below
    else if rest > 0.5 then below + 1
    else if below % 2 == 0 then below else below + 1
  }

  lemma RoundNearest(x: real)
    ensures RoundHalfEven(x) as real - 0.5 <= x <= RoundHalfEven(x) as real + 0.5
    ensures x == RoundHalfEven(x) as real - 0.5 || x == RoundHalfEven(x) as real + 0.5 ==> RoundHalfEven(x) % 2 == 0
  {
  }

  lemma RoundMonotone(x: real, y: real)
    requires x <= y
    ensures RoundHalfEven(x) <= RoundHalfEven(y)
  {
  }

  lemma RoundShift(x: real, k: int)
    requires k % 2 == 0
    ensures RoundHalfEven(x + k as real) == RoundHalfEven(x) + k
  {
    assert (x + k as real).Floor == x.Floor + k;
  }

  /** A Julian day as microseconds, taken apart into hour, minute, second and rounded
      microsecond and put together again. */
  function JdUtToDatetimeUtc(jd: real): int {
    var day := (jd + 0.5).Floor;
    var h := (jd + 0.5 - day as real) * 24.0;
    var hour := h.Floor;
    var rem := (h - hour as real) * 3600.0;
    var minute := (rem / 60.0).Floor;
    var sec := rem - minute as real * 60.0;
    var second := sec.Floor;
    var micro := RoundHalfEven((sec - second as real) * 1_000_000.0);
    var clamped := if micro >= 1_000_000 then 0 else micro;
    var whole := if micro >= 1_000_000 then second + 1 else second;
    day * DAY + hour * HOUR + minute * MINUTE + whole * 1_000_000 + clamped
  }

  /** The decomposition rounds the whole instant once: fields, clamp and carries cancel. */
  lemma JdConversionRoundsOnce(jd: real)
    ensures JdUtToDatetimeUtc(jd) == RoundHalfEven((jd + 0.5) * DAY as real)
  {
    var day := (jd + 0.5).Floor;
    var h := (jd + 0.5 - day as real) * 24.0;
    var hour := h.Floor;
    var rem := (h - hour as real) * 3600.0;
    var minute := (rem / 60.0).Floor;
    var sec := rem - minute as real * 60.0;
    var second := sec.Floor;
    var frac := (sec - second as real) * 1_000_000.0;
    var base := day * DAY + hour * HOUR + minute * MINUTE + second * 1_000_000;
    EvenBase(day, hour, minute, second);
    FieldsAddUp(jd + 0.5, day, hour, minute, second);
    RoundShift(frac, base);
    RoundMonotone(frac, 1_000_000.0);
  }

  lemma EvenBase(day: int, hour: int, minute: int, second: int)
    ensures (day * DAY + hour * HOUR + minute * MINUTE + second * 1_000_000) % 2 == 0
  {
    assert day * DAY + hour * HOUR + minute * MINUTE + second * 1_000_000
        == 2 * (day * 43_200_000_000 + hour * 1_800_000_000 + minute * 30_000_000 + second * 500_000);
  }

  /** The fields and the rest are the whole again. */
  lemma FieldsAddUp(days: real, day: int, hour: int, minute: int, second: int)
    ensures var rem := ((days - day as real) * 24.0 - hour as real) * 3600.0;
            var frac := (rem - minute as real * 60.0 - second as real) * 1_000_000.0;
            days * DAY as real == frac + (day * DAY + hour * HOUR + minute * MINUTE + second * 1_000_000) as real
  {
  }

  /** The conversion keeps the order of instants and moves each by at most half a microsecond. */
  lemma JdConversionKeepsOrder(a: real, b: real)
    requires a <= b
    ensures JdUtToDatetimeUtc(a) <= JdUtToDatetimeUtc(b)
    ensures (b - a) * DAY as real - 1.0
         <= (JdUtToDatetimeUtc(b) - JdUtToDatetimeUtc(a)) as real
         <= (b - a) * DAY as real + 1.0
  {
    JdConversionRoundsOnce(a);
    JdConversionRoundsOnce(b);
    RoundMonotone((a + 0.5) * DAY as real, (b + 0.5) * DAY as real);
    RoundNearest((a + 0.5) * DAY as real);
    RoundNearest((b + 0.5) * DAY as real);
  }

  /** datetime_utc_to_jd_ut on exact arithmetic */
  function DatetimeUtcToJdUt(utc: int): real {
    utc as real / DAY as real - 0.5
  }

  /** Going back to a datetime restores it. */
  lemma JdRoundTrip(utc: int)
    ensures JdUtToDatetimeUtc(DatetimeUtcToJdUt(utc)) == utc
  {
    JdConversionRoundsOnce(DatetimeUtcToJdUt(utc));
    assert (DatetimeUtcToJdUt(utc) + 0.5) * DAY as real == utc as real;
  }
}
