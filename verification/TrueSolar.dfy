/** Apparent solar time: one shift of the UTC instant by longitude and equation of time,
    read as a bare wall clock. */
module TrueSolar {
  import opened Circle
  import opened Clock
  import opened Branches

  datatype Context = Context(tlstHours: real, dateRollover: int)

  /** timedelta(minutes=...): rounded to the nearest microsecond. */
  function Minutes(minutes: real): int {
    RoundHalfEven(minutes * MINUTE as real)
  }

  function SolarShift(longitudeDeg: real, eotMinutes: real): int {
    Minutes(longitudeDeg * 4.0 + eotMinutes)
  }

  /** The apparent solar wall clock of an instant. */
  function SolarWall(utc: int, longitudeDeg: real, eotMinutes: real): int {
    utc + SolarShift(longitudeDeg, eotMinutes)
  }

  /** The shift is four minutes for every degree east plus the equation of time, to the nearest
      microsecond. */
  lemma SolarShiftIs(utc: int, longitudeDeg: real, eotMinutes: real)
    ensures Abs((SolarWall(utc, longitudeDeg, eotMinutes) - utc) as real
                - (longitudeDeg * 4.0 + eotMinutes) * 60_000_000.0) <= 0.5
  {
    RoundNearest((longitudeDeg * 4.0 + eotMinutes) * MINUTE as real);
  }

  /** Hour of day to six decimals, truncated on the integer microsecond count. */
  function TruncatedHours(wall: int): (h: real)
    ensures 0.0 <= h < 24.0
  {
    ((wall % DAY) / 3600) as real / 1_000_000.0
  }

  function ExactHours(wall: int): real {
    (wall % DAY) as real / HOUR as real
  }

  /** Hours since the clock's own midnight, and the same cut off behind the sixth decimal. */
  lemma HoursSinceMidnight(wall: int)
    ensures ExactHours(wall) == (wall - 86_400_000_000 * DayOf(wall)) as real / 3_600_000_000.0
    ensures TruncatedHours(wall) == (ExactHours(wall) * 1_000_000.0).Floor as real / 1_000_000.0
  {
    assert wall % DAY == wall - DAY * DayOf(wall);
    ThousandthsOf(wall % DAY);
  }

  lemma ThousandthsOf(us: int)
    ensures (us as real / HOUR as real * 1_000_000.0).Floor == us / 3600
  {
    assert us as real / HOUR as real * 1_000_000.0 == us as real / 3600.0;
  }

  function EffectiveTimeContext(civilWall: int, utc: int, longitudeDeg: real, eotMinutes: real): Context {
    var tlstWall := SolarWall(utc, longitudeDeg, eotMinutes);
    Context(TruncatedHours(tlstWall), DayOf(tlstWall) - DayOf(civilWall))
  }

  /** Truncation to micro-hours leaves the hour branch and the zi test at 23:00 as they are
      on exact microseconds, and both are those of the wall clock itself. */
  lemma TruncationKeepsDecisions(wall: int)
    ensures HourBranchIndexFromTlst(TruncatedHours(wall)) == HourBranchIndexFromTlst(ExactHours(wall))
    ensures HourBranchIndexFromTlst(TruncatedHours(wall)) == ((HourOf(wall) + 1) / 2) % 12
    ensures TruncatedHours(wall) >= 23.0 <==> ExactHours(wall) >= 23.0
    ensures TruncatedHours(wall) >= 23.0 <==> HourOf(wall) == 23
    ensures TruncatedHours(wall) <= ExactHours(wall) < TruncatedHours(wall) + 0.000001
  {
    var us := wall % DAY;
    var h := us / HOUR;
    assert h == HourOf(wall);
    assert h * 1_000_000 <= us / 3600 < (h + 1) * 1_000_000;
    assert h as real <= TruncatedHours(wall) <= ExactHours(wall) < (h + 1) as real;
    HourBranchOfHour(TruncatedHours(wall), h);
    HourBranchOfHour(ExactHours(wall), h);
  }

  /** The branch depends only on the whole hour. */
  lemma HourBranchOfHour(hours: real, h: int)
    requires 0 <= h < 24 && h as real <= hours < (h + 1) as real
    ensures HourBranchIndexFromTlst(hours) == ((h + 1) / 2) % 12
  {
    var days := if h == 23 then 1 else 0;
    Mod24Is(hours + 1.0, days);
    var x := Mod24(hours + 1.0);
    var k := (h + 1 - 24 * days) / 2;
    assert k as real <= x / 2.0 < (k + 1) as real;
    assert (x / 2.0).Floor == k;
  }

  /** The first microsecond of the day at or past a start hour. */
  function FirstAtOrPast(startHour: real): int {
    -((-(startHour * HOUR as real)).Floor)
  }

  /** For a start hour other than 23 the truncated test agrees with the exact one on every
      wall clock if and only if the day's first microsecond at or past it is a whole number of
      micro-hours, or lies outside the day. */
  lemma TruncationAtStartHour(startHour: real)
    ensures (forall wall: int :: TruncatedHours(wall) >= startHour <==> ExactHours(wall) >= startHour)
       <==> (FirstAtOrPast(startHour) % 3600 == 0 || FirstAtOrPast(startHour) <= 0
             || FirstAtOrPast(startHour) >= DAY)
  {
    var f := FirstAtOrPast(startHour);
    assert (f - 1) as real < startHour * HOUR as real <= f as real;
    forall wall: int
      ensures ExactHours(wall) >= startHour <==> wall % DAY >= f
      ensures TruncatedHours(wall) >= startHour <==> (wall % DAY) / 3600 * 3600 >= f
    {
      StartHourInMicroseconds(wall % DAY, startHour);
      StartHourInMicroseconds((wall % DAY) / 3600 * 3600, startHour);
      assert TruncatedHours(wall) == ((wall % DAY) / 3600 * 3600) as real / HOUR as real;
    }
    if 0 < f < DAY && f % 3600 != 0 {
      assert f % DAY == f;
      assert ExactHours(f) >= startHour && !(TruncatedHours(f) >= startHour);
    }
  }

  lemma StartHourInMicroseconds(us: int, startHour: real)
    ensures us as real / HOUR as real >= startHour <==> us >= FirstAtOrPast(startHour)
  {
    var f := FirstAtOrPast(startHour);
    assert (f - 1) as real < startHour * HOUR as real <= f as real;
    assert us as real / HOUR as real >= startHour <==> us as real >= startHour * HOUR as real;
  }

  /** Civil date plus rollover is the apparent solar date; for real places, zones and equations of
      time the rollover is between -2 and 2. */
  lemma RolloverIsSolarDate(civilWall: int, utc: int, longitudeDeg: real, eotMinutes: real)
    requires -180.0 <= longitudeDeg <= 180.0 && -20.0 < eotMinutes < 20.0
    requires -12 * HOUR <= civilWall - utc <= 14 * HOUR
    ensures var ctx := EffectiveTimeContext(civilWall, utc, longitudeDeg, eotMinutes);
            && -2 <= ctx.dateRollover <= 2
            && DayOf(civilWall) + ctx.dateRollover == DayOf(SolarWall(utc, longitudeDeg, eotMinutes))
            && ctx.tlstHours == TruncatedHours(SolarWall(utc, longitudeDeg, eotMinutes))
  {
    RoundNearest((longitudeDeg * 4.0 + eotMinutes) * MINUTE as real);
  }

  /** Both extreme rollovers occur. */
  lemma RolloverExtremes()
    ensures EffectiveTimeContext(2 * DAY, 2 * DAY - 14 * HOUR, -180.0, -16.0).dateRollover == -2
    ensures EffectiveTimeContext(2 * DAY - MINUTE, 2 * DAY - MINUTE + 12 * HOUR, 180.0, 16.0).dateRollover == 2
  {
    assert ((-180.0 * 4.0 - 16.0) * MINUTE as real).Floor == -736 * MINUTE;
    assert ((180.0 * 4.0 + 16.0) * MINUTE as real).Floor == 736 * MINUTE;
  }
}
