/** A Sun and a Moon in uniform motion: the assumptions about the sky hold together, for every
    year, and with the shipped ruleset every request on that sky is ready. */
module MeanSky {
  import opened Circle
  import opened Outcome
  import opened Gregorian
  import opened Ephemeris
  import opened Jieqi
  import opened RealYears
  import opened Sexagenary
  import opened Clock
  import opened Zone
  import opened LocalTime
  import opened Bazi
  import opened DayunAnchor
  import opened Dayun
  import opened CurrentDecade
  import Lunation

  /** LiChun of 1984, on 5 February. */
  const EPOCH := 2445735.5

  const DEGREES_PER_DAY := 360.0 / MEAN_YEAR_DAYS

  function MeanSun(): Sun {
    Sun((jd: real) => LICHUN + DEGREES_PER_DAY * (jd - EPOCH), (lon: real) => EPOCH + (lon - LICHUN) / DEGREES_PER_DAY)
  }

  function MeanBackend(): Backend {
    Backend(MeanSun(), (target: real, jd: real) => Some(NextCrossing(MeanSun(), target, jd)))
  }

  lemma MeanSunMoves()
    ensures Moves(MeanSun())
  {
    assert SLOWEST <= DEGREES_PER_DAY <= FASTEST;
    forall a, b | a <= b ensures SLOWEST * (b - a) <= Travelled(MeanSun(), a, b) <= FASTEST * (b - a) {
      assert Travelled(MeanSun(), a, b) == DEGREES_PER_DAY * (b - a);
    }
    forall x ensures Inverse(MeanSun(), x) {
    }
  }

  lemma MeanBackendIsDirect()
    ensures Direct(MeanBackend())
  {
    MeanSunMoves();
  }

  /** In uniform motion at the Gregorian year LiChun keeps inside its calendar year forever. */
  lemma MeanLiChun(y: int)
    ensures LiChunInside(MeanSun(), y)
  {
    LiChunTime(y);
    NewYearNear(y);
    NewYearNear(y + 1);
  }

  lemma LiChunTime(y: int)
    ensures JieTime(MeanSun(), 12 * y) == EPOCH + MEAN_YEAR_DAYS * (y - CYCLE_YEAR) as real
  {
    assert LICHUN + 30.0 * (12 * y - 12 * CYCLE_YEAR) as real == LICHUN + 360.0 * (y - CYCLE_YEAR) as real;
  }

  lemma NewYearNear(y: int)
    ensures Abs(NewYearJd(y) + 35.0 - EPOCH - MEAN_YEAR_DAYS * (y - CYCLE_YEAR) as real) <= 3.0
  {
    assert JdnGregorian(1984, 1, 1) == 2445701;
    YearDrift(1984, y, 1, 1);
  }

  /** So on every clock there is a sky under which all requests get their pillars. */
  lemma SkyExists(clock: ChartClock) returns (marks: int -> int)
    requires OffsetsInRange(clock)
    ensures Direct(MeanBackend()) && Sky(marks, MeanBackend(), clock)
  {
    MeanSunMoves();
    forall y: int ensures LiChunInside(MeanSun(), y) {
      MeanLiChun(y);
    }
    marks := MarksExist(MeanSun(), clock);
  }

  /** With the shipped ruleset every request that can be parsed gets all its pillars on that sky. */
  lemma EveryRequestIsReady(inp: Input) returns (marks: int -> int)
    requires ChartTimeFor(inp).Ok? && OffsetsInRange(ChartTimeFor(inp).value.clock)
    requires InCalendar(ChartTimeFor(inp).value.wall)
    ensures Ready(marks, MeanBackend(), Some(STANDARD_BAZI_2026), inp, ChartTimeFor(inp).value)
  {
    marks := SkyExists(ChartTimeFor(inp).value.clock);
    ReadyUnder(marks, inp);
  }

  lemma ReadyUnder(marks: int -> int, inp: Input)
    requires ChartTimeFor(inp).Ok? && InCalendar(ChartTimeFor(inp).value.wall)
    requires Direct(MeanBackend()) && Sky(marks, MeanBackend(), ChartTimeFor(inp).value.clock)
    ensures Ready(marks, MeanBackend(), Some(STANDARD_BAZI_2026), inp, ChartTimeFor(inp).value)
  {
    StandardRulesetConforms();
    ShippedAnchor();
  }

  /** The same Sun behind a backend without a direct search. */
  function ScanOnlyBackend(): Backend {
    Backend(MeanSun(), (target: real, jd: real) => None)
  }

  const LATE_SUMMER := 2445916 * DAY

  /** A birth whose next solar term is Li Qiu (index 12): by the scan alone it is called Li Chun. */
  lemma LiQiuIsCalledLiChun()
    ensures var birth := DatetimeUtcToJdUt(LATE_SUMMER);
            && Fallback(ScanOnlyBackend()) && Clear(MeanSun(), birth)
            && TermIndex(AdjacentTerm(MeanSun(), birth, Forward)) == 12
            && ScanName(MeanSun(), birth, Forward) == 0
  {
    var s, birth := MeanSun(), DatetimeUtcToJdUt(LATE_SUMMER);
    MeanSunMoves();
    assert birth == EPOCH + 180.0;
    assert 15.0 * 32.0 < s.lon(birth) < 15.0 * 33.0;
    assert (s.lon(birth) / 15.0).Floor == 32;
    assert AdjacentTerm(s, birth, Forward) == 33;
    assert 2.0 < TermTimeOf(s, 33) - birth < 3.0;
    assert TermTimeOf(s, 32) < birth - 2.0;
    forall n ensures Abs(TermTimeOf(s, n) - birth) > SLACK {
      if n > 33 {
        TermsApart(s, 33, n);
      } else if n < 32 {
        TermsApart(s, n, 32);
      }
      HalvedNonNegative(1.0, 81);
      assert SLACK <= 1.0;
    }
  }

  // ---- a year of another length ----

  const TROPICAL_YEAR_DAYS := 365.2422

  const TROPICAL_DEGREES_PER_DAY := 360.0 / TROPICAL_YEAR_DAYS

  /** A Sun that keeps the tropical year instead of the calendar's mean year. */
  function TropicalSun(): Sun {
    Sun((jd: real) => LICHUN + TROPICAL_DEGREES_PER_DAY * (jd - EPOCH),
        (lon: real) => EPOCH + (lon - LICHUN) / TROPICAL_DEGREES_PER_DAY)
  }

  lemma TropicalSunMoves()
    ensures Moves(TropicalSun())
  {
    assert SLOWEST <= TROPICAL_DEGREES_PER_DAY <= FASTEST;
    forall a, b | a <= b ensures SLOWEST * (b - a) <= Travelled(TropicalSun(), a, b) <= FASTEST * (b - a) {
      assert Travelled(TropicalSun(), a, b) == TROPICAL_DEGREES_PER_DAY * (b - a);
    }
    forall x ensures Inverse(TropicalSun(), x) {
    }
  }

  lemma TropicalLiChun(y: int)
    requires -1 <= y <= 10000
    ensures LiChunInside(TropicalSun(), y)
  {
    assert LICHUN + 30.0 * (12 * y - 12 * CYCLE_YEAR) as real == LICHUN + 360.0 * (y - CYCLE_YEAR) as real;
    assert JieTime(TropicalSun(), 12 * y) == EPOCH + TROPICAL_YEAR_DAYS * (y - CYCLE_YEAR) as real;
    NewYearNear(y);
    NewYearNear(y + 1);
  }

  /** It meets the assumption as well: over the calendar's years it drifts by less than three days. */
  lemma TropicalSunHasLiChun()
    ensures LiChunEachYear(TropicalSun())
  {
    TropicalSunMoves();
    forall y: int | -1 <= y <= 10000 ensures LiChunInside(TropicalSun(), y) {
      TropicalLiChun(y);
    }
  }

  // ---- a month that goes back ----

  /** LiChun of 1984 as a UTC datetime. */
  const LICHUN_1984 := 2445736 * DAY

  /** A zone that sets its clocks back by an hour half an hour after that LiChun. */
  function AutumnZone(lichun: int): Zone {
    Zone(HOUR, [Transition(lichun + 30 * MINUTE, 0)])
  }

  /** Ten minutes after LiChun its clock shows 70 minutes past, forty minutes after it shows 40, and
      LiChun itself is read as 60 minutes past. */
  lemma AutumnReadings(lichun: int)
    ensures var z := AutumnZone(lichun);
            && ToLocal(z, lichun) == lichun + 60 * MINUTE
            && ToUtc(z, lichun + 70 * MINUTE, First) == lichun + 10 * MINUTE
            && ToUtc(z, lichun + 40 * MINUTE, Second) == lichun + 40 * MINUTE
            && RoundtripOk(z, lichun + 70 * MINUTE, First) && RoundtripOk(z, lichun + 40 * MINUTE, Second)
  {
    var z := AutumnZone(lichun);
    assert WindowStart(z, 0) == lichun + 30 * MINUTE && WindowEnd(z, 0) == lichun + 90 * MINUTE;
    assert UtcMarks(z) == [lichun + 30 * MINUTE];
    assert WallMarks(z, First) == [lichun + 90 * MINUTE] && WallMarks(z, Second) == [lichun + 30 * MINUTE];
  }

  function CivilBirth(z: Zone, wall: int, fold: Fold): Input {
    Input(wall, z, true, fold, 0.0, 0.0, Civil, Midnight, 1.0, None, None)
  }

  lemma LiChunOf1984()
    ensures JieUtc(MeanSun(), 12 * 1984) == LICHUN_1984
  {
    LiChunTime(1984);
    assert DatetimeUtcToJdUt(LICHUN_1984) == EPOCH;
    JdRoundTrip(LICHUN_1984);
  }

  /** On a clock that reads LiChun as `mark`, the month of a wall time within a day of it. */
  lemma MonthNearLiChun(marks: int -> int, clock: ChartClock, wall: int, n: int)
    requires Sky(marks, MeanBackend(), clock) && InMonth(marks, wall, n)
    requires -DAY < wall - ToChart(clock, LICHUN_1984) < DAY
    ensures n == if wall >= ToChart(clock, LICHUN_1984) then 12 * 1984 else 12 * 1984 - 1
  {
    LiChunOf1984();
    var m := 12 * 1984;
    assert marks(m) == JieOnChart(MeanSun(), clock, m) == ToChart(clock, LICHUN_1984);
    assert marks(m + 1) == JieOnChart(MeanSun(), clock, m + 1);
    assert marks(m - 1) == JieOnChart(MeanSun(), clock, m - 1);
    JieGap(MeanSun(), clock, m);
    JieGap(MeanSun(), clock, m - 1);
    JieMarksRise(marks, MeanSun(), clock);
    MonthsRun(marks, wall, wall, n, if wall >= marks(m) then m else m - 1);
  }

  /** The chart of a civil birth in the autumn zone. */
  method ChartNearLiChun(wall: int, fold: Fold, utc: int, ghost marks: int -> int) returns (c: Chart)
    requires Direct(MeanBackend()) && Sky(marks, MeanBackend(), ZoneClock(AutumnZone(LICHUN_1984)))
    requires InCalendar(wall) && ToUtc(AutumnZone(LICHUN_1984), wall, fold) == utc
    requires RoundtripOk(AutumnZone(LICHUN_1984), wall, fold)
    requires -DAY < wall - ToLocal(AutumnZone(LICHUN_1984), LICHUN_1984) < DAY
    ensures ChartTimeFor(CivilBirth(AutumnZone(LICHUN_1984), wall, fold)) == Ok(c.time)
    ensures c.time == ChartTime(ZoneClock(AutumnZone(LICHUN_1984)), wall, utc)
    ensures YearAndMonthPillars(marks, c)
    ensures MonthNumber(c.date.year, c.date.monthIndex)
         == if wall >= ToLocal(AutumnZone(LICHUN_1984), LICHUN_1984) then 12 * 1984 else 12 * 1984 - 1
  {
    var z := AutumnZone(LICHUN_1984);
    var inp := CivilBirth(z, wall, fold);
    assert ParseLocalIso(z, wall, true, fold) == Ok((wall, fold));
    assert ChartTimeFor(inp) == Ok(ChartTime(ZoneClock(z), wall, utc));
    ReadyUnder(marks, inp);
    var r := ComputeBazi(MeanBackend(), Some(STANDARD_BAZI_2026), inp, marks);
    c := r.value;
    MonthNearLiChun(marks, ZoneClock(z), wall, MonthNumber(c.date.year, c.date.monthIndex));
  }

  lemma YearOfLiChun(wall: int)
    requires LICHUN_1984 <= wall < LICHUN_1984 + DAY
    ensures InCalendar(wall)
  {
    assert YearStart(1984) == 2445701 * DAY && YearStart(1985) == 2446067 * DAY;
    YearOfWall(wall, 1984);
  }

  lemma PillarsAroundLiChun()
    ensures YearPillar(1984) == Pillar(0, 0) && CycleMonth(1984, 0) == Pillar(2, 2)
    ensures YearPillar(1983) == Pillar(9, 11) && CycleMonth(1983, 11) == Pillar(1, 1)
  {
    YearPillarOf(1984);
    YearPillarOf(1983);
  }

  /** Wall readings decide, so in a repeated hour month and year can go back: of two births in that zone
      the earlier one has the first month of 1984 and the later one the last month of 1983. */
  method MonthGoesBack() returns (early: Chart, late: Chart, ghost marks: int -> int)
    ensures ChartTimeFor(CivilBirth(AutumnZone(LICHUN_1984), LICHUN_1984 + 70 * MINUTE, First)) == Ok(early.time)
    ensures ChartTimeFor(CivilBirth(AutumnZone(LICHUN_1984), LICHUN_1984 + 40 * MINUTE, Second)) == Ok(late.time)
    ensures Sky(marks, MeanBackend(), early.time.clock)
    ensures YearAndMonthPillars(marks, early) && YearAndMonthPillars(marks, late)
    ensures early.time.utc + 30 * MINUTE == late.time.utc
    ensures early.pillars.year == Pillar(0, 0) && early.pillars.month == Pillar(2, 2)
    ensures late.pillars.year == Pillar(9, 11) && late.pillars.month == Pillar(1, 1)
    ensures early.date.year == 1984 && early.date.monthIndex == 0
    ensures late.date.year == 1983 && late.date.monthIndex == 11
  {
    AutumnReadings(LICHUN_1984);
    YearOfLiChun(LICHUN_1984 + 70 * MINUTE);
    YearOfLiChun(LICHUN_1984 + 40 * MINUTE);
    assert OffsetsInRange(ZoneClock(AutumnZone(LICHUN_1984)));
    marks := SkyExists(ZoneClock(AutumnZone(LICHUN_1984)));
    early := ChartNearLiChun(LICHUN_1984 + 70 * MINUTE, First, LICHUN_1984 + 10 * MINUTE, marks);
    PillarsAroundLiChun();
    late := ChartNearLiChun(LICHUN_1984 + 40 * MINUTE, Second, LICHUN_1984 + 40 * MINUTE, marks);
  }

  // ---- a decade that is marked before it begins ----

  /** 1 February 1984, 23:43 UTC: three days and seventeen minutes before LiChun. */
  const BIRTH := 2445736 * DAY - 4337 * MINUTE

  const UTC := Zone(0, [])

  function BirthInUtc(): Input {
    Input(BIRTH, UTC, true, First, 0.0, 0.0, Civil, Midnight, 1.0, None, None)
  }

  /** In UTC wall times are instants. */
  lemma UtcIsUtc(wall: int, fold: Fold)
    ensures ToUtc(UTC, wall, fold) == wall && ToLocal(UTC, wall) == wall
  {
    assert WallMarks(UTC, fold) == [] && UtcMarks(UTC) == [];
  }

  lemma TimeInUtc(inp: Input, wall: int)
    requires inp.zone == UTC && inp.standard == Civil && inp.birthLocal == wall
    ensures ChartTimeFor(inp) == Ok(ChartTime(ZoneClock(UTC), wall, wall))
  {
    UtcIsUtc(wall, inp.fold);
    assert RoundtripOk(UTC, wall, inp.fold);
    assert ParseLocalIso(UTC, wall, inp.strict, inp.fold) == Ok((wall, inp.fold));
    assert ClockFor(inp) == Ok(ZoneClock(UTC));
  }

  lemma UtcInRange()
    ensures OffsetsInRange(ZoneClock(UTC))
  {
  }

  lemma BirthDate()
    ensures DayOf(BIRTH) == 2445732 && BIRTH % DAY == DAY - 17 * MINUTE
    ensures DateOfWall(BIRTH) == Date(1984, 2, 1)
  {
    assert BIRTH == 2445732 * DAY + (DAY - 17 * MINUTE);
    assert Jdn(Date(1984, 2, 1)) == 2445732;
    JdnOrdersDates(Date(1984, 2, 1), Date(1984, 2, 1));
  }

  /** Its next term is LiChun itself, ... */
  lemma BirthBeforeLiChun()
    ensures AdjacentTerm(MeanSun(), DatetimeUtcToJdUt(BIRTH), Forward) == 21
    ensures TermTimeOf(MeanSun(), 21) == EPOCH
  {
    var birth := DatetimeUtcToJdUt(BIRTH);
    assert birth == EPOCH - 4337.0 / 1440.0;
    assert 15.0 * 20.0 < MeanSun().lon(birth) < 15.0 * 21.0;
    assert (MeanSun().lon(birth) / 15.0).Floor == 20;
  }

  /** ... 4337 minutes away, which makes a little over one year, shown as 1.00. */
  const LATE_START := 4337.0 / 4320.0

  lemma BirthAge()
    ensures var a := SplitDelta(0, EPOCH, BIRTH);
            && a.days == 3 && a.hours == 0 && a.minutes == 17
            && ComputeStartAge(a.days, a.hours, a.minutes).decimalYears == LATE_START
    ensures Round2(LATE_START) == 1.0
  {
    assert DatetimeUtcToJdUt(2445736 * DAY) == EPOCH;
    JdRoundTrip(2445736 * DAY);
    assert 2445736 * DAY / SECOND * SECOND == 2445736 * DAY;
    ThreeDaysAYear(3, 0, 17);
    assert (LATE_START * 100.0).Floor == 100;
  }

  lemma LateStartParts()
    ensures Trunc(LATE_START) == 1
    ensures FractionMicroseconds(LATE_START - 1.0) == 124182450000
  {
    assert LATE_START.Floor == 1;
    assert (LATE_START - 1.0) * MEAN_YEAR_DAYS * DAY as real == 124182450000 as real;
  }

  lemma BirthdayIn1985()
    ensures AnniversaryDay(Date(1984, 2, 1), 1985) == 2446098
  {
  }

  /** The calendar reaches that age on 3 February 1985. */
  lemma BirthBoundary()
    ensures RealYearsDay(BIRTH, LATE_START) == 2446100
  {
    BirthDate();
    LateStartParts();
    BirthdayIn1985();
    RealYearsDayParts(BIRTH, LATE_START);
    assert YearReached(BIRTH, LATE_START) == 1985;
    assert Extra(BIRTH, LATE_START) == DAY - 17 * MINUTE + 124182450000;
  }

  lemma HasDatesInRange(birth: int, flow: Flow, count: nat)
    requires 1 <= DateOfWall(birth).year <= MAX_YEAR - 12 - 10 * count
    ensures HasDates(MeanSun(), birth, birth, flow, count)
  {
    MeanSunMoves();
    var n := AdjacentTerm(MeanSun(), DatetimeUtcToJdUt(birth), flow);
    AdjacentIsNearest(MeanSun(), DatetimeUtcToJdUt(birth), flow, n);
    StartAgeIsShort(TermIndex(n), TermTimeOf(MeanSun(), n), birth);
    DatesInRange(birth, AgeFromTerm(MeanSun(), birth, flow), count);
  }

  /** A civil birth in UTC whose decades end within the calendar gets them on this sky. */
  method DayunInUtc(inp: Input, birth: int, flow: Flow, count: nat, asOf: int) returns (d: Dayun)
    requires inp.zone == UTC && inp.standard == Civil && inp.birthLocal == birth
    requires 1 <= DateOfWall(birth).year <= MAX_YEAR - 12 - 10 * count
    ensures AreDecadesOf(MeanBackend(), inp, count, d) && d.flow == flow && d.chart.time.utc == birth
    ensures IsMarked(d.cycles, birth, asOf)
  {
    TimeInUtc(inp, birth);
    UtcInRange();
    ghost var marks := EveryRequestIsReady(inp);
    forall f ensures HasDates(MeanBackend().sun, birth, birth, f, count) {
      HasDatesInRange(birth, f, count);
    }
    var r := CalculateDayun(MeanBackend(), Some(STANDARD_BAZI_2026), inp, Explicit(Some(flow)), count, asOf, marks);
    d := r.value;
  }

  lemma BirthAnchor(a: Anchor)
    requires IsAnchor(MeanBackend(), BIRTH, Forward, a)
    ensures ComputeStartAge(a.days, a.hours, a.minutes).decimalYears == LATE_START
  {
    MeanBackendIsDirect();
    BirthBeforeLiChun();
    BirthAge();
  }

  lemma FirstDecadeOfBirth(info: Info)
    requires Aged(info, LATE_START, 0) && Dated(info, BIRTH, LATE_START, 0)
    ensures Jdn(info.dateStart) == 2446100
    ensures MarkedOn(info, BIRTH, 2446099)
  {
    assert AgeAt(LATE_START, 0) == LATE_START && AgeAt(LATE_START, 1) == LATE_START + 10.0;
    AddRealYearsDay(BIRTH, LATE_START);
    BirthBoundary();
    BirthAge();
    Round2Shift(LATE_START);
    assert AgeOn(BIRTH, 2446099 * DAY) * MEAN_YEAR_DAYS == 363.0 + 4337.0 / 1440.0;
  }

  lemma DecadesOfBirth(d: Dayun)
    requires AreDecadesOf(MeanBackend(), BirthInUtc(), 8, d)
    requires d.flow == Forward && d.chart.time.utc == BIRTH
    ensures d.startAge.decimalYears == LATE_START
    ensures Jdn(d.cycles[0].info.dateStart) == 2446100
    ensures MarkedOn(d.cycles[0].info, BIRTH, 2446099)
    ensures !AllSound(Infos(d.cycles), BIRTH)
  {
    BirthAnchor(d.anchor);
    var info := Infos(d.cycles)[0];
    assert IsDecade(info, BIRTH, d.chart.pillars.month, Forward, LATE_START, 0);
    FirstDecadeOfBirth(info);
    assert !HeldOn(info, 2446099);
    assert !MarkIsSound(info, BIRTH);
  }

  /** Of this birth the first decade is marked as current on 2 February 1985, one day before its own
      first date. */
  method MarkedBeforeItsDates() returns (d: Dayun)
    ensures AreDecadesOf(MeanBackend(), BirthInUtc(), 8, d) && d.chart.time.utc == BIRTH
    ensures d.cycles[0].isCurrent
    ensures d.startAge.decimalYears == LATE_START
    ensures Jdn(d.cycles[0].info.dateStart) == 2446100
    ensures IsMarked(d.cycles, BIRTH, 2446099 * DAY)
    ensures !AllSound(Infos(d.cycles), BIRTH)
  {
    BirthDate();
    d := DayunInUtc(BirthInUtc(), BIRTH, Forward, 8, 2446099 * DAY);
    DecadesOfBirth(d);
  }

  const ELONGATION_PER_DAY := 12.19

  function MeanMoon(): Lunation.Provider {
    Lunation.Provider((t: real) => ELONGATION_PER_DAY * t, (t: real) => ELONGATION_PER_DAY,
                      (x: real) => x / ELONGATION_PER_DAY)
  }

  lemma MeanMoonIsSmooth()
    ensures Lunation.Smooth(MeanMoon())
  {
    var p := MeanMoon();
    forall a, b | a <= b
      ensures Lunation.SLOWEST_MOON * (b - a) <= Lunation.Travelled(p, a, b) <= Lunation.FASTEST_MOON * (b - a)
    {
      assert Lunation.Travelled(p, a, b) == ELONGATION_PER_DAY * (b - a);
    }
    forall x ensures p.elongation(p.time(x)) == x {
    }
    forall a, b ensures Abs(Lunation.TangentGap(p, a, b)) <= Lunation.HalfSquare(b - a) {
      assert Lunation.TangentGap(p, a, b) == 0.0;
      SquareNonNegative(b - a);
    }
  }

  /** Half a second before a new moon the mean Moon gets no lunation. */
  method LastSecondRaises() returns (r: Result<Lunation.Metrics>)
    ensures r == Err(CalculationError)
  {
    MeanMoonIsSmooth();
    var newMoon := 360.0 / ELONGATION_PER_DAY;
    var jd := newMoon - 0.5 / 86400.0;
    var elongation := ELONGATION_PER_DAY * jd;
    assert 359.0 < elongation < 360.0;
    Mod360Is(elongation, 0);
    assert (elongation / 360.0).Floor == 0;
    assert Lunation.Cycle(MeanMoon(), jd) == 0;
    assert Lunation.NewMoon(MeanMoon(), 1) == newMoon;
    r := Lunation.LunationMetrics(MeanMoon(), jd, elongation, ELONGATION_PER_DAY);
  }

  lemma SquareNonNegative(x: real)
    ensures x * x >= 0.0
  {
  }
}
