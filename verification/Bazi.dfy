/** The four pillars of an instant: solar year and month by crossings of the Sun, day and hour
    by the chart's wall clock. */
module Bazi {
  import opened Circle
  import opened Outcome
  import opened Gregorian
  import opened Clock
  import opened Ephemeris
  import opened Jieqi
  import opened SolarTerms
  import opened Zone
  import opened LocalTime
  import opened Branches
  import opened TrueSolar
  import opened Sexagenary

  datatype TimeStandard = Civil | Lmt | Tlst

  datatype DayBoundary = Midnight | Zi

  /** The clock of a chart: the civil zone, or a constant offset for local mean time. */
  datatype ChartClock = ZoneClock(z: Zone) | MeanClock(offset: int)

  function ToChart(clock: ChartClock, utc: int): int {
    match clock
    case ZoneClock(z) => ToLocal(z, utc)
    case MeanClock(offset) => utc + offset
  }

  /** Python's tzinfo offsets lie strictly between -24 and 24 hours. */
  ghost predicate OffsetsInRange(clock: ChartClock) {
    match clock
    case ZoneClock(z) => forall k :: 0 <= k <= |z.transitions| ==> -DAY < OffsetAfter(z, k) < DAY
    case MeanClock(offset) => -DAY < offset < DAY
  }

  lemma ChartNearUtc(clock: ChartClock, utc: int)
    requires OffsetsInRange(clock)
    ensures -DAY < ToChart(clock, utc) - utc < DAY
  {
  }

  // ---- day and hour ----

  function ApplyDayBoundary(wall: int, boundary: DayBoundary): int {
    if boundary == Zi then wall + HOUR else wall
  }

  function HourBranchIndex(wall: int): int {
    ((HourOf(wall) + 1) / 2) % 12
  }

  const ZI_START_HOUR := 23.0

  function ZiStart(ruleset: Option<Ruleset>): real {
    if ruleset.Some? && ruleset.value.ziStartHour.Some? then ruleset.value.ziStartHour.value else ZI_START_HOUR
  }

  /** The wall time whose date gives the day pillar. */
  function WallForDay(chart: int, boundary: DayBoundary, ruleset: Option<Ruleset>, ctx: Option<Context>): int {
    match ctx
    case None => ApplyDayBoundary(chart, boundary)
    case Some(c) =>
      var solarDay := chart + c.dateRollover * DAY;
      if boundary != Zi then solarDay
      else if c.tlstHours >= ZiStart(ruleset) then solarDay + DAY
      else solarDay
  }

  function BranchOfHour(chart: int, ctx: Option<Context>): (branch: int)
    ensures 0 <= branch < 12
  {
    match ctx
    case None => HourBranchIndex(chart)
    case Some(c) => HourBranchIndexFromTlst(c.tlstHours)
  }

  /** Two-hour stretches since the calendar began, each starting at an odd hour. */
  function DoubleHour(wall: int): int {
    (wall + HOUR) / (2 * HOUR)
  }

  lemma DoubleHourParts(wall: int)
    ensures DoubleHour(wall) == 12 * DayOf(wall + HOUR) + HourBranchIndex(wall)
    ensures 0 <= HourBranchIndex(wall) < 12
    ensures DayOf(wall + HOUR) == DayOf(wall) + if HourOf(wall) == 23 then 1 else 0
  {
    var day, rest := wall / DAY, wall % DAY;
    var h := rest / HOUR;
    assert wall == DAY * day + rest && rest == HOUR * h + rest % HOUR;
    var over := if h == 23 then 1 else 0;
    assert DayOf(wall + HOUR) == day + over;
    assert DoubleHour(wall) == 12 * day + (h + 1) / 2;
  }

  lemma DayShift(wall: int, days: int)
    ensures DayOf(wall + days * DAY) == DayOf(wall) + days
  {
  }

  /** A true-solar chart decides its day and its hour branch exactly as a civil chart on the
      apparent solar clock would. */
  lemma SolarChartFollowsSolarClock(civil: int, utc: int, longitude: real, eot: real, boundary: DayBoundary,
                                    ruleset: Option<Ruleset>)
    requires ZiStart(ruleset) == ZI_START_HOUR
    ensures var ctx := Some(EffectiveTimeContext(civil, utc, longitude, eot));
            var solar := SolarWall(utc, longitude, eot);
            && DayOf(WallForDay(civil, boundary, ruleset, ctx)) == DayOf(WallForDay(solar, boundary, ruleset, None))
            && BranchOfHour(civil, ctx) == BranchOfHour(solar, None)
  {
    var ctx := EffectiveTimeContext(civil, utc, longitude, eot);
    var solar := SolarWall(utc, longitude, eot);
    TruncationKeepsDecisions(solar);
    DoubleHourParts(solar);
    DayShift(civil, ctx.dateRollover);
    DayShift(civil + ctx.dateRollover * DAY, 1);
  }

  /** The hour at which the solar day turns under the zi boundary: the ruleset's, or 23. */
  ghost predicate DeclaresZiStart(ruleset: Option<Ruleset>, startHour: real) {
    if ruleset.Some? && ruleset.value.ziStartHour.Some? then ruleset.value.ziStartHour == Some(startHour)
    else startHour == 23.0
  }

  /** The day of a solar clock that turns at a start hour. */
  function SolarDay(solar: int, boundary: DayBoundary, startHour: real): int {
    DayOf(solar) + if boundary == Zi && TruncatedHours(solar) >= startHour then 1 else 0
  }

  /** For any start hour the solar date and the solar hour decide. */
  lemma SolarDayTurnsAt(civil: int, utc: int, longitude: real, eot: real, boundary: DayBoundary,
                        ruleset: Option<Ruleset>, startHour: real)
    requires DeclaresZiStart(ruleset, startHour)
    ensures var ctx := Some(EffectiveTimeContext(civil, utc, longitude, eot));
            var solar := SolarWall(utc, longitude, eot);
            && DayOf(WallForDay(civil, boundary, ruleset, ctx)) == SolarDay(solar, boundary, startHour)
            && BranchOfHour(civil, ctx) == HourBranchIndex(solar)
  {
    var ctx := EffectiveTimeContext(civil, utc, longitude, eot);
    TruncationKeepsDecisions(SolarWall(utc, longitude, eot));
    DayShift(civil, ctx.dateRollover);
    DayShift(civil + ctx.dateRollover * DAY, 1);
  }

  /** Day and hour pillars of a numbered day and a branch. */
  ghost predicate OfNumberedDay(number: int, branch: int, day: Pillar, hour: Pillar) {
    day == PillarFromIndex60(number) && hour == PillarFromIndex60(12 * number + branch)
  }

  lemma NumberedDay(wall: int, offset: int, branch: nat, ruleset: Option<Ruleset>)
    requires Conforms(ruleset) && branch < 12
    ensures var day := PillarFromIndex60(DayIndex(DateOfWall(wall), offset));
            var hour := HourPillar(day.stem, branch, ruleset);
            hour.Ok? && OfNumberedDay(DayOf(wall) + offset, branch, day, hour.value)
  {
    DateOfDay(DayOf(wall));
    PillarDeterminesIndex(DayOf(wall) + offset, 0);
    HourPillarWalksCycle(DayOf(wall) + offset, branch, ruleset);
  }

  /** The clock that decides day and hour. */
  function DecidingWall(chart: int, utc: int, longitude: real, eot: real, standard: TimeStandard): int {
    if standard == Tlst then SolarWall(utc, longitude, eot) else chart
  }

  /** Under the zi boundary day and hour are both read off the running double hour, so the hour
      pillar moves one step every two hours and the day turns when the branch becomes Zi. Under
      the midnight boundary only the hours 23:00 to 24:00 differ, by twelve steps. */
  ghost predicate FollowsDoubleHours(wall: int, boundary: DayBoundary, offset: int, day: Pillar, hour: Pillar) {
    var late := if boundary == Midnight && HourOf(wall) == 23 then 1 else 0;
    && day == PillarFromIndex60(DoubleHour(wall) / 12 + offset - late)
    && hour == PillarFromIndex60(DoubleHour(wall) + 12 * (offset - late))
  }

  lemma DayAndHourRun(wall: int, boundary: DayBoundary, offset: int, ruleset: Option<Ruleset>)
    requires Conforms(ruleset)
    ensures var day := PillarFromIndex60(DayIndex(DateOfWall(ApplyDayBoundary(wall, boundary)), offset));
            var hour := HourPillar(day.stem, HourBranchIndex(wall), ruleset);
            hour.Ok? && FollowsDoubleHours(wall, boundary, offset, day, hour.value)
  {
    DoubleHourParts(wall);
    NumberedDay(ApplyDayBoundary(wall, boundary), offset, HourBranchIndex(wall), ruleset);
  }

  // ---- solar year and month ----

  /** The M-th Jie, numbered so that 12y is the LiChun of year y. */
  function JieTime(s: Sun, m: int): real {
    s.time(LICHUN + 30.0 * (m - 12 * CYCLE_YEAR) as real)
  }

  /** Julian day of 1 January, 0h. */
  function NewYearJd(y: int): real {
    JdnGregorian(y, 1, 1) as real - 0.5
  }

  /** datetime's years run from 1 to 9999. */
  predicate InCalendar(wall: int) {
    1 <= DateOfWall(wall).year <= 9999
  }

  /** Every year a chart can have to do with has its LiChun at least two days away from both its ends. */
  ghost predicate LiChunEachYear(s: Sun) {
    Moves(s) && forall y: int :: -1 <= y <= 10000 ==> LiChunInside(s, y)
  }

  ghost predicate LiChunInside(s: Sun, y: int) {
    NewYearJd(y) + 2.0 <= JieTime(s, 12 * y) <= NewYearJd(y + 1) - 2.0
  }

  /** A Jie as the chart sees it: converted to a datetime and to the chart's clock. */
  function JieOnChart(s: Sun, clock: ChartClock, m: int): int {
    ToChart(clock, JdUtToDatetimeUtc(JieTime(s, m)))
  }

  function MonthNumber(solarYear: int, monthIndex: int): int {
    12 * solarYear + monthIndex
  }

  /** marks(m) is the chart time at which month m begins. */
  ghost predicate MarksChart(marks: int -> int, s: Sun, clock: ChartClock) {
    forall m {:trigger JieOnChart(s, clock, m)} :: marks(m) == JieOnChart(s, clock, m)
  }

  lemma MarksExist(s: Sun, clock: ChartClock) returns (marks: int -> int)
    ensures MarksChart(marks, s, clock)
  {
    marks := m => JieOnChart(s, clock, m);
  }

  ghost predicate InMonth(marks: int -> int, chart: int, m: int) {
    marks(m) <= chart < marks(m + 1)
  }

  ghost predicate Rising(marks: int -> int) {
    forall m, n {:trigger marks(m), marks(n)} :: m < n ==> marks(m) < marks(n)
  }

  lemma JieGap(s: Sun, clock: ChartClock, m: int)
    requires Moves(s) && OffsetsInRange(clock)
    ensures JieTime(s, m) + 27.0 <= JieTime(s, m + 1)
    ensures JieOnChart(s, clock, m) + 24 * DAY < JieOnChart(s, clock, m + 1)
  {
    TravelTime(s, LICHUN + 30.0 * (m - 12 * CYCLE_YEAR) as real, LICHUN + 30.0 * (m + 1 - 12 * CYCLE_YEAR) as real);
    JdConversionKeepsOrder(JieTime(s, m), JieTime(s, m + 1));
    ChartNearUtc(clock, JdUtToDatetimeUtc(JieTime(s, m)));
    ChartNearUtc(clock, JdUtToDatetimeUtc(JieTime(s, m + 1)));
  }

  lemma {:induction false} JieOrder(s: Sun, clock: ChartClock, m: int, n: int)
    requires Moves(s) && OffsetsInRange(clock) && m < n
    ensures JieOnChart(s, clock, m) < JieOnChart(s, clock, n)
    decreases n - m
  {
    JieGap(s, clock, m);
    if m + 1 < n {
      JieOrder(s, clock, m + 1, n);
    }
  }

  lemma JieMarksRise(marks: int -> int, s: Sun, clock: ChartClock)
    requires Moves(s) && OffsetsInRange(clock) && MarksChart(marks, s, clock)
    ensures Rising(marks)
  {
    forall m, n {:trigger marks(m), marks(n)} | m < n ensures marks(m) < marks(n) {
      JieOrder(s, clock, m, n);
    }
  }

  /** As chart time advances from t to u the month number never goes back, and it moves on
      exactly when the next mark is reached; a chart time has one month only. */
  lemma MonthsRun(marks: int -> int, t: int, u: int, m: int, n: int)
    requires Rising(marks) && t <= u && InMonth(marks, t, m) && InMonth(marks, u, n)
    ensures m <= n
    ensures t == u ==> m == n
    ensures m < n <==> marks(m + 1) <= u
  {
    assert n + 1 < m ==> marks(n + 1) < marks(m);
    assert m + 1 < n ==> marks(m + 1) < marks(n);
  }

  /** The number rises by exactly one at each mark, LiChun included. */
  lemma MonthTurnsAtJie(marks: int -> int, m: int)
    requires Rising(marks)
    ensures InMonth(marks, marks(m), m)
    ensures InMonth(marks, marks(m) - 1, m - 1)
  {
    assert marks(m - 1) < marks(m) && marks(m) < marks(m + 1);
  }

  /** The search for LiChun starts at midnight UTC of 1 January. */
  lemma SearchStartsAtNewYear(y: int)
    ensures JdUtToDatetimeUtc(NewYearJd(y)) == YearStart(y)
    ensures DateOfWall(YearStart(y)) == Date(y, 1, 1) && HourOf(YearStart(y)) == 0
  {
    JdConversionRoundsOnce(NewYearJd(y));
    assert DayOf(YearStart(y)) == JdnGregorian(y, 1, 1);
    JdnOrdersDates(Date(y, 1, 1), Date(y, 1, 1));
  }

  /** The search from New Year finds the year's own LiChun. */
  lemma LiChunOfYear(s: Sun, y: int)
    requires LiChunEachYear(s) && 0 <= y <= 10000
    ensures NextCrossing(s, LICHUN, NewYearJd(y)) == JieTime(s, 12 * y)
    ensures SameDirection(s.lon(JieTime(s, 12 * y)), LICHUN)
  {
    assert LiChunInside(s, y) && LiChunInside(s, y - 1);
    var jd := NewYearJd(y);
    var before, after := JieTime(s, 12 * (y - 1)), JieTime(s, 12 * y);
    Reached(s, LICHUN + 30.0 * (12 * y - 12 * CYCLE_YEAR) as real);
    Reached(s, LICHUN + 30.0 * (12 * (y - 1) - 12 * CYCLE_YEAR) as real);
    Rate(s, before, jd);
    Rate(s, jd, after);
    assert s.lon(after) == LICHUN + Turn(y - CYCLE_YEAR);
    assert s.lon(before) < s.lon(jd) < s.lon(after);
    Mod360Is(LICHUN - s.lon(jd), CYCLE_YEAR - y);
    TimeInverts(s, after);
  }

  ghost predicate LiChunMarkInYear(marks: int -> int, y: int) {
    YearStart(y) <= marks(12 * y) < YearStart(y + 1)
  }

  lemma LiChunInLocalYear(marks: int -> int, s: Sun, clock: ChartClock, y: int)
    requires LiChunEachYear(s) && OffsetsInRange(clock) && MarksChart(marks, s, clock) && -1 <= y <= 10000
    ensures LiChunMarkInYear(marks, y)
  {
    assert LiChunInside(s, y);
    assert marks(12 * y) == JieOnChart(s, clock, 12 * y);
    JdConversionKeepsOrder(NewYearJd(y), JieTime(s, 12 * y));
    JdConversionKeepsOrder(JieTime(s, 12 * y), NewYearJd(y + 1));
    JdConversionRoundsOnce(NewYearJd(y));
    JdConversionRoundsOnce(NewYearJd(y + 1));
    ChartNearUtc(clock, JdUtToDatetimeUtc(JieTime(s, 12 * y)));
  }

  function LiChunJdUtForYear(b: Backend, y: int): Result<real> {
    match b.solcross(LICHUN, NewYearJd(y))
    case Some(jd) => Ok(jd)
    case None => Err(CalculationError)
  }

  lemma HonestLiChun(b: Backend, y: int)
    requires Honest(b) && LiChunEachYear(b.sun) && 0 <= y <= 10000
    ensures LiChunJdUtForYear(b, y).Ok? ==> LiChunJdUtForYear(b, y) == Ok(JieTime(b.sun, 12 * y))
    ensures Direct(b) ==> LiChunJdUtForYear(b, y).Ok?
  {
    LiChunOfYear(b.sun, y);
    assert Direct(b) ==> b.solcross(LICHUN, NewYearJd(y)).Some?;
  }

  /** What the year and month search relies on: a backend that answers truly or not at all, and a
      LiChun inside every year. */
  ghost predicate Sky(marks: int -> int, b: Backend, clock: ChartClock) {
    Honest(b) && LiChunEachYear(b.sun) && OffsetsInRange(clock) && MarksChart(marks, b.sun, clock)
  }

  /** The same over a chart time in the calendar's years. */
  ghost predicate SkyOver(marks: int -> int, b: Backend, clock: ChartClock, chart: int) {
    Sky(marks, b, clock) && InCalendar(chart)
  }

  /** With a backend that always answers the search also succeeds. */
  ghost predicate GoodSky(marks: int -> int, b: Backend, clock: ChartClock, chart: int) {
    Direct(b) && SkyOver(marks, b, clock, chart)
  }

  /** Between the LiChun of a solar year and the next. */
  ghost predicate InSolarYear(marks: int -> int, chart: int, solarYear: int) {
    marks(12 * solarYear) <= chart < marks(12 * (solarYear + 1))
  }

  lemma SolarYearFound(marks: int -> int, chart: int, y: int)
    requires YearStart(y) <= chart < YearStart(y + 1)
    requires LiChunMarkInYear(marks, y - 1) && LiChunMarkInYear(marks, y) && LiChunMarkInYear(marks, y + 1)
    ensures InSolarYear(marks, chart, if chart < marks(12 * y) then y - 1 else y)
  {
  }

  /** The chained month boundaries of a solar year are its thirteen marks. */
  lemma BoundariesAreMarks(marks: int -> int, b: Backend, clock: ChartClock, solarYear: int, accuracySeconds: real,
                           jds: seq<real>, k: nat)
    requires Direct(b) && Sky(marks, b, clock) && k < |jds|
    requires AreBoundaries(b, JieTime(b.sun, 12 * solarYear), accuracySeconds, jds)
    ensures ToChart(clock, JdUtToDatetimeUtc(jds[k])) == marks(12 * solarYear + k)
  {
    Reached(b.sun, LICHUN + 30.0 * (12 * solarYear - 12 * CYCLE_YEAR) as real);
    var first := b.sun.lon(JieTime(b.sun, 12 * solarYear));
    assert first == LICHUN + 30.0 * (12 * solarYear - 12 * CYCLE_YEAR) as real;
    assert jds[k] == Jie(b.sun, first, k);
    assert first + 30.0 * k as real == LICHUN + 30.0 * (12 * solarYear + k - 12 * CYCLE_YEAR) as real;
    assert marks(12 * solarYear + k) == JieOnChart(b.sun, clock, 12 * solarYear + k);
  }

  /** The local boundaries are the marks of one solar year. */
  ghost predicate MarksOfYear(marks: int -> int, solarYear: int, bounds: seq<int>) {
    |bounds| == 13 && forall k :: 0 <= k <= 12 ==> bounds[k] == marks(12 * solarYear + k)
  }

  /** Some month of the solar year holds the chart time. */
  lemma {:induction false} MonthOfYearExists(marks: int -> int, chart: int, solarYear: int, bounds: seq<int>,
                                             first: nat)
    requires MarksOfYear(marks, solarYear, bounds) && first < 12
    requires bounds[first] <= chart < marks(12 * (solarYear + 1))
    ensures exists j :: 0 <= j < 12 && bounds[j] <= chart < bounds[j + 1]
    decreases 12 - first
  {
    assert bounds[12] == marks(12 * (solarYear + 1));
    if chart < bounds[first + 1] {
      assert 0 <= first < 12 && bounds[first] <= chart < bounds[first + 1];
    } else {
      MonthOfYearExists(marks, chart, solarYear, bounds, first + 1);
    }
  }

  method MonthIndexForChart(chart: int, bounds: seq<int>, ghost marks: int -> int, ghost solarYear: int)
    returns (k: nat)
    requires |bounds| == 13
    ensures k < 12
    // The first month that holds the chart time, or the last month if none does.
    ensures bounds[k] <= chart < bounds[k + 1] || k == 11
    ensures forall j :: 0 <= j < 12 && bounds[j] <= chart < bounds[j + 1] ==>
              k <= j && bounds[k] <= chart < bounds[k + 1]
    ensures MarksOfYear(marks, solarYear, bounds) && InSolarYear(marks, chart, solarYear) ==>
              InMonth(marks, chart, MonthNumber(solarYear, k))
  {
    if MarksOfYear(marks, solarYear, bounds) && InSolarYear(marks, chart, solarYear) {
      MonthOfYearExists(marks, chart, solarYear, bounds, 0);
    }
    k := 0;
    while k < 12
      invariant 0 <= k <= 12
      invariant forall j :: 0 <= j < k ==> !(bounds[j] <= chart < bounds[j + 1])
    {
      if bounds[k] <= chart < bounds[k + 1] {
        return;
      }
      k := k + 1;
    }
    k := 11;
  }

  lemma SolarYearDecided(marks: int -> int, b: Backend, clock: ChartClock, chart: int, y: int)
    requires SkyOver(marks, b, clock, chart) && y == DateOfWall(chart).year
    ensures InSolarYear(marks, chart, if chart < marks(12 * y) then y - 1 else y)
    ensures marks(12 * y) == JieOnChart(b.sun, clock, 12 * y)
  {
    YearOfWall(chart, y);
    LiChunInLocalYear(marks, b.sun, clock, y - 1);
    LiChunInLocalYear(marks, b.sun, clock, y);
    LiChunInLocalYear(marks, b.sun, clock, y + 1);
    SolarYearFound(marks, chart, y);
  }

  /** A backend that cannot lie answers with the LiChun itself. */
  ghost predicate LiChunIsTrue(b: Backend, y: int) {
    && (LiChunJdUtForYear(b, y).Ok? ==> LiChunJdUtForYear(b, y).value == JieTime(b.sun, 12 * y))
    && (Direct(b) ==> LiChunJdUtForYear(b, y).Ok?)
  }

  lemma LiChunsAreTrue(marks: int -> int, b: Backend, clock: ChartClock, chart: int, y: int)
    requires SkyOver(marks, b, clock, chart) && y == DateOfWall(chart).year
    ensures LiChunIsTrue(b, y - 1) && LiChunIsTrue(b, y) && LiChunIsTrue(b, y + 1)
    ensures InSolarYear(marks, chart, if chart < JieOnChart(b.sun, clock, 12 * y) then y - 1 else y)
  {
    HonestLiChun(b, y - 1);
    HonestLiChun(b, y);
    HonestLiChun(b, y + 1);
    SolarYearDecided(marks, b, clock, chart, y);
  }

  lemma NoLiChunByScan(b: Backend, y: int)
    requires Fallback(b)
    ensures LiChunJdUtForYear(b, y) == Err(CalculationError)
  {
    assert b.solcross(LICHUN, NewYearJd(y)).None?;
  }

  /** Whatever a backend answers, it is asked for the LiChun of the calendar year, and for the one on the
      other side of the chart time. */
  ghost predicate IsSearched(b: Backend, clock: ChartClock, chart: int, r: (int, real, bool)) {
    var y := DateOfWall(chart).year;
    && LiChunJdUtForYear(b, y).Ok?
    && (r.2 <==> chart < ToChart(clock, JdUtToDatetimeUtc(LiChunJdUtForYear(b, y).value)))
    && r.0 == y - (if r.2 then 1 else 0)
    && LiChunJdUtForYear(b, r.0) == Ok(r.1)
    && LiChunJdUtForYear(b, if r.2 then y - 1 else y + 1).Ok?
  }

  /** Solar year, the Julian day of its LiChun, and whether the chart time is before the LiChun
      of its calendar year. */
  method SearchSolarYear(b: Backend, clock: ChartClock, chart: int) returns (r: Result<(int, real, bool)>)
    ensures r.Ok? ==> IsSearched(b, clock, chart, r.value)
    ensures r.Err? ==> r.error == CalculationError
    ensures var y := DateOfWall(chart).year;
            (forall k :: y - 1 <= k <= y + 1 ==> LiChunJdUtForYear(b, k).Ok?) ==> r.Ok?
  {
    var y := DateOfWall(chart).year;
    var lichunThis := LiChunJdUtForYear(b, y);
    if lichunThis.Err? {
      return Err(lichunThis.error);
    }
    var lichunThisLocal := ToChart(clock, JdUtToDatetimeUtc(lichunThis.value));
    if chart < lichunThisLocal {
      var lichunUsed := LiChunJdUtForYear(b, y - 1);
      if lichunUsed.Err? {
        return Err(lichunUsed.error);
      }
      return Ok((y - 1, lichunUsed.value, true));
    }
    var lichunNext := LiChunJdUtForYear(b, y + 1);
    if lichunNext.Err? {
      return Err(lichunNext.error);
    }
    return Ok((y, lichunThis.value, false));
  }

  lemma SearchedIsSolarYear(marks: int -> int, b: Backend, clock: ChartClock, chart: int, r: (int, real, bool))
    requires SkyOver(marks, b, clock, chart) && IsSearched(b, clock, chart, r)
    ensures InSolarYear(marks, chart, r.0) && r.1 == JieTime(b.sun, 12 * r.0)
  {
    LiChunsAreTrue(marks, b, clock, chart, DateOfWall(chart).year);
  }

  method SolarYear(b: Backend, clock: ChartClock, chart: int, ghost marks: int -> int)
    returns (r: Result<(int, real, bool)>)
    ensures r.Ok? ==> IsSearched(b, clock, chart, r.value)
    ensures GoodSky(marks, b, clock, chart) ==> r.Ok?
    ensures SkyOver(marks, b, clock, chart) && r.Ok? ==>
              && InSolarYear(marks, chart, r.value.0)
              && r.value.1 == JieTime(b.sun, 12 * r.value.0)
    ensures Fallback(b) ==> r == Err(CalculationError)
  {
    ghost var y := DateOfWall(chart).year;
    r := SearchSolarYear(b, clock, chart);
    if GoodSky(marks, b, clock, chart) {
      LiChunsAreTrue(marks, b, clock, chart, y);
    }
    if SkyOver(marks, b, clock, chart) && r.Ok? {
      SearchedIsSolarYear(marks, b, clock, chart, r.value);
    }
    if Fallback(b) {
      NoLiChunByScan(b, y);
    }
  }

  method BoundariesOnChart(clock: ChartClock, jds: seq<real>) returns (bounds: seq<int>)
    ensures |bounds| == |jds| && forall k :: 0 <= k < |jds| ==> bounds[k] == FoundMark(clock, jds, k)
  {
    bounds := [];
    for i := 0 to |jds|
      invariant |bounds| == i
      invariant forall k :: 0 <= k < i ==> bounds[k] == FoundMark(clock, jds, k)
    {
      bounds := bounds + [ToChart(clock, JdUtToDatetimeUtc(jds[i]))];
    }
  }

  lemma BoundsAreMarks(marks: int -> int, b: Backend, clock: ChartClock, solarYear: int, accuracySeconds: real,
                       jds: seq<real>, bounds: seq<int>)
    requires Direct(b) && Sky(marks, b, clock) && |jds| == |bounds| == 13
    requires AreBoundaries(b, JieTime(b.sun, 12 * solarYear), accuracySeconds, jds)
    requires forall k :: 0 <= k < 13 ==> bounds[k] == FoundMark(clock, jds, k)
    ensures MarksOfYear(marks, solarYear, bounds)
  {
    forall k | 0 <= k <= 12 ensures bounds[k] == marks(12 * solarYear + k) {
      BoundariesAreMarks(marks, b, clock, solarYear, accuracySeconds, jds, k);
    }
  }

  /** A found boundary as the chart sees it. */
  function FoundMark(clock: ChartClock, boundsUt: seq<real>, k: nat): int
    requires k < |boundsUt|
  {
    ToChart(clock, JdUtToDatetimeUtc(boundsUt[k]))
  }

  /** The chart time lies in the k-th month between the found boundaries; the last month is open. */
  ghost predicate InFoundMonth(clock: ChartClock, boundsUt: seq<real>, chart: int, k: nat) {
    && |boundsUt| == 13 && k < 12
    && FoundMark(clock, boundsUt, k) <= chart
    && (k < 11 ==> chart < FoundMark(clock, boundsUt, k + 1))
  }

  /** The found boundaries increase on the chart, so that a chart time has one found month only. */
  lemma FoundMarksRise(marks: int -> int, b: Backend, clock: ChartClock, solarYear: int, accuracySeconds: real,
                       boundsUt: seq<real>, k: nat)
    requires Sky(marks, b, clock) && |boundsUt| == 13 && k < 12
    requires AreBoundaries(b, JieTime(b.sun, 12 * solarYear), accuracySeconds, boundsUt)
    ensures FoundMark(clock, boundsUt, k) < FoundMark(clock, boundsUt, k + 1)
  {
    HalvedNonNegative(1.0, 81);
    MonthsAreSeparate(b.sun, b.sun.lon(JieTime(b.sun, 12 * solarYear)), boundsUt, Slack(accuracySeconds), k);
    JdConversionKeepsOrder(boundsUt[k], boundsUt[k + 1]);
    ChartNearUtc(clock, JdUtToDatetimeUtc(boundsUt[k]));
    ChartNearUtc(clock, JdUtToDatetimeUtc(boundsUt[k + 1]));
  }

  /** The found month is the month, unless the chart time lies between a Jie and where it was found. */
  lemma FoundMonthIsExact(marks: int -> int, clock: ChartClock, solarYear: int, boundsUt: seq<real>, chart: int, k: nat)
    requires InFoundMonth(clock, boundsUt, chart, k) && InSolarYear(marks, chart, solarYear)
    requires forall j :: 0 <= j < 12 ==>
               (FoundMark(clock, boundsUt, j) <= chart <==> marks(12 * solarYear + j) <= chart)
    ensures InMonth(marks, chart, MonthNumber(solarYear, k))
  {
  }

  /** The search for the month falls back on the last one only if the chart time is past all others. */
  lemma {:induction false} PastAllBounds(bounds: seq<int>, chart: int, j: nat)
    requires |bounds| == 13 && j < 12 && bounds[0] <= chart
    requires forall i :: 0 <= i < j ==> !(bounds[i] <= chart < bounds[i + 1])
    ensures bounds[j] <= chart
  {
    if j > 0 {
      PastAllBounds(bounds, chart, j - 1);
    }
  }

  lemma MonthIsFound(clock: ChartClock, boundsUt: seq<real>, bounds: seq<int>, chart: int, k: nat)
    requires |boundsUt| == |bounds| == 13 && k < 12 && bounds[0] <= chart
    requires forall j :: 0 <= j < 13 ==> bounds[j] == FoundMark(clock, boundsUt, j)
    requires bounds[k] <= chart < bounds[k + 1] || k == 11
    requires forall j :: 0 <= j < 12 && bounds[j] <= chart < bounds[j + 1] ==>
               k <= j && bounds[k] <= chart < bounds[k + 1]
    ensures InFoundMonth(clock, boundsUt, chart, k)
  {
    if !(bounds[k] <= chart < bounds[k + 1]) {
      PastAllBounds(bounds, chart, 11);
    }
    if k < 11 {
      assert bounds[k + 1] == FoundMark(clock, boundsUt, k + 1);
    }
  }

  /** Solar year and month of a chart time, and the boundaries they were read from. */
  datatype SolarDate = SolarDate(year: int, monthIndex: nat, beforeLiChun: bool, boundsUt: seq<real>)

  /** The solar year is exact; the month is the one between the found boundaries, each of which is its
      Jie to within the accuracy. */
  ghost predicate DatedBy(marks: int -> int, b: Backend, clock: ChartClock, chart: int, accuracySeconds: real,
                          date: SolarDate)
  {
    && InSolarYear(marks, chart, date.year)
    && date.year == DateOfWall(chart).year - (if date.beforeLiChun then 1 else 0)
    && AreBoundaries(b, JieTime(b.sun, 12 * date.year), accuracySeconds, date.boundsUt)
    && InFoundMonth(clock, date.boundsUt, chart, date.monthIndex)
  }

  method SolarYearAndMonth(b: Backend, clock: ChartClock, chart: int, accuracySeconds: real, ghost marks: int -> int)
    returns (r: Result<SolarDate>)
    ensures r.Ok? ==> r.value.monthIndex < 12 && |r.value.boundsUt| == 13
    ensures SkyOver(marks, b, clock, chart) && r.Ok? ==> DatedBy(marks, b, clock, chart, accuracySeconds, r.value)
    ensures GoodSky(marks, b, clock, chart) ==>
              r.Ok? && InMonth(marks, chart, MonthNumber(r.value.year, r.value.monthIndex))
    ensures Fallback(b) ==> r == Err(CalculationError)
  {
    var year := SolarYear(b, clock, chart, marks);
    if year.Err? {
      return Err(year.error);
    }
    var (solarYear, lichun, beforeLiChun) := year.value;
    if SkyOver(marks, b, clock, chart) {
      LiChunOfYear(b.sun, solarYear);
    }
    var boundsUt := MonthBoundariesFromLiChun(b, lichun, accuracySeconds);
    if boundsUt.Err? {
      return Err(boundsUt.error);
    }
    var boundsLocal := BoundariesOnChart(clock, boundsUt.value);
    if GoodSky(marks, b, clock, chart) {
      BoundsAreMarks(marks, b, clock, solarYear, accuracySeconds, boundsUt.value, boundsLocal);
    }
    var monthIndex := MonthIndexForChart(chart, boundsLocal, marks, solarYear);
    if SkyOver(marks, b, clock, chart) {
      assert marks(12 * solarYear) == JieOnChart(b.sun, clock, 12 * solarYear);
      MonthIsFound(clock, boundsUt.value, boundsLocal, chart, monthIndex);
    }
    r := Ok(SolarDate(solarYear, monthIndex, beforeLiChun, boundsUt.value));
  }

  // ---- the whole computation ----

  datatype Input = Input(
    birthLocal: int, zone: Zone, strict: bool, fold: Fold,
    longitude: real, eot: real, standard: TimeStandard, boundary: DayBoundary,
    accuracySeconds: real, anchorDate: Option<Date>, anchorIndex: Option<int>)

  datatype Pillars = Pillars(year: Pillar, month: Pillar, day: Pillar, hour: Pillar)

  /** The clock a chart is read on, its wall time there, and the instant. */
  datatype ChartTime = ChartTime(clock: ChartClock, wall: int, utc: int)

  datatype Chart = Chart(time: ChartTime, pillars: Pillars, date: SolarDate, solarTerms: Option<seq<SolarTerm>>)

  function LmtOffset(longitude: real): int {
    RoundHalfEven(longitude * 240.0 * 1_000_000.0)
  }

  /** to_chart_local: the clock on which the chart is read; datetime refuses offsets of a day or more. */
  function ClockFor(inp: Input): Result<ChartClock> {
    if inp.standard != Lmt then Ok(ZoneClock(inp.zone))
    else if -DAY < LmtOffset(inp.longitude) < DAY then Ok(MeanClock(LmtOffset(inp.longitude)))
    else Err(ValueError)
  }

  /** The parsed birth time keeps its wall time in its own zone and is converted for mean time. */
  function ChartTimeFor(inp: Input): Result<ChartTime> {
    match ParseLocalIso(inp.zone, inp.birthLocal, inp.strict, inp.fold)
    case Err(e) => Err(e)
    case Ok((wall, fold)) =>
      var utc := ToUtc(inp.zone, wall, fold);
      match ClockFor(inp)
      case Err(e) => Err(e)
      case Ok(clock) => Ok(ChartTime(clock, if clock.MeanClock? then ToChart(clock, utc) else wall, utc))
  }

  /** Mean time runs four minutes ahead for every degree east, to the nearest microsecond. */
  lemma LmtOffsetIs(longitude: real)
    ensures Abs(LmtOffset(longitude) as real - longitude * 240_000_000.0) <= 0.5
    ensures -DAY < LmtOffset(longitude) < DAY <==> Abs(longitude * 240_000_000.0) < DAY as real - 0.5
  {
    assert longitude * 240.0 * 1_000_000.0 == longitude * 240_000_000.0;
    WithinADay(longitude * 240_000_000.0);
  }

  lemma WithinADay(x: real)
    ensures Abs(RoundHalfEven(x) as real - x) <= 0.5
    ensures -DAY < RoundHalfEven(x) < DAY <==> Abs(x) < DAY as real - 0.5
  {
    RoundNearest(x);
  }

  /** What a request's times are: the given wall time itself, or for mean time the instant moved by the
      longitude; the instant reads as the given wall time in the request's zone exactly if that time
      round-trips, as strict parsing demands; and mean time is refused a whole day away from UTC. */
  lemma ChartTimeIs(inp: Input)
    ensures ChartTimeFor(inp).Ok? ==>
              var t := ChartTimeFor(inp).value;
              && (ToLocal(inp.zone, t.utc) == inp.birthLocal <==> RoundtripOk(inp.zone, inp.birthLocal, inp.fold))
              && (inp.strict ==> ToLocal(inp.zone, t.utc) == inp.birthLocal)
              && (inp.standard != Lmt ==> t.clock == ZoneClock(inp.zone) && t.wall == inp.birthLocal)
              && t.utc == ToUtc(inp.zone, inp.birthLocal, inp.fold)
              && (inp.standard == Lmt ==>
                    && t.clock == MeanClock(t.wall - t.utc)
                    && Abs((t.wall - t.utc) as real - inp.longitude * 240_000_000.0) <= 0.5)
    ensures ChartTimeFor(inp).Ok? <==>
              && (inp.strict ==> RoundtripOk(inp.zone, inp.birthLocal, inp.fold))
              && (inp.standard == Lmt ==> Abs(inp.longitude * 240_000_000.0) < DAY as real - 0.5)
    ensures inp.strict && !RoundtripOk(inp.zone, inp.birthLocal, inp.fold) ==> ChartTimeFor(inp) == Err(LocalTimeError)
    ensures ChartTimeFor(inp).Err? ==>
              ChartTimeFor(inp).error == LocalTimeError || ChartTimeFor(inp).error == ValueError
  {
    LmtOffsetIs(inp.longitude);
  }

  /** The apparent solar clock is local mean time plus the equation of time. */
  lemma SolarTimeIsMeanTime(utc: int, longitude: real, eot: real)
    ensures Abs((SolarWall(utc, longitude, eot) - ToChart(MeanClock(LmtOffset(longitude)), utc)) as real
                - eot * 60_000_000.0) <= 1.0
  {
    SolarShiftIs(utc, longitude, eot);
    LmtOffsetIs(longitude);
    assert (longitude * 4.0 + eot) * 60_000_000.0 == longitude * 240_000_000.0 + eot * 60_000_000.0;
  }

  lemma TlstChartIsCivil(inp: Input)
    requires inp.standard == Tlst && ChartTimeFor(inp).Ok?
    ensures ChartTimeFor(inp).value.wall == inp.birthLocal
  {
  }

  function ContextFor(inp: Input, utc: int): Option<Context> {
    if inp.standard == Tlst then Some(EffectiveTimeContext(inp.birthLocal, utc, inp.longitude, inp.eot)) else None
  }

  function DayPillarFor(inp: Input, ruleset: Option<Ruleset>, chart: int, utc: int, offset: int): Pillar {
    PillarFromIndex60(DayIndex(DateOfWall(WallForDay(chart, inp.boundary, ruleset, ContextFor(inp, utc))), offset))
  }

  lemma DayAndHourFollow(inp: Input, ruleset: Option<Ruleset>, chart: int, utc: int, offset: int)
    requires Conforms(ruleset)
    requires inp.standard == Tlst ==> ZiStart(ruleset) == ZI_START_HOUR && chart == inp.birthLocal
    ensures var day := DayPillarFor(inp, ruleset, chart, utc, offset);
            var branch := BranchOfHour(chart, ContextFor(inp, utc));
            && HourPillar(day.stem, branch, ruleset).Ok?
            && FollowsDoubleHours(DecidingWall(chart, utc, inp.longitude, inp.eot, inp.standard), inp.boundary, offset,
                                  day, HourPillar(day.stem, branch, ruleset).value)
  {
    var wall := DecidingWall(chart, utc, inp.longitude, inp.eot, inp.standard);
    if inp.standard == Tlst {
      SolarChartFollowsSolarClock(chart, utc, inp.longitude, inp.eot, inp.boundary, ruleset);
    }
    DoubleHourParts(wall);
    DayAndHourRun(wall, inp.boundary, offset, ruleset);
  }

  lemma SolarDayAndHourFollow(inp: Input, ruleset: Option<Ruleset>, utc: int, offset: int, startHour: real)
    requires Conforms(ruleset) && inp.standard == Tlst && DeclaresZiStart(ruleset, startHour)
    ensures var day := DayPillarFor(inp, ruleset, inp.birthLocal, utc, offset);
            var hour := HourPillar(day.stem, BranchOfHour(inp.birthLocal, ContextFor(inp, utc)), ruleset);
            var solar := SolarWall(utc, inp.longitude, inp.eot);
            hour.Ok? && OfNumberedDay(SolarDay(solar, inp.boundary, startHour) + offset, HourBranchIndex(solar), day,
                                      hour.value)
  {
    SolarDayTurnsAt(inp.birthLocal, utc, inp.longitude, inp.eot, inp.boundary, ruleset, startHour);
    NumberedDay(WallForDay(inp.birthLocal, inp.boundary, ruleset, ContextFor(inp, utc)), offset,
                BranchOfHour(inp.birthLocal, ContextFor(inp, utc)), ruleset);
  }

  /** The pillar of a running month number in the 60-cycle. */
  function CycleMonth(solarYear: int, monthIndex: int): Pillar {
    PillarFromIndex60(12 * (solarYear - CYCLE_YEAR) + monthIndex + 2)
  }

  lemma MonthPillarIsCycleMonth(solarYear: int, monthIndex: nat, ruleset: Option<Ruleset>)
    requires monthIndex < 12 && Conforms(ruleset)
    ensures MonthPillar(YearPillar(solarYear).stem, monthIndex, ruleset) == Ok(CycleMonth(solarYear, monthIndex))
  {
    MonthPillarWalksCycle(solarYear, monthIndex, ruleset);
  }

  /** Whatever the tables of the ruleset say, month and hour stems are looked up in them. */
  ghost predicate ByTables(ruleset: Option<Ruleset>, pillars: Pillars, date: SolarDate) {
    && pillars.year == YearPillar(date.year)
    && MonthPillar(pillars.year.stem, date.monthIndex, ruleset) == Ok(pillars.month)
    && 0 <= pillars.hour.branch < 12
    && HourPillar(pillars.day.stem, pillars.hour.branch, ruleset) == Ok(pillars.hour)
  }

  method ComputeYearAndMonth(b: Backend, clock: ChartClock, chart: int, accuracySeconds: real, ruleset: Option<Ruleset>,
                             ghost marks: int -> int)
    returns (r: Result<(Pillar, Pillar, SolarDate)>)
    ensures r.Ok? ==> r.value.2.monthIndex < 12 && |r.value.2.boundsUt| == 13 && r.value.0 == YearPillar(r.value.2.year)
    ensures r.Ok? ==> MonthPillar(r.value.0.stem, r.value.2.monthIndex, ruleset) == Ok(r.value.1)
    ensures SkyOver(marks, b, clock, chart) && Conforms(ruleset) && r.Ok? ==>
              && DatedBy(marks, b, clock, chart, accuracySeconds, r.value.2)
              && r.value.1 == CycleMonth(r.value.2.year, r.value.2.monthIndex)
    ensures GoodSky(marks, b, clock, chart) && Conforms(ruleset) ==>
              r.Ok? && InMonth(marks, chart, MonthNumber(r.value.2.year, r.value.2.monthIndex))
    ensures Fallback(b) ==> r == Err(CalculationError)
  {
    var ym := SolarYearAndMonth(b, clock, chart, accuracySeconds, marks);
    if ym.Err? {
      return Err(ym.error);
    }
    var date := ym.value;
    if Conforms(ruleset) {
      MonthPillarIsCycleMonth(date.year, date.monthIndex, ruleset);
    }
    var yearP := YearPillar(date.year);
    var monthP := MonthPillar(yearP.stem, date.monthIndex, ruleset);
    if monthP.Err? {
      return Err(monthP.error);
    }
    r := Ok((yearP, monthP.value, date));
  }

  // ---- the solar terms of the result ----

  datatype SolarTerm = SolarTerm(index: nat, utc: int, local: int)

  /** The p-th term of a solar year as the chart sees it. */
  function TermOnChart(s: Sun, clock: ChartClock, solarYear: int, p: nat): SolarTerm {
    var utc := JdUtToDatetimeUtc(s.time(LICHUN + 30.0 * (12 * solarYear - 12 * CYCLE_YEAR) as real + 15.0 * p as real));
    SolarTerm((21 + p) % 24, utc, ToChart(clock, utc))
  }

  /** The 24 terms of the solar year: every other one begins a month, the ones between lie
      inside the months. */
  ghost predicate TermsOfMonths(marks: int -> int, s: Sun, clock: ChartClock, solarYear: int, terms: seq<SolarTerm>) {
    && |terms| == 24
    && (forall p :: 0 <= p < 24 ==> terms[p] == TermOnChart(s, clock, solarYear, p))
    && (forall k :: 0 <= k < 12 ==>
          marks(12 * solarYear + k) == terms[2 * k].local < terms[2 * k + 1].local < marks(12 * solarYear + k + 1))
  }

  lemma TermsInMonth(marks: int -> int, s: Sun, clock: ChartClock, solarYear: int, k: nat)
    requires Moves(s) && OffsetsInRange(clock) && MarksChart(marks, s, clock) && k < 12
    ensures marks(12 * solarYear + k) == TermOnChart(s, clock, solarYear, 2 * k).local
    ensures TermOnChart(s, clock, solarYear, 2 * k).local < TermOnChart(s, clock, solarYear, 2 * k + 1).local
    ensures TermOnChart(s, clock, solarYear, 2 * k + 1).local < marks(12 * solarYear + k + 1)
  {
    var next := k + 1;
    MarkIsTerm(marks, s, clock, solarYear, k);
    MarkIsTerm(marks, s, clock, solarYear, next);
    TermsFollow(s, clock, solarYear, 2 * k, 2 * k + 1);
    TermsFollow(s, clock, solarYear, 2 * k + 1, 2 * next);
  }

  lemma MarkIsTerm(marks: int -> int, s: Sun, clock: ChartClock, solarYear: int, k: nat)
    requires MarksChart(marks, s, clock)
    ensures marks(12 * solarYear + k) == TermOnChart(s, clock, solarYear, 2 * k).local
  {
    assert LICHUN + 30.0 * (12 * solarYear + k - 12 * CYCLE_YEAR) as real
        == LICHUN + 30.0 * (12 * solarYear - 12 * CYCLE_YEAR) as real + 15.0 * (2 * k) as real;
    assert marks(12 * solarYear + k) == JieOnChart(s, clock, 12 * solarYear + k);
  }

  lemma TermsFollow(s: Sun, clock: ChartClock, solarYear: int, p: nat, q: nat)
    requires Moves(s) && OffsetsInRange(clock) && q == p + 1
    ensures TermOnChart(s, clock, solarYear, p).local < TermOnChart(s, clock, solarYear, q).local
  {
    var first := LICHUN + 30.0 * (12 * solarYear - 12 * CYCLE_YEAR) as real;
    TimesApart(s, clock, first + 15.0 * p as real, first + 15.0 * q as real);
  }

  /** Times at which the Sun is 15 degrees further are apart on every chart. */
  lemma TimesApart(s: Sun, clock: ChartClock, x: real, y: real)
    requires Moves(s) && OffsetsInRange(clock) && x + 15.0 <= y
    ensures ToChart(clock, JdUtToDatetimeUtc(s.time(x))) + 11 * DAY < ToChart(clock, JdUtToDatetimeUtc(s.time(y)))
  {
    TravelTime(s, x, y);
    JdConversionKeepsOrder(s.time(x), s.time(y));
    ChartNearUtc(clock, JdUtToDatetimeUtc(s.time(x)));
    ChartNearUtc(clock, JdUtToDatetimeUtc(s.time(y)));
  }

  method TermsOnChart(clock: ChartClock, pairs: seq<Term>) returns (terms: seq<SolarTerm>)
    ensures PairsOnChart(clock, pairs, terms)
  {
    terms := [];
    for i := 0 to |pairs|
      invariant PairsOnChart(clock, pairs[..i], terms)
    {
      var utc := JdUtToDatetimeUtc(pairs[i].1);
      terms := terms + [SolarTerm(pairs[i].0, utc, ToChart(clock, utc))];
    }
    assert pairs[..|pairs|] == pairs;
  }

  /** Each pair of index and time as the chart sees it. */
  ghost predicate PairsOnChart(clock: ChartClock, pairs: seq<Term>, terms: seq<SolarTerm>) {
    |terms| == |pairs| && forall p :: 0 <= p < |terms| ==> terms[p] == PairOnChart(clock, pairs[p])
  }

  function PairOnChart(clock: ChartClock, pair: Term): SolarTerm {
    SolarTerm(pair.0, JdUtToDatetimeUtc(pair.1), ToChart(clock, JdUtToDatetimeUtc(pair.1)))
  }

  lemma TermsOfMonthsFound(marks: int -> int, s: Sun, clock: ChartClock, solarYear: int, terms: seq<SolarTerm>)
    requires Moves(s) && OffsetsInRange(clock) && MarksChart(marks, s, clock)
    requires PairsOnChart(clock, TermsOfYear(s, LICHUN + 30.0 * (12 * solarYear - 12 * CYCLE_YEAR) as real), terms)
    ensures TermsOfMonths(marks, s, clock, solarYear, terms)
  {
    var pairs := TermsOfYear(s, LICHUN + 30.0 * (12 * solarYear - 12 * CYCLE_YEAR) as real);
    forall p: nat | p < 24 ensures terms[p] == TermOnChart(s, clock, solarYear, p) {
      assert terms[p] == PairOnChart(clock, pairs[p]);
    }
    forall k | 0 <= k < 12
      ensures marks(12 * solarYear + k) == terms[2 * k].local < terms[2 * k + 1].local < marks(12 * solarYear + k + 1)
    {
      TermsInMonth(marks, s, clock, solarYear, k);
    }
  }

  lemma WindowOfYear(b: Backend, solarYear: int, accuracySeconds: real, boundsUt: seq<real>)
    requires Direct(b) && LiChunEachYear(b.sun) && |boundsUt| == 13 && 0 <= solarYear <= 10000
    requires AreBoundaries(b, JieTime(b.sun, 12 * solarYear), accuracySeconds, boundsUt)
    ensures var first := LICHUN + 30.0 * (12 * solarYear - 12 * CYCLE_YEAR) as real;
            && b.sun.lon(boundsUt[0]) == first && SameDirection(first, LICHUN)
            && boundsUt[12] == b.sun.time(first + 360.0)
  {
    var first := LICHUN + 30.0 * (12 * solarYear - 12 * CYCLE_YEAR) as real;
    LiChunOfYear(b.sun, solarYear);
    Reached(b.sun, first);
    assert boundsUt[12] == Jie(b.sun, first, 12);
  }

  /** The search between the first and the last boundary. */
  method TermsBetween(b: Backend, boundsUt: seq<real>, accuracySeconds: real, ghost solarYear: int)
    returns (pairs: Result<seq<Term>>)
    requires |boundsUt| == 13
    ensures Direct(b) && LiChunEachYear(b.sun) && 0 <= solarYear <= 10000
            && AreBoundaries(b, JieTime(b.sun, 12 * solarYear), accuracySeconds, boundsUt) ==>
              pairs == Ok(TermsOfYear(b.sun, LICHUN + 30.0 * (12 * solarYear - 12 * CYCLE_YEAR) as real))
    ensures Direct(b) ==>
              pairs.Ok? && ListsWindow(NextTerms(b.sun, boundsUt[0]), boundsUt[0], boundsUt[12], pairs.value)
    ensures Fallback(b) ==> pairs.Err?
  {
    if Direct(b) && LiChunEachYear(b.sun) && 0 <= solarYear <= 10000
       && AreBoundaries(b, JieTime(b.sun, 12 * solarYear), accuracySeconds, boundsUt) {
      WindowOfYear(b, solarYear, accuracySeconds, boundsUt);
    }
    pairs := Compute24SolarTermsForWindow(b, boundsUt[0], boundsUt[12], accuracySeconds);
  }

  /** The list attached to the result; a failing search leaves it out. */
  method SolarTermsForResult(b: Backend, clock: ChartClock, boundsUt: seq<real>, accuracySeconds: real,
                             ghost marks: int -> int, ghost solarYear: int)
    returns (r: Option<seq<SolarTerm>>)
    requires |boundsUt| == 13
    ensures Direct(b) && Sky(marks, b, clock) && 0 <= solarYear <= 10000
            && AreBoundaries(b, JieTime(b.sun, 12 * solarYear), accuracySeconds, boundsUt) ==>
              r.Some? && TermsOfMonths(marks, b.sun, clock, solarYear, r.value)
    ensures Fallback(b) ==> r.None?
  {
    ghost var good := Direct(b) && Sky(marks, b, clock) && 0 <= solarYear <= 10000
                      && AreBoundaries(b, JieTime(b.sun, 12 * solarYear), accuracySeconds, boundsUt);
    var pairs := TermsBetween(b, boundsUt, accuracySeconds, solarYear);
    if pairs.Err? {
      return None;
    }
    var terms := TermsOnChart(clock, pairs.value);
    if good {
      TermsOfMonthsFound(marks, b.sun, clock, solarYear, terms);
    }
    r := Some(terms);
  }

  ghost predicate DayAndHourReady(inp: Input, ruleset: Option<Ruleset>) {
    Conforms(ruleset) && DayOffsetForInput(inp.anchorDate, inp.anchorIndex, ruleset).Ok?
  }

  /** Day and hour pillars are read off the double hours of the deciding clock; in a true-solar chart
      they are those of the solar day, which under the zi boundary turns at the ruleset's start hour, so
      that this holds for the start at 23:00. */
  ghost predicate DayAndHourPillars(inp: Input, ruleset: Option<Ruleset>, time: ChartTime, day: Pillar, hour: Pillar) {
    var offset := DayOffsetForInput(inp.anchorDate, inp.anchorIndex, ruleset);
    var wall := DecidingWall(time.wall, time.utc, inp.longitude, inp.eot, inp.standard);
    && offset.Ok?
    && (inp.standard != Tlst || DeclaresZiStart(ruleset, 23.0) ==>
          FollowsDoubleHours(wall, inp.boundary, offset.value, day, hour))
    && (inp.standard == Tlst ==>
          forall startHour :: DeclaresZiStart(ruleset, startHour) ==>
            OfNumberedDay(SolarDay(wall, inp.boundary, startHour) + offset.value, HourBranchIndex(wall), day, hour))
  }

  lemma DayAndHourMade(inp: Input, ruleset: Option<Ruleset>, time: ChartTime, offset: int)
    requires DayAndHourReady(inp, ruleset) && ChartTimeFor(inp) == Ok(time)
    requires DayOffsetForInput(inp.anchorDate, inp.anchorIndex, ruleset) == Ok(offset)
    ensures var day := DayPillarFor(inp, ruleset, time.wall, time.utc, offset);
            var hour := HourPillar(day.stem, BranchOfHour(time.wall, ContextFor(inp, time.utc)), ruleset);
            hour.Ok? && DayAndHourPillars(inp, ruleset, time, day, hour.value)
  {
    if inp.standard == Tlst {
      TlstChartIsCivil(inp);
      SolarDayAndHourFollow(inp, ruleset, time.utc, offset, ZiStart(ruleset));
    }
    if inp.standard != Tlst || DeclaresZiStart(ruleset, 23.0) {
      DayAndHourFollow(inp, ruleset, time.wall, time.utc, offset);
    }
  }

  method ComputeDayAndHour(inp: Input, ruleset: Option<Ruleset>, time: ChartTime) returns (r: Result<(Pillar, Pillar)>)
    ensures r.Ok? ==>
              0 <= r.value.1.branch < 12 && HourPillar(r.value.0.stem, r.value.1.branch, ruleset) == Ok(r.value.1)
    ensures DayOffsetForInput(inp.anchorDate, inp.anchorIndex, ruleset).Err? ==>
              r == Err(DayOffsetForInput(inp.anchorDate, inp.anchorIndex, ruleset).error)
    ensures DayAndHourReady(inp, ruleset) && ChartTimeFor(inp) == Ok(time) ==>
              r.Ok? && DayAndHourPillars(inp, ruleset, time, r.value.0, r.value.1)
  {
    var ctx := ContextFor(inp, time.utc);
    var offset := DayOffsetForInput(inp.anchorDate, inp.anchorIndex, ruleset);
    if offset.Err? {
      return Err(offset.error);
    }
    var dayP := DayPillarFor(inp, ruleset, time.wall, time.utc, offset.value);
    var hb := BranchOfHour(time.wall, ctx);
    if DayAndHourReady(inp, ruleset) && ChartTimeFor(inp) == Ok(time) {
      DayAndHourMade(inp, ruleset, time, offset.value);
    }
    var hourP := HourPillar(dayP.stem, hb, ruleset);
    if hourP.Err? {
      return Err(hourP.error);
    }
    r := Ok((dayP, hourP.value));
  }

  /** The sky and the tables a request needs to get its pillars: an exact direct backend, a LiChun
      inside every year, tables in agreement with the formulas and a day anchor. */
  ghost predicate Ready(marks: int -> int, b: Backend, ruleset: Option<Ruleset>, inp: Input, time: ChartTime) {
    GoodSky(marks, b, time.clock, time.wall) && DayAndHourReady(inp, ruleset)
  }

  /** Year and month pillars are positions of the running solar years and months. */
  ghost predicate PillarsOfDate(c: Chart) {
    && c.pillars.year == YearPillar(c.date.year)
    && c.pillars.month == CycleMonth(c.date.year, c.date.monthIndex)
  }

  /** And the months are those of the Jie. */
  ghost predicate YearAndMonthPillars(marks: int -> int, c: Chart) {
    && PillarsOfDate(c)
    && c.date.monthIndex < 12
    && InMonth(marks, c.time.wall, MonthNumber(c.date.year, c.date.monthIndex))
  }

  /** Whenever a chart is made the solar year is exact and the month the one that was found, and day and
      hour follow the deciding clock. */
  ghost predicate HonestChart(marks: int -> int, b: Backend, ruleset: Option<Ruleset>, inp: Input, c: Chart) {
    && DatedBy(marks, b, c.time.clock, c.time.wall, inp.accuracySeconds, c.date)
    && PillarsOfDate(c)
    && DayAndHourPillars(inp, ruleset, c.time, c.pillars.day, c.pillars.hour)
  }

  /** With a direct search the month is that of the Jie, and the solar terms are attached. */
  ghost predicate DirectChart(marks: int -> int, b: Backend, c: Chart) {
    && YearAndMonthPillars(marks, c)
    && c.solarTerms.Some?
    && TermsOfMonths(marks, b.sun, c.time.clock, c.date.year, c.solarTerms.value)
  }

  method ComputeBazi(b: Backend, ruleset: Option<Ruleset>, inp: Input, ghost marks: int -> int)
    returns (r: Result<Chart>)
    ensures ChartTimeFor(inp).Err? ==> r == Err(ChartTimeFor(inp).error)
    ensures r.Ok? ==> ChartTimeFor(inp) == Ok(r.value.time) && r.value.date.monthIndex < 12
    ensures r.Ok? ==> ByTables(ruleset, r.value.pillars, r.value.date)
    ensures DayOffsetForInput(inp.anchorDate, inp.anchorIndex, ruleset).Err? ==> r.Err?
    // The scan never stands in for the direct search of LiChun.
    ensures Fallback(b) && ChartTimeFor(inp).Ok? ==> r == Err(CalculationError)
    ensures r.Ok? && SkyOver(marks, b, r.value.time.clock, r.value.time.wall) && DayAndHourReady(inp, ruleset) ==>
              HonestChart(marks, b, ruleset, inp, r.value)
    ensures ChartTimeFor(inp).Ok? && Ready(marks, b, ruleset, inp, ChartTimeFor(inp).value) ==> r.Ok?
    ensures r.Ok? && Ready(marks, b, ruleset, inp, r.value.time) ==> DirectChart(marks, b, r.value)
  {
    var parsed := ChartTimeFor(inp);
    if parsed.Err? {
      return Err(parsed.error);
    }
    var time := parsed.value;
    var made := PillarsAt(b, ruleset, inp, time, marks);
    if made.Err? {
      return Err(made.error);
    }
    var (pillars, date) := made.value;
    var terms := SolarTermsForResult(b, time.clock, date.boundsUt, inp.accuracySeconds, marks, date.year);
    r := Ok(Chart(time, pillars, date, terms));
  }

  /** The pillars, before the solar terms are attached. */
  method PillarsAt(b: Backend, ruleset: Option<Ruleset>, inp: Input, time: ChartTime, ghost marks: int -> int)
    returns (r: Result<(Pillars, SolarDate)>)
    requires ChartTimeFor(inp) == Ok(time)
    ensures r.Ok? ==> r.value.1.monthIndex < 12 && |r.value.1.boundsUt| == 13
    ensures r.Ok? ==> ByTables(ruleset, r.value.0, r.value.1)
    ensures DayOffsetForInput(inp.anchorDate, inp.anchorIndex, ruleset).Err? ==> r.Err?
    ensures Fallback(b) ==> r == Err(CalculationError)
    ensures r.Ok? && SkyOver(marks, b, time.clock, time.wall) && DayAndHourReady(inp, ruleset) ==>
              HonestChart(marks, b, ruleset, inp, Chart(time, r.value.0, r.value.1, None))
    ensures Ready(marks, b, ruleset, inp, time) ==> r.Ok?
    ensures r.Ok? && Ready(marks, b, ruleset, inp, time) ==>
              InMonth(marks, time.wall, MonthNumber(r.value.1.year, r.value.1.monthIndex))
  {
    var ym := ComputeYearAndMonth(b, time.clock, time.wall, inp.accuracySeconds, ruleset, marks);
    if ym.Err? {
      return Err(ym.error);
    }
    var (yearP, monthP, date) := ym.value;
    var dayHour := ComputeDayAndHour(inp, ruleset, time);
    if dayHour.Err? {
      return Err(dayHour.error);
    }
    r := Ok((Pillars(yearP, monthP, dayHour.value.0, dayHour.value.1), date));
  }

  // ---- whole runs ----

  lemma MonthPillarAdvances(c: Chart, d: Chart)
    requires PillarsOfDate(c) && PillarsOfDate(d)
    ensures d.pillars.month == Advanced(c.pillars.month, MonthNumber(d.date.year, d.date.monthIndex)
                                                         - MonthNumber(c.date.year, c.date.monthIndex))
    ensures d.pillars.year == Advanced(c.pillars.year, d.date.year - c.date.year)
  {
    var i := 12 * (c.date.year - CYCLE_YEAR) + c.date.monthIndex + 2;
    AdvancedIs(i, MonthNumber(d.date.year, d.date.monthIndex) - MonthNumber(c.date.year, c.date.monthIndex));
    var years := c.date.year - CYCLE_YEAR;
    AdvancedIs(years % 60, d.date.year - c.date.year);
    MultipleOf60(years % 60 + (d.date.year - c.date.year), years / 60);
    PillarDeterminesIndex(years % 60 + (d.date.year - c.date.year), (d.date.year - CYCLE_YEAR) % 60);
  }

  /** Of two charts on one clock the later one never has the earlier month, its month and year pillars
      are as many steps on as months and years have begun, and a new month has begun exactly if the
      next Jie is reached. */
  lemma ChartsRun(marks: int -> int, b: Backend, clock: ChartClock, c: Chart, d: Chart)
    requires Sky(marks, b, clock) && YearAndMonthPillars(marks, c) && YearAndMonthPillars(marks, d)
    requires c.time.wall <= d.time.wall
    ensures var m, n := MonthNumber(c.date.year, c.date.monthIndex), MonthNumber(d.date.year, d.date.monthIndex);
            && m <= n && c.date.year <= d.date.year
            && (m < n <==> marks(m + 1) <= d.time.wall)
            && d.pillars.month == Advanced(c.pillars.month, n - m)
            && d.pillars.year == Advanced(c.pillars.year, d.date.year - c.date.year)
  {
    JieMarksRise(marks, b.sun, clock);
    MonthsRun(marks, c.time.wall, d.time.wall, MonthNumber(c.date.year, c.date.monthIndex),
              MonthNumber(d.date.year, d.date.monthIndex));
    MonthPillarAdvances(c, d);
  }

  /** Across a Jie, from one microsecond to the next, the month pillar moves one step, and the year
      pillar does if and only if the Jie is LiChun. */
  lemma ChartsAtJie(marks: int -> int, b: Backend, clock: ChartClock, c: Chart, d: Chart, m: int)
    requires Sky(marks, b, clock) && YearAndMonthPillars(marks, c) && YearAndMonthPillars(marks, d)
    requires c.time.wall == marks(m) - 1 && d.time.wall == marks(m)
    ensures d.pillars.month == Advanced(c.pillars.month, 1)
    ensures d.pillars.year == Advanced(c.pillars.year, if m % 12 == 0 then 1 else 0)
    ensures d.date.monthIndex == m % 12 && d.date.year == m / 12
  {
    JieMarksRise(marks, b.sun, clock);
    MonthTurnsAtJie(marks, m);
    MonthsRun(marks, c.time.wall, c.time.wall, MonthNumber(c.date.year, c.date.monthIndex), m - 1);
    MonthsRun(marks, d.time.wall, d.time.wall, MonthNumber(d.date.year, d.date.monthIndex), m);
    MonthPillarAdvances(c, d);
    MonthParts(d.date.year, d.date.monthIndex, m);
    MonthParts(c.date.year, c.date.monthIndex, m - 1);
    YearTurns(m);
  }

  lemma MonthParts(y: int, k: nat, m: int)
    requires k < 12 && MonthNumber(y, k) == m
    ensures y == m / 12 && k == m % 12
  {
  }

  lemma YearTurns(m: int)
    ensures m / 12 - (m - 1) / 12 == if m % 12 == 0 then 1 else 0
  {
  }

  /** Two hours later on the deciding clock, under the zi boundary, the hour pillar is one step on, and
      the day pillar turns exactly if the branch becomes Zi. */
  lemma HoursRun(wall: int, offset: int, day: Pillar, hour: Pillar, nextDay: Pillar, nextHour: Pillar)
    requires FollowsDoubleHours(wall, Zi, offset, day, hour)
    requires FollowsDoubleHours(wall + 2 * HOUR, Zi, offset, nextDay, nextHour)
    ensures nextHour == Advanced(hour, 1)
    ensures nextDay == Advanced(day, if nextHour.branch == 0 then 1 else 0)
  {
    assert DoubleHour(wall + 2 * HOUR) == DoubleHour(wall) + 1;
    TwelveADay(DoubleHour(wall), offset);
    AdvancedIs(DoubleHour(wall) + 12 * offset, 1);
    AdvancedIs(DoubleHour(wall) / 12 + offset, if nextHour.branch == 0 then 1 else 0);
  }

  lemma TwelveADay(n: int, offset: int)
    ensures (n + 1) / 12 == n / 12 + if (n + 1 + 12 * offset) % 12 == 0 then 1 else 0
  {
    Multiple(n + 1, offset, 12);
    NextTwelfth(n);
  }

  lemma NextTwelfth(n: int)
    ensures (n + 1) / 12 == n / 12 + if (n + 1) % 12 == 0 then 1 else 0
  {
  }

  // ---- wall readings and instants ----

  /** A Jie as a UTC datetime. */
  function JieUtc(s: Sun, m: int): int {
    JdUtToDatetimeUtc(JieTime(s, m))
  }

  /** The month that has begun at an instant. */
  ghost predicate InstantMonth(s: Sun, utc: int, m: int) {
    JieUtc(s, m) <= utc < JieUtc(s, m + 1)
  }

  ghost predicate SeparatedClock(clock: ChartClock) {
    clock.ZoneClock? ==> Separated(clock.z, 0)
  }

  /** An instant and a Jie lie in one overlap of the clock, and their wall readings are reversed. */
  ghost predicate ReversedAt(clock: ChartClock, utc: int, jie: int) {
    clock.ZoneClock? && exists j: nat :: ReversedInOverlap(clock.z, utc, jie, j)
  }

  ghost predicate ReversedInOverlap(z: Zone, utc: int, jie: int, j: nat) {
    || (AcrossOverlap(z, jie, utc, j) && ToLocal(z, utc) < ToLocal(z, jie))
    || (AcrossOverlap(z, utc, jie, j) && ToLocal(z, jie) <= ToLocal(z, utc))
  }

  /** That is the one way in which wall readings compare otherwise than the instants do. */
  lemma ComparedAlike(clock: ChartClock, utc: int, jie: int)
    requires SeparatedClock(clock)
    ensures (jie <= utc <==> ToChart(clock, jie) <= ToChart(clock, utc)) <==> !ReversedAt(clock, utc, jie)
  {
    match clock
    case MeanClock(_) =>
    case ZoneClock(z) =>
      if jie < utc && ToLocal(z, utc) < ToLocal(z, jie) {
        var j := ReadingsReversed(z, jie, utc);
        assert ReversedInOverlap(z, utc, jie, j);
      } else if utc < jie && ToLocal(z, jie) <= ToLocal(z, utc) {
        var j := ReadingsReversed(z, utc, jie);
        assert ReversedInOverlap(z, utc, jie, j);
      }
  }

  lemma JieUtcRises(s: Sun, m: int, n: int)
    requires Moves(s) && m < n
    ensures JieUtc(s, m) < JieUtc(s, n)
  {
    JieOrder(s, MeanClock(0), m, n);
  }

  /** No Jie lies in one overlap with the instant, in the other order of readings. */
  ghost predicate NotReversed(s: Sun, clock: ChartClock, utc: int) {
    forall k {:trigger JieUtc(s, k)} :: !ReversedAt(clock, utc, JieUtc(s, k))
  }

  lemma JieComparedAlike(marks: int -> int, b: Backend, clock: ChartClock, utc: int, k: int)
    requires Sky(marks, b, clock) && SeparatedClock(clock)
    ensures (JieUtc(b.sun, k) <= utc <==> marks(k) <= ToChart(clock, utc))
       <==> !ReversedAt(clock, utc, JieUtc(b.sun, k))
  {
    assert marks(k) == JieOnChart(b.sun, clock, k);
    ComparedAlike(clock, utc, JieUtc(b.sun, k));
  }

  /** The month of a chart is that of its instant if and only if no Jie lies in one overlap with the
      birth, their wall readings reversed. */
  lemma MonthIsOfInstantIff(marks: int -> int, b: Backend, clock: ChartClock, utc: int, n: int)
    requires Sky(marks, b, clock) && SeparatedClock(clock)
    requires InMonth(marks, ToChart(clock, utc), n)
    ensures InstantMonth(b.sun, utc, n) <==> NotReversed(b.sun, clock, utc)
  {
    JieMarksRise(marks, b.sun, clock);
    if InstantMonth(b.sun, utc, n) {
      forall k ensures !ReversedAt(clock, utc, JieUtc(b.sun, k)) {
        JieComparedAlike(marks, b, clock, utc, k);
        SameSide(marks, b.sun, ToChart(clock, utc), utc, n, k);
      }
    } else {
      JieComparedAlike(marks, b, clock, utc, n);
      JieComparedAlike(marks, b, clock, utc, n + 1);
    }
  }

  lemma SameSide(marks: int -> int, s: Sun, wall: int, utc: int, n: int, k: int)
    requires Moves(s) && Rising(marks) && InMonth(marks, wall, n) && InstantMonth(s, utc, n)
    ensures JieUtc(s, k) <= utc <==> k <= n
    ensures marks(k) <= wall <==> k <= n
  {
    if k < n {
      JieUtcRises(s, k, n);
      assert marks(k) < marks(n);
    } else if n + 1 < k {
      JieUtcRises(s, n + 1, k);
      assert marks(n + 1) < marks(k);
    }
  }

  /** On mean time it always is. */
  lemma MeanTimeKeepsOrder(marks: int -> int, b: Backend, clock: ChartClock, utc: int, n: int)
    requires Sky(marks, b, clock) && clock.MeanClock?
    requires InMonth(marks, ToChart(clock, utc), n)
    ensures InstantMonth(b.sun, utc, n)
  {
    MonthIsOfInstantIff(marks, b, clock, utc, n);
  }

  /** And in a zone it is for every birth outside the overlaps. */
  lemma UnambiguousIsNotReversed(z: Zone, utc: int, jie: int)
    requires Separated(z, 0) && !Ambiguous(z, ToLocal(z, utc))
    ensures !ReversedAt(ZoneClock(z), utc, jie)
  {
    if j: nat :| ReversedInOverlap(z, utc, jie, j) {
      OverlapIsAmbiguous(z, ToLocal(z, utc), j);
    }
  }

  /** A chart is read at its own instant exactly if its birth time exists in its zone, as strict parsing
      demands; on mean time always. */
  lemma ChartReadsInstant(inp: Input)
    requires ChartTimeFor(inp).Ok?
    ensures var t := ChartTimeFor(inp).value;
            && (t.wall == ToChart(t.clock, t.utc) <==>
                  inp.standard == Lmt || RoundtripOk(inp.zone, inp.birthLocal, inp.fold))
            && (inp.strict ==> t.wall == ToChart(t.clock, t.utc))
  {
  }

  ghost predicate ReadsInstant(c: Chart) {
    c.time.wall == ToChart(c.time.clock, c.time.utc)
  }

  /** As time advances the month of such charts never goes back, and a new one has begun exactly if its
      Jie has passed. */
  lemma ChartsRunInTime(marks: int -> int, b: Backend, clock: ChartClock, c: Chart, d: Chart)
    requires Sky(marks, b, clock) && SeparatedClock(clock)
    requires YearAndMonthPillars(marks, c) && YearAndMonthPillars(marks, d)
    requires c.time.clock == d.time.clock == clock && ReadsInstant(c) && ReadsInstant(d)
    requires NotReversed(b.sun, clock, c.time.utc) && NotReversed(b.sun, clock, d.time.utc)
    requires c.time.utc <= d.time.utc
    ensures var m, n := MonthNumber(c.date.year, c.date.monthIndex), MonthNumber(d.date.year, d.date.monthIndex);
            && m <= n && c.date.year <= d.date.year
            && (m < n <==> JieUtc(b.sun, m + 1) <= d.time.utc)
            && d.pillars.month == Advanced(c.pillars.month, n - m)
            && d.pillars.year == Advanced(c.pillars.year, d.date.year - c.date.year)
  {
    var m, n := MonthNumber(c.date.year, c.date.monthIndex), MonthNumber(d.date.year, d.date.monthIndex);
    MonthIsOfInstantIff(marks, b, clock, c.time.utc, m);
    MonthIsOfInstantIff(marks, b, clock, d.time.utc, n);
    InstantsRun(b.sun, c.time.utc, d.time.utc, m, n);
    MonthPillarAdvances(c, d);
    YearsRun(c.date.year, c.date.monthIndex, d.date.year, d.date.monthIndex);
  }

  lemma InstantsRun(s: Sun, t: int, u: int, m: int, n: int)
    requires Moves(s) && t <= u && InstantMonth(s, t, m) && InstantMonth(s, u, n)
    ensures m <= n && (m < n <==> JieUtc(s, m + 1) <= u)
  {
    if n + 1 < m {
      JieUtcRises(s, n + 1, m);
    } else if m + 1 < n {
      JieUtcRises(s, m + 1, n);
    }
  }

  lemma YearsRun(y: int, k: nat, z: int, l: nat)
    requires k < 12 && l < 12 && MonthNumber(y, k) <= MonthNumber(z, l)
    ensures y <= z
  {
  }

  // ---- how exact a found month is ----

  lemma FoundNearJie(b: Backend, solarYear: int, accuracySeconds: real, boundsUt: seq<real>, k: nat)
    requires Honest(b) && |boundsUt| == 13 && k < 13
    requires AreBoundaries(b, JieTime(b.sun, 12 * solarYear), accuracySeconds, boundsUt)
    ensures Abs((JdUtToDatetimeUtc(boundsUt[k]) - JieUtc(b.sun, 12 * solarYear + k)) as real)
            <= Slack(accuracySeconds) * DAY as real + 1.0
  {
    JieOfYear(b.sun, solarYear, k);
    var jie := JieTime(b.sun, 12 * solarYear + k);
    assert Abs(boundsUt[k] - jie) <= Slack(accuracySeconds);
    if boundsUt[k] <= jie {
      JdConversionKeepsOrder(boundsUt[k], jie);
    } else {
      JdConversionKeepsOrder(jie, boundsUt[k]);
    }
  }

  lemma JieOfYear(s: Sun, solarYear: int, k: int)
    requires Moves(s)
    ensures Jie(s, s.lon(JieTime(s, 12 * solarYear)), k) == JieTime(s, 12 * solarYear + k)
  {
    var first := LICHUN + 30.0 * (12 * solarYear - 12 * CYCLE_YEAR) as real;
    Reached(s, first);
    assert first + 30.0 * k as real == LICHUN + 30.0 * (12 * solarYear + k - 12 * CYCLE_YEAR) as real;
  }

  /** How far a found boundary can be from its Jie, in microseconds. */
  function SearchGap(accuracySeconds: real): real {
    Slack(accuracySeconds) * DAY as real + 1.0
  }

  /** The instant is further than that from the m-th Jie. */
  ghost predicate AwayFromJie(s: Sun, utc: int, m: int, accuracySeconds: real) {
    Abs((utc - JieUtc(s, m)) as real) > SearchGap(accuracySeconds)
  }

  /** A birth that is not ambiguous, and further from every Jie than the search is exact, has the exact
      month whatever the backend found. */
  lemma MonthIsExactAwayFromJie(marks: int -> int, b: Backend, clock: ChartClock, utc: int, solarYear: int,
                                accuracySeconds: real, boundsUt: seq<real>, k: nat)
    requires Sky(marks, b, clock) && SeparatedClock(clock)
    requires clock.ZoneClock? ==> !Ambiguous(clock.z, ToChart(clock, utc))
    requires AreBoundaries(b, JieTime(b.sun, 12 * solarYear), accuracySeconds, boundsUt)
    requires InFoundMonth(clock, boundsUt, ToChart(clock, utc), k) && InSolarYear(marks, ToChart(clock, utc), solarYear)
    requires forall m :: AwayFromJie(b.sun, utc, m, accuracySeconds)
    ensures InMonth(marks, ToChart(clock, utc), MonthNumber(solarYear, k))
  {
    forall j: nat | j < 12
      ensures FoundMark(clock, boundsUt, j) <= ToChart(clock, utc) <==> marks(12 * solarYear + j) <= ToChart(clock, utc)
    {
      var m, gap := 12 * solarYear + j, SearchGap(accuracySeconds);
      assert AwayFromJie(b.sun, utc, m, accuracySeconds);
      FoundNearJie(b, solarYear, accuracySeconds, boundsUt, j);
      FoundComparedAlike(clock, utc, JdUtToDatetimeUtc(boundsUt[j]), JieUtc(b.sun, m), gap);
      assert marks(m) == JieOnChart(b.sun, clock, m);
    }
    FoundMonthIsExact(marks, clock, solarYear, boundsUt, ToChart(clock, utc), k);
  }

  /** So the chart of such a birth has the month and year of the Jie whenever it is made. */
  lemma ChartIsExactAwayFromJie(marks: int -> int, b: Backend, ruleset: Option<Ruleset>, inp: Input, c: Chart)
    requires Sky(marks, b, c.time.clock) && SeparatedClock(c.time.clock)
    requires HonestChart(marks, b, ruleset, inp, c) && ReadsInstant(c)
    requires c.time.clock.ZoneClock? ==> !Ambiguous(c.time.clock.z, c.time.wall)
    requires forall m :: AwayFromJie(b.sun, c.time.utc, m, inp.accuracySeconds)
    ensures YearAndMonthPillars(marks, c)
    ensures InstantMonth(b.sun, c.time.utc, MonthNumber(c.date.year, c.date.monthIndex))
  {
    MonthIsExactAwayFromJie(marks, b, c.time.clock, c.time.utc, c.date.year, inp.accuracySeconds, c.date.boundsUt,
                            c.date.monthIndex);
    UnambiguousMonth(marks, b, c.time.clock, c.time.utc, MonthNumber(c.date.year, c.date.monthIndex));
  }

  lemma UnambiguousMonth(marks: int -> int, b: Backend, clock: ChartClock, utc: int, n: int)
    requires Sky(marks, b, clock) && SeparatedClock(clock) && InMonth(marks, ToChart(clock, utc), n)
    requires clock.ZoneClock? ==> !Ambiguous(clock.z, ToChart(clock, utc))
    ensures InstantMonth(b.sun, utc, n)
  {
    forall k ensures !ReversedAt(clock, utc, JieUtc(b.sun, k)) {
      NeverReversed(clock, utc, JieUtc(b.sun, k));
    }
    MonthIsOfInstantIff(marks, b, clock, utc, n);
  }

  lemma FoundComparedAlike(clock: ChartClock, utc: int, found: int, jie: int, gap: real)
    requires SeparatedClock(clock) && (clock.ZoneClock? ==> !Ambiguous(clock.z, ToChart(clock, utc)))
    requires Abs((found - jie) as real) <= gap < Abs((utc - jie) as real)
    ensures ToChart(clock, found) <= ToChart(clock, utc) <==> ToChart(clock, jie) <= ToChart(clock, utc)
  {
    NeverReversed(clock, utc, found);
    NeverReversed(clock, utc, jie);
  }

  lemma NeverReversed(clock: ChartClock, utc: int, other: int)
    requires SeparatedClock(clock) && (clock.ZoneClock? ==> !Ambiguous(clock.z, ToChart(clock, utc)))
    ensures !ReversedAt(clock, utc, other)
    ensures other <= utc <==> ToChart(clock, other) <= ToChart(clock, utc)
  {
    if clock.ZoneClock? {
      UnambiguousIsNotReversed(clock.z, utc, other);
    }
    ComparedAlike(clock, utc, other);
  }
}
