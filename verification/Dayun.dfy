/** The decades of luck: start age, the walk through the 60-cycle, real dates, and the decade
    that is current at a given instant. */
module Dayun {
  import opened Circle
  import opened Outcome
  import opened Gregorian
  import opened Clock
  import opened Ephemeris
  import opened Sexagenary
  import opened RealYears
  import opened Bazi
  import opened DayunAnchor

  // ---- start age ----

  const MAX_LIFE_YEARS := 120

  datatype StartAge = StartAge(years: int, months: int, days: int, decimalYears: real, capped: bool)

  function LifeDays(days: int, hours: int, minutes: int): real {
    (days * 120 + hours * 5) as real + minutes as real / 12.0
  }

  function ComputeStartAge(days: int, hours: int, minutes: int): StartAge {
    var lifeDays := LifeDays(days, hours, minutes);
    if lifeDays >= (MAX_LIFE_YEARS * 360) as real then StartAge(MAX_LIFE_YEARS, 0, 0, MAX_LIFE_YEARS as real, true)
    else
      var years := (lifeDays / 360.0).Floor;
      var remainder := lifeDays - (years * 360) as real;
      var months := (remainder / 30.0).Floor;
      var rest := (remainder - (months * 30) as real).Floor;
      StartAge(years, months, rest, lifeDays / 360.0, false)
  }

  /** Three days are a year: the decimal age is the distance in minutes over 4320, and years,
      months and days are its parts in a 360-day year. It is capped from 360 days on. */
  lemma ThreeDaysAYear(days: int, hours: int, minutes: int)
    requires 0 <= days && 0 <= hours && 0 <= minutes
    ensures var a := ComputeStartAge(days, hours, minutes);
            var total := (days * 24 + hours) * 60 + minutes;
            && (a.capped <==> total >= 360 * 1440)
            && (!a.capped ==>
                  && a.decimalYears * 4320.0 == total as real
                  && 0 <= a.years && 0 <= a.months < 12 && 0 <= a.days < 30
                  && var days := a.years * 360 + a.months * 30 + a.days;
                     days * 12 <= total < (days + 1) * 12)
            && (a.capped ==> a == StartAge(120, 0, 0, 120.0, true))
  {
  }

  /** The anchor lies inside the search window, so the cap is out of reach: the age is at most ten
      years, and below six for an adjacent term. */
  lemma StartAgeIsShort(index: nat, jd: real, birthUtc: int)
    requires Abs(jd - DatetimeUtcToJdUt(birthUtc)) <= WINDOW_HALF_DAYS
    ensures var d := SplitDelta(index, jd, birthUtc);
            var a := ComputeStartAge(d.days, d.hours, d.minutes);
            && !a.capped && 0.0 <= a.decimalYears <= 10.0
            && (Abs(jd - DatetimeUtcToJdUt(birthUtc)) <= 17.0 ==> a.decimalYears < 6.0)
  {
    DeltaParts(index, jd, birthUtc);
    var d := SplitDelta(index, jd, birthUtc);
    ThreeDaysAYear(d.days, d.hours, d.minutes);
  }

  // ---- the direction ----

  datatype Sex = Male | Female

  /** The ways a request can determine the direction of flow, with what it brings for them. */
  datatype DirectionRequest = NoMethod | Explicit(flow: Option<Flow>) | YearStemAndSex(sex: Option<Sex>)

  /** A yang year with a man and a yin year with a woman flow forward, the mixed pairs backward. */
  function ClassicalFlow(yearStem: int, sex: Sex): Flow {
    if (yearStem % 2 == 0) == (sex == Male) then Forward else Backward
  }

  function ResolveDirection(request: DirectionRequest, year: Pillar): Result<Flow> {
    match request
    case Explicit(Some(flow)) => Ok(flow)
    case YearStemAndSex(Some(sex)) => Ok(ClassicalFlow(year.stem, sex))
    case _ => Err(InputError)
  }

  /** The request brings what its method needs; then a direction is found for every year pillar. */
  predicate Resolvable(request: DirectionRequest) {
    match request
    case NoMethod => false
    case Explicit(flow) => flow.Some?
    case YearStemAndSex(sex) => sex.Some?
  }

  /** A request is resolved exactly if it brings what its method needs: the given direction, or forward for
      a man with an even year stem or a woman with an odd one. */
  lemma DirectionResolves(request: DirectionRequest, year: Pillar)
    ensures ResolveDirection(request, year).Ok? <==> Resolvable(request)
    ensures !Resolvable(request) ==> ResolveDirection(request, year) == Err(InputError)
    ensures forall flow :: request == Explicit(Some(flow)) ==> ResolveDirection(request, year) == Ok(flow)
    ensures forall sex :: request == YearStemAndSex(Some(sex)) ==>
              (ResolveDirection(request, year) == Ok(Forward) <==> (sex == Male <==> year.stem % 2 == 0))
  {
  }

  /** By the classical rule the direction is reversed from one solar year to the next and between
      the sexes. */
  lemma DirectionAlternates(solarYear: int, sex: Sex)
    ensures ResolveDirection(YearStemAndSex(Some(sex)), YearPillar(solarYear))
         == Ok(ClassicalFlow(YearPillar(solarYear).stem, sex))
    ensures ClassicalFlow(YearPillar(solarYear).stem, sex) == Forward <==> (solarYear % 2 == 0) == (sex == Male)
    ensures ClassicalFlow(YearPillar(solarYear).stem, sex) != ClassicalFlow(YearPillar(solarYear + 1).stem, sex)
  {
    YearStemParity(solarYear);
    YearStemParity(solarYear + 1);
    FlowFlips(YearPillar(solarYear).stem, YearPillar(solarYear + 1).stem, solarYear, sex);
  }

  lemma FlowFlips(stem: int, nextStem: int, year: int, sex: Sex)
    requires stem % 2 == year % 2 && nextStem % 2 == (year + 1) % 2
    ensures ClassicalFlow(stem, sex) == Forward <==> (year % 2 == 0) == (sex == Male)
    ensures ClassicalFlow(stem, sex) != ClassicalFlow(nextStem, sex)
  {
  }

  lemma YearStemParity(solarYear: int)
    ensures YearPillar(solarYear).stem % 2 == solarYear % 2
  {
    var n := solarYear - CYCLE_YEAR;
    Crt(n);
    SameParity(n % 10, 5 * (n / 10));
    SameParity(n, 992);
    assert n % 10 + 2 * (5 * (n / 10)) == n && n + 2 * 992 == solarYear;
  }

  lemma SameParity(r: int, k: int)
    ensures (r + 2 * k) % 2 == r % 2
  {
    assert r + 2 * k == 2 * (r / 2 + k) + r % 2;
  }

  // ---- the decades ----

  /** round(x, 2) */
  function Round2(x: real): real {
    RoundHalfEven(x * 100.0) as real / 100.0
  }

  lemma Round2Shift(x: real)
    ensures Round2(x + 10.0) == Round2(x) + 10.0
    ensures x - 0.005 <= Round2(x) <= x + 0.005
  {
    RoundShift(x * 100.0, 1000);
    assert (x + 10.0) * 100.0 == x * 100.0 + 1000 as real;
    RoundNearest(x * 100.0);
  }

  lemma WholeHundredths(x: real)
    ensures Round2(x) * 100.0 == (Round2(x) * 100.0).Floor as real
  {
    FloorOfWhole(RoundHalfEven(x * 100.0), Round2(x));
  }

  lemma FloorOfWhole(n: int, shown: real)
    requires shown == n as real / 100.0
    ensures shown * 100.0 == (shown * 100.0).Floor as real
  {
    assert shown * 100.0 == n as real;
  }

  datatype Info = Info(sequence: int, ageStart: real, ageEnd: real, dateStart: Date, dateEnd: Date, index60: int)

  /** A decade as the response lists it; only its mark changes after it is made. */
  class Decade {
    const info: Info
    var isCurrent: bool

    constructor (info: Info)
      ensures this.info == info && !isCurrent
    {
      this.info := info;
      isCurrent := false;
    }
  }

  function Sign(flow: Flow): int {
    if flow == Forward then 1 else -1
  }

  function AgeAt(startAge: real, i: int): real {
    startAge + (i * 10) as real
  }

  /** Position of decade i: i + 1 steps from the month pillar. */
  ghost predicate Placed(info: Info, month: Pillar, flow: Flow, i: int) {
    info.sequence == i + 1 && info.index60 == (Index60(month.stem, month.branch) + (i + 1) * Sign(flow)) % 60
  }

  /** Its ages, rounded to two decimals. */
  ghost predicate Aged(info: Info, startAge: real, i: int) {
    info.ageStart == Round2(AgeAt(startAge, i)) && info.ageEnd == Round2(AgeAt(startAge, i + 1))
  }

  /** Its dates, from the unrounded ages. */
  ghost predicate Dated(info: Info, birthWall: int, startAge: real, i: int) {
    && AddRealYears(birthWall, AgeAt(startAge, i)) == Ok(info.dateStart)
    && AddRealYears(birthWall, AgeAt(startAge, i + 1)) == Ok(info.dateEnd)
  }

  ghost predicate IsDecade(info: Info, birthWall: int, month: Pillar, flow: Flow, startAge: real, i: int) {
    Placed(info, month, flow, i) && Aged(info, startAge, i) && Dated(info, birthWall, startAge, i)
  }

  /** The ages of the decades form one chain of ten-year steps. */
  lemma AgesChain(x: Info, y: Info, startAge: real, i: int)
    requires Aged(x, startAge, i) && Aged(y, startAge, i + 1)
    ensures x.ageEnd == y.ageStart == x.ageStart + 10.0
  {
    Round2Shift(AgeAt(startAge, i));
    assert AgeAt(startAge, i + 1) == AgeAt(startAge, i) + 10.0;
  }

  /** Each decade's dates end where the next one's start, after 3651 to 3653 days, and after 3651
      only across a century year without a leap day. */
  lemma DatesChain(x: Info, y: Info, birthWall: int, startAge: real, i: int)
    requires Dated(x, birthWall, startAge, i) && Dated(y, birthWall, startAge, i + 1) && startAge >= 0.0 && i >= 0
    ensures x.dateEnd == y.dateStart
    ensures 3651 <= Jdn(x.dateEnd) - Jdn(x.dateStart) <= 3653
    ensures Jdn(x.dateEnd) - Jdn(x.dateStart) == 3651 ==>
              var y := YearReached(birthWall, AgeAt(startAge, i));
              SkipsLeapDay(y - 1, y + 10)
  {
    assert AgeAt(startAge, i + 1) == AgeAt(startAge, i) + 10.0;
    DecadeDates(birthWall, AgeAt(startAge, i), x.dateStart, x.dateEnd);
  }

  lemma StepInCycle(m: int, i: int, sign: int, x: int, y: int)
    requires sign == 1 || sign == -1
    requires x == (m + (i + 1) * sign) % 60 && y == (m + (i + 2) * sign) % 60
    ensures y % 60 == (x + sign) % 60
  {
  }

  /** The first decade has the number one and begins with the start age, on the day of that age. */
  lemma FirstDecade(x: Info, birthWall: int, month: Pillar, flow: Flow, startAge: real)
    requires IsDecade(x, birthWall, month, flow, startAge, 0)
    ensures x.sequence == 1 && Abs(x.ageStart - startAge) <= 0.005 && x.ageEnd == x.ageStart + 10.0
    ensures x.ageStart * 100.0 == (x.ageStart * 100.0).Floor as real
    ensures AddRealYears(birthWall, startAge) == Ok(x.dateStart)
    ensures AddRealYears(birthWall, startAge + 10.0) == Ok(x.dateEnd)
  {
    Round2Shift(startAge);
    WholeHundredths(startAge);
    assert AgeAt(startAge, 0) == startAge && AgeAt(startAge, 1) == startAge + 10.0;
  }

  /** Each decade's pillar is the next one of the 60-cycle in the direction of flow ... */
  lemma PillarsChain(x: Info, y: Info, month: Pillar, flow: Flow, i: int)
    requires Placed(x, month, flow, i) && Placed(y, month, flow, i + 1)
    ensures PillarFromIndex60(y.index60)
         == if flow == Forward then PillarFromIndex60(x.index60 + 1) else PillarFromIndex60(x.index60 - 1)
  {
    StepInCycle(Index60(month.stem, month.branch), i, Sign(flow), x.index60, y.index60);
    PillarDeterminesIndex(y.index60, x.index60 + Sign(flow));
  }

  /** ... starting one step from the month pillar, whose position the closed form recovers. */
  lemma FirstPillar(x: Info, monthIdx: int, flow: Flow)
    requires Placed(x, PillarFromIndex60(monthIdx), flow, 0)
    ensures PillarFromIndex60(x.index60)
         == if flow == Forward then PillarFromIndex60(monthIdx + 1) else PillarFromIndex60(monthIdx - 1)
  {
    PillarDeterminesIndex(monthIdx, monthIdx);
    FirstStep(monthIdx, Sign(flow));
    PillarDeterminesIndex(x.index60, monthIdx + Sign(flow));
  }

  lemma FirstStep(m: int, sign: int)
    ensures (m % 60 + sign) % 60 % 60 == (m + sign) % 60
  {
  }

  /** So the i-th decade has the pillar of the month i + 1 months on or back. */
  lemma DecadeIsMonth(x: Info, solarYear: int, monthIndex: int, flow: Flow, i: int)
    requires Placed(x, CycleMonth(solarYear, monthIndex), flow, i)
    ensures PillarFromIndex60(x.index60) == CycleMonth(solarYear, monthIndex + (i + 1) * Sign(flow))
  {
    var position := 12 * (solarYear - CYCLE_YEAR) + monthIndex + 2;
    var steps := (i + 1) * Sign(flow);
    AdvancedIs(position, steps);
    var month := CycleMonth(solarYear, monthIndex);
    PillarDeterminesIndex(Index60(month.stem, month.branch) + steps, 0);
  }

  lemma SignedSteps(i: int, flow: Flow)
    ensures (i + 1) * Sign(flow) == if flow == Forward then i + 1 else -(i + 1)
  {
  }

  method MakeDecade(birthWall: int, month: Pillar, flow: Flow, startAge: real, i: nat) returns (r: Result<Decade>)
    ensures r.Ok? <==> BoundariesExist(birthWall, startAge, i)
    ensures r.Ok? ==> fresh(r.value) && !r.value.isCurrent
    ensures r.Ok? ==> IsDecade(r.value.info, birthWall, month, flow, startAge, i)
  {
    var index60 := (Index60(month.stem, month.branch) + (i + 1) * Sign(flow)) % 60;
    var ageStart := startAge + (i * 10) as real;
    var ageEnd := ageStart + 10.0;
    assert ageStart == AgeAt(startAge, i) && ageEnd == AgeAt(startAge, i + 1);
    var dateStart := AddRealYears(birthWall, ageStart);
    if dateStart.Err? {
      return Err(dateStart.error);
    }
    var dateEnd := AddRealYears(birthWall, ageEnd);
    if dateEnd.Err? {
      return Err(dateEnd.error);
    }
    var cycle := new Decade(Info(i + 1, Round2(ageStart), Round2(ageEnd), dateStart.value, dateEnd.value, index60));
    r := Ok(cycle);
  }

  /** All decade boundaries of the chart are dates of the calendar. */
  ghost predicate DatesExist(birthWall: int, startAge: real, count: nat) {
    forall i :: 0 <= i < count ==> BoundariesExist(birthWall, startAge, i)
  }

  ghost predicate BoundariesExist(birthWall: int, startAge: real, i: int) {
    AddRealYears(birthWall, AgeAt(startAge, i)).Ok? && AddRealYears(birthWall, AgeAt(startAge, i + 1)).Ok?
  }

  /** They are, if the last decade ends two years before the calendar does. */
  lemma DatesInRange(birthWall: int, startAge: real, count: nat)
    requires 0.0 <= startAge && 1 <= DateOfWall(birthWall).year
    requires DateOfWall(birthWall).year + Trunc(startAge) + 10 * count <= MAX_YEAR - 2
    ensures DatesExist(birthWall, startAge, count)
  {
    forall i | 0 <= i < count ensures BoundariesExist(birthWall, startAge, i) {
      assert AgeAt(startAge, i).Floor == startAge.Floor + 10 * i;
      assert AgeAt(startAge, i + 1).Floor == startAge.Floor + 10 * (i + 1);
      DateExists(birthWall, AgeAt(startAge, i));
      DateExists(birthWall, AgeAt(startAge, i + 1));
    }
  }

  ghost predicate AreDecades(infos: seq<Info>, birthWall: int, month: Pillar, flow: Flow, startAge: real) {
    forall i :: 0 <= i < |infos| ==> IsDecade(infos[i], birthWall, month, flow, startAge, i)
  }

  /** What the list says, without the marks. */
  ghost function Infos(cycles: seq<Decade>): seq<Info> {
    seq(|cycles|, i requires 0 <= i < |cycles| => cycles[i].info)
  }

  lemma OneMoreDecade(cycles: seq<Decade>, cycle: Decade, birthWall: int, month: Pillar, flow: Flow, startAge: real)
    requires AreDecades(Infos(cycles), birthWall, month, flow, startAge)
    requires IsDecade(cycle.info, birthWall, month, flow, startAge, |cycles|)
    ensures AreDecades(Infos(cycles + [cycle]), birthWall, month, flow, startAge)
  {
    assert Infos(cycles + [cycle]) == Infos(cycles) + [cycle.info];
  }

  lemma OneMoreDate(birthWall: int, startAge: real, i: nat, count: nat)
    requires i < count && DatesExist(birthWall, startAge, i)
    ensures BoundariesExist(birthWall, startAge, i) ==> DatesExist(birthWall, startAge, i + 1)
    ensures !BoundariesExist(birthWall, startAge, i) ==> !DatesExist(birthWall, startAge, count)
  {
  }

  method DecadeCycles(birthWall: int, month: Pillar, flow: Flow, startAge: real, count: nat)
    returns (r: Result<seq<Decade>>)
    ensures r.Ok? <==> DatesExist(birthWall, startAge, count)
    ensures r.Ok? ==>
              && |r.value| == count
              && (forall i :: 0 <= i < count ==> fresh(r.value[i]) && !r.value[i].isCurrent)
              && (forall i, j :: 0 <= i < j < count ==> r.value[i] != r.value[j])
              && AreDecades(Infos(r.value), birthWall, month, flow, startAge)
  {
    var cycles: seq<Decade> := [];
    for i := 0 to count
      invariant |cycles| == i
      invariant forall k :: 0 <= k < i ==> fresh(cycles[k]) && !cycles[k].isCurrent
      invariant forall j, k :: 0 <= j < k < i ==> cycles[j] != cycles[k]
      invariant AreDecades(Infos(cycles), birthWall, month, flow, startAge)
      invariant DatesExist(birthWall, startAge, i)
    {
      var made := MakeDecade(birthWall, month, flow, startAge, i);
      OneMoreDate(birthWall, startAge, i, count);
      if made.Err? {
        return Err(made.error);
      }
      OneMoreDecade(cycles, made.value, birthWall, month, flow, startAge);
      cycles := cycles + [made.value];
    }
    r := Ok(cycles);
  }

  // ---- the current decade ----

  /** Age in mean years at an instant. */
  function AgeOn(birthUtc: int, asOf: int): real {
    (asOf - birthUtc) as real / DAY as real / MEAN_YEAR_DAYS
  }

  predicate Covers(info: Info, birthUtc: int, asOf: int) {
    asOf >= birthUtc && info.ageStart <= AgeOn(birthUtc, asOf) < info.ageEnd
  }

  method SelectCurrent(cycles: seq<Decade>, birthUtc: int, asOf: int) returns (c: Decade?)
    ensures c == null <==> forall k :: 0 <= k < |cycles| ==> !Covers(cycles[k].info, birthUtc, asOf)
    ensures c != null ==>
              exists k :: 0 <= k < |cycles| && cycles[k] == c && Covers(c.info, birthUtc, asOf)
                          && forall j :: 0 <= j < k ==> !Covers(cycles[j].info, birthUtc, asOf)
  {
    if |cycles| == 0 {
      return null;
    }
    if asOf < birthUtc {
      return null;
    }
    var currentAge := AgeOn(birthUtc, asOf);
    for i := 0 to |cycles|
      invariant forall k :: 0 <= k < i ==> !Covers(cycles[k].info, birthUtc, asOf)
    {
      if cycles[i].info.ageStart <= currentAge < cycles[i].info.ageEnd {
        return cycles[i];
      }
    }
    return null;
  }

  lemma {:induction false} AgesApart(infos: seq<Info>, startAge: real, i: nat, j: nat)
    requires forall k :: 0 <= k < |infos| ==> Aged(infos[k], startAge, k)
    requires i < j < |infos|
    ensures infos[i].ageEnd <= infos[j].ageStart
    decreases j - i
  {
    AgesChain(infos[i], infos[i + 1], startAge, i);
    if i + 1 < j {
      AgesApart(infos, startAge, i + 1, j);
    }
  }

  /** No age is covered twice ... */
  lemma AtMostOneCovers(infos: seq<Info>, startAge: real, birthUtc: int, asOf: int, i: nat, j: nat)
    requires forall k :: 0 <= k < |infos| ==> Aged(infos[k], startAge, k)
    requires i < |infos| && j < |infos|
    requires Covers(infos[i], birthUtc, asOf) && Covers(infos[j], birthUtc, asOf)
    ensures i == j
  {
    if i < j {
      AgesApart(infos, startAge, i, j);
    } else if j < i {
      AgesApart(infos, startAge, j, i);
    }
  }

  /** ... and every age from the first start to the last end is covered. */
  lemma {:induction false} SomeDecadeCovers(infos: seq<Info>, startAge: real, birthUtc: int, asOf: int, i: nat)
    requires forall k :: 0 <= k < |infos| ==> Aged(infos[k], startAge, k)
    requires i < |infos| && asOf >= birthUtc
    requires infos[i].ageStart <= AgeOn(birthUtc, asOf) < infos[|infos| - 1].ageEnd
    ensures exists k :: i <= k < |infos| && Covers(infos[k], birthUtc, asOf)
    decreases |infos| - i
  {
    if AgeOn(birthUtc, asOf) < infos[i].ageEnd {
      assert Covers(infos[i], birthUtc, asOf);
    } else {
      AgesChain(infos[i], infos[i + 1], startAge, i);
      SomeDecadeCovers(infos, startAge, birthUtc, asOf, i + 1);
    }
  }

  /** Marks the selected decade in place. */
  method MarkCurrent(cycles: seq<Decade>, birthUtc: int, asOf: int, ghost startAge: real)
    requires forall k :: 0 <= k < |cycles| ==> Aged(cycles[k].info, startAge, k)
    requires forall i, j :: 0 <= i < j < |cycles| ==> cycles[i] != cycles[j]
    requires forall k :: 0 <= k < |cycles| ==> !cycles[k].isCurrent
    modifies cycles
    ensures forall k :: 0 <= k < |cycles| ==> (cycles[k].isCurrent <==> Covers(cycles[k].info, birthUtc, asOf))
    ensures forall i, j :: 0 <= i < |cycles| && 0 <= j < |cycles| && cycles[i].isCurrent && cycles[j].isCurrent ==>
              i == j
  {
    var current := SelectCurrent(cycles, birthUtc, asOf);
    forall i, j | 0 <= i < |cycles| && 0 <= j < |cycles|
                  && Covers(cycles[i].info, birthUtc, asOf) && Covers(cycles[j].info, birthUtc, asOf)
      ensures i == j
    {
      AtMostOneCovers(Infos(cycles), startAge, birthUtc, asOf, i, j);
    }
    if current != null {
      current.isCurrent := true;
    }
  }

  datatype Dayun = Dayun(chart: Chart, flow: Flow, anchor: Anchor, startAge: StartAge, cycles: seq<Decade>)

  /** The start age from the adjacent term. */
  function AgeFromTerm(s: Sun, birthUtc: int, flow: Flow): real {
    var n := AdjacentTerm(s, DatetimeUtcToJdUt(birthUtc), flow);
    var d := SplitDelta(TermIndex(n), TermTimeOf(s, n), birthUtc);
    ComputeStartAge(d.days, d.hours, d.minutes).decimalYears
  }

  ghost predicate HasDates(s: Sun, birthWall: int, birthUtc: int, flow: Flow, count: nat) {
    DatesExist(birthWall, AgeFromTerm(s, birthUtc, flow), count)
  }

  /** What the decades of a birth are, apart from the marks. */
  ghost predicate AreDecadesOf(b: Backend, inp: Input, count: nat, d: Dayun) {
    var age := d.startAge;
    && IsAnchor(b, d.chart.time.utc, d.flow, d.anchor)
    && age == ComputeStartAge(d.anchor.days, d.anchor.hours, d.anchor.minutes)
    && !age.capped && 0.0 <= age.decimalYears <= 10.0
    && |d.cycles| == count
    && AreDecades(Infos(d.cycles), inp.birthLocal, d.chart.pillars.month, d.flow, age.decimalYears)
  }

  /** A decade is marked exactly if it covers the instant, and at most one is. */
  ghost predicate IsMarked(cycles: seq<Decade>, birthUtc: int, asOf: int)
    reads cycles
  {
    && (forall k :: 0 <= k < |cycles| ==> (cycles[k].isCurrent <==> Covers(cycles[k].info, birthUtc, asOf)))
    && (forall i, j :: 0 <= i < |cycles| && 0 <= j < |cycles| && cycles[i].isCurrent && cycles[j].isCurrent ==> i == j)
  }

  lemma AnchorAge(b: Backend, birthUtc: int, flow: Flow, a: Anchor)
    requires IsAnchor(b, birthUtc, flow, a)
    ensures var age := ComputeStartAge(a.days, a.hours, a.minutes);
            && !age.capped && 0.0 <= age.decimalYears <= 10.0
            && (Honest(b) && (Direct(b) || Clear(b.sun, DatetimeUtcToJdUt(birthUtc))) ==> age.decimalYears < 6.0)
  {
    var birth := DatetimeUtcToJdUt(birthUtc);
    StartAgeIsShort(a.index, a.jd, birthUtc);
    if Honest(b) {
      var n := AdjacentTerm(b.sun, birth, flow);
      AdjacentIsNearest(b.sun, birth, flow, n);
      SlackIsHalfASecond();
    }
  }

  /** The decades of a birth with the current one marked. */
  method CalculateDayun(b: Backend, ruleset: Option<Ruleset>, inp: Input, request: DirectionRequest, count: nat,
                        asOf: int, ghost marks: int -> int)
    returns (r: Result<Dayun>)
    ensures r.Ok? ==> ResolveDirection(request, r.value.chart.pillars.year) == Ok(r.value.flow)
    ensures r.Ok? ==> AreDecadesOf(b, inp, count, r.value)
    ensures r.Ok? ==> IsMarked(r.value.cycles, r.value.chart.time.utc, asOf)
    ensures ChartTimeFor(inp).Err? ==> r == Err(ChartTimeFor(inp).error)
    ensures !Resolvable(request) ==> r.Err?
    ensures r.Ok? ==> ChartTimeFor(inp) == Ok(r.value.chart.time)
    ensures r.Ok? ==> ByTables(ruleset, r.value.chart.pillars, r.value.chart.date)
    ensures r.Ok? && SkyOver(marks, b, r.value.chart.time.clock, r.value.chart.time.wall)
            && DayAndHourReady(inp, ruleset) ==>
              HonestChart(marks, b, ruleset, inp, r.value.chart)
    ensures r.Ok? && Ready(marks, b, ruleset, inp, r.value.chart.time) ==> DirectChart(marks, b, r.value.chart)
    // With a ready request only a missing direction and the range of the calendar can stop it.
    ensures ChartTimeFor(inp).Ok? && Ready(marks, b, ruleset, inp, ChartTimeFor(inp).value) && Resolvable(request)
            && (forall flow :: HasDates(b.sun, inp.birthLocal, ChartTimeFor(inp).value.utc, flow, count)) ==>
              r.Ok?
  {
    var chart := ComputeBazi(b, ruleset, inp, marks);
    if chart.Err? {
      return Err(chart.error);
    }
    DirectionResolves(request, chart.value.pillars.year);
    var flow := ResolveDirection(request, chart.value.pillars.year);
    if flow.Err? {
      return Err(flow.error);
    }
    r := DecadesOfChart(b, inp, chart.value, flow.value, count, asOf);
  }

  method DecadesOfChart(b: Backend, inp: Input, chart: Chart, flow: Flow, count: nat, asOf: int)
    returns (r: Result<Dayun>)
    ensures r.Ok? ==> r.value.chart == chart && r.value.flow == flow && fresh(r.value.cycles)
    ensures r.Ok? ==> AreDecadesOf(b, inp, count, r.value)
    ensures r.Ok? ==> IsMarked(r.value.cycles, chart.time.utc, asOf)
    ensures Direct(b) ==> (r.Ok? <==> HasDates(b.sun, inp.birthLocal, chart.time.utc, flow, count))
  {
    var anchor := ResolveJieqiAnchor(b, chart.time.utc, flow);
    if anchor.Err? {
      return Err(anchor.error);
    }
    AnchorAge(b, chart.time.utc, flow, anchor.value);
    var startAge := ComputeStartAge(anchor.value.days, anchor.value.hours, anchor.value.minutes);
    var made := DecadeCycles(inp.birthLocal, chart.pillars.month, flow, startAge.decimalYears, count);
    if made.Err? {
      return Err(made.error);
    }
    var cycles := made.value;
    forall k | 0 <= k < count ensures Aged(cycles[k].info, startAge.decimalYears, k) {
      assert Infos(cycles)[k] == cycles[k].info;
    }
    MarkCurrent(cycles, chart.time.utc, asOf, startAge.decimalYears);
    r := Ok(Dayun(chart, flow, anchor.value, startAge, cycles));
  }

  /** The decades walk on from the month of the birth through the 60-cycle. */
  lemma DecadesWalkOn(b: Backend, inp: Input, count: nat, d: Dayun, i: nat)
    requires AreDecadesOf(b, inp, count, d) && PillarsOfDate(d.chart) && i < count
    ensures PillarFromIndex60(d.cycles[i].info.index60)
         == if d.flow == Forward then CycleMonth(d.chart.date.year, d.chart.date.monthIndex + i + 1)
            else CycleMonth(d.chart.date.year, d.chart.date.monthIndex - i - 1)
  {
    assert IsDecade(Infos(d.cycles)[i], inp.birthLocal, d.chart.pillars.month, d.flow, d.startAge.decimalYears, i);
    SignedSteps(i, d.flow);
    DecadeIsMonth(d.cycles[i].info, d.chart.date.year, d.chart.date.monthIndex, d.flow, i);
  }
}
