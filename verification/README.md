# FuFirE time and calendar engine: a verified model

This project models the arithmetic core of the FuFirE engine and proves what it promises:
the four pillars of an instant, the solar-term search below them, the handling of local times
around clock changes, apparent solar time, the branch mapping, the lunation finder, the decades
of luck, and two algorithms beside the engine (tie-averaged ranks and the snapshot merge).

Degrees, Julian days and hours are exact reals; wall clocks and instants are integer
microseconds. The Sun is any motion that advances between 0.9 and 1.1 degrees a day
(`Ephemeris.Moves`), the Moon's elongation any motion between 10 and 14.5 degrees a day
(`Lunation.Orbits`), both unwrapped; their inverses stand for continuity. The direct crossing search
of an ephemeris backend is a parameter: it may answer with the first crossing or not at all
(`Ephemeris.Honest`). A time zone is a list of offset changes read with the fold rule of PEP 495,
section "Guidelines for New tzinfo Implementations".

Loops that update variables are methods with invariants; arithmetic on arguments is functions
and lemmas; the decades are objects whose mark is set in place.

These assumptions hold together: `MeanSky.EveryRequestIsReady` gives a Sun in uniform motion whose
LiChun keeps inside the calendar years it is asked for (-1 to 10000), with which every parsable request
on a clock less than a day from UTC is ready; a Sun that keeps the tropical year meets the assumption
as well (`MeanSky.TropicalSunHasLiChun`). `MeanSky.MeanMoonIsSmooth` gives a Moon.

## Main results

- **Whole runs of the pillars.** With a direct backend every request gets pillars that are
  positions of four running counts (`Bazi.ComputeBazi`): the month pillar is the 60-cycle
  position of the number of the last Jie which, in the order of the chart's wall readings, never goes
  back and moves by one at each Jie, LiChun included (`Bazi.ChartsRun`, `Bazi.ChartsAtJie`); the 24
  attached solar terms alternate with the months; day and hour pillars are the 60-cycle positions of
  the running two-hour stretches of the deciding clock, for civil, mean-time and true-solar charts
  alike (`Bazi.HoursRun`; for a ruleset whose solar day turns at another hour than 23:00
  `Bazi.SolarDayTurnsAt`). A backend that answers only sometimes still gives the exact solar year, and
  the exact month to every birth outside the repeated hours that is further from each Jie than the
  search is exact (`Bazi.ChartIsExactAwayFromJie`).
- **Wall readings are not instants.** The engine compares a birth with a Jie on the chart's clock. The
  month so found is that of the instant if and only if no Jie lies in one repeated hour with the birth,
  their readings reversed (`Bazi.MonthIsOfInstantIff`); on mean time it always is. Apart from such births
  months run in time (`Bazi.ChartsRunInTime`); `MeanSky.MonthGoesBack` is a pair of births where month and
  year go back as time advances.
- **The crossing search is right exactly half the circle ahead.** Without a direct answer,
  `find_crossing` also stops at the jump of the wrapped angle. It returns the next crossing of its
  target if and only if the target is at most 180 degrees ahead; otherwise it returns the passage
  of the opposite point (`Jieqi.ScanEventIsCrossing`). The chain of month boundaries stays inside
  that range for every backend; the list of 24 terms can never be completed by the scan alone.
- **Wall times are classified exactly.** The two round-trip tests count the instants a wall time
  stands for: none, one or two (`LocalTime.ClassificationIsExact`), and the engine's resolvers agree on
  every existing wall time. Inside a gap they agree only where its end is in the sixtieth minute from
  the wall time (`LocalTime.NudgeSucceedsWithinTheHour`).
- **The boundary distance is safe exactly for widths that divide the turn** or whose cut-off last
  branch carries the first index (`Branches.DistanceSafeIff`); the branch width is configurable, so
  this is a condition on the configuration; width 50 fails it (`Branches.UnsafeWidthFifty`).
- **The lunation finder** returns the two adjacent new moons whenever it returns. In the last
  second before a new moon its repair step overshoots by a whole cycle and the call raises
  instead (`Lunation.LunationMetrics`, and for the mean Moon `MeanSky.LastSecondRaises`).
- **The anchor of the decades** is the adjacent solar term. When only the scan can answer, every term
  is found twice, under its own name and under the opposite one, and the earlier name of the list
  wins: the time stays right, but the name is right if and only if the term is one of the twelve
  from Li Chun to Da Shu (`DayunAnchor.ResolveJieqiAnchor`, which also settles a term at a whole
  number of days from the birth; births within half a second of a term are excepted).
  `MeanSky.LiQiuIsCalledLiChun` is a birth with the wrong name.
- **The decades** form one chain of ages, dates and pillars that walks on from the chart's own month.
  The marked decade is not always the one whose dates hold the day: marks go by rounded mean years,
  dates by the calendar. They agree on every day if and only if both reach every boundary on the same
  day (`CurrentDecade.DayunMarksAgreeIff`), both days being functions of the birth and its start age.
  With eight decades, the number listed by default, this never happens when they begin between 1901 and
  2019; and with ten that begin by 2009 every birth has days that the marked decade's dates do not even
  hold (`CurrentDecade.MarksNeverAgree`). `MeanSky.MarkedBeforeItsDates` is such a day; in any case the
  marked decade's dates hold the day up to eight days (`CurrentDecade.CurrentNearItsDates`).
- **The rank statistic** is the textbook form by rank totals (`Ranks.HByRankTotals`). For tie-averaged ranks
  it lies between 0 and n - 1, reaches n - 1, and is 0 if and only if all groups share one mean rank
  (`Ranks.HAtMost`, `Ranks.HIsReached`, `Ranks.HZeroIff`), so the effect size lies between 0 and 1.
- **The snapshot merge** removes exactly the numeric noise from the report
  (`Snapshot.MergeRemovesExactlyNoise`), which has one line for each differing position, in order; that
  settles the whole list of strings (`Snapshot.ReportIsDetermined`). A bool
  rewritten as the number it equals is merged but never reported, since the report compares with
  Python's `==` (`Snapshot.HiddenChange`); nothing else is (`Snapshot.MergedSameIff`).

## Files

| file | content |
|---|---|
| `Circle.dfy`, `Outcome.dfy`, `Sorting.dfy` | wrapped angles, results, the stable sort |
| `Ephemeris.dfy`, `Jieqi.dfy`, `SolarTerms.dfy` | the Sun, the crossing search, month boundaries, the 24 terms |
| `Gregorian.dfy`, `Clock.dfy` | calendar day count, microsecond clocks, Julian-day conversion |
| `Zone.dfy`, `LocalTime.dfy`, `TrueSolar.dfy` | zones and folds, the resolvers, apparent solar time |
| `Branches.dfy`, `Sexagenary.dfy`, `Bazi.dfy` | branch mapping, the 60-cycle, the four pillars |
| `Lunation.dfy` | the lunation finder |
| `MeanSky.dfy` | uniform motions that meet every assumption |
| `DayunAnchor.dfy`, `RealYears.dfy`, `Dayun.dfy` | anchor term, leap-aware dates, decades |
| `CurrentDecade.dfy` | the marked decade against the decades' dates |
| `Ranks.dfy`, `Snapshot.dfy` | tie-averaged ranks, snapshot merge and report |

## Model

| member | source | states |
|---|---|---|
| Circle.Norm360Canonical | bazi_engine/ephemeris.py:17-21 | the wrap picks one representative per direction: same direction iff same wrapped value |
| Ephemeris.NextCrossingIsFirst | bazi_engine/ephemeris.py:139-144 | the direct search's answer is the first time at or after the start at which the Sun stands in the target direction |
| Jieqi.BisectionCrossing | bazi_engine/jieqi.py:10-41 | raises iff the end values have one sign; the result is the middle of a sign bracket; if the bracket holds one change of sign it is within max(tolerance/2, w/2^81) of it and depends on nothing but the bracket and the place of the change |
| Jieqi.AccuracyIs | bazi_engine/jieqi.py:28-41 | the accuracy is half the tolerance, at 86400 seconds a day, or half the width that n halvings leave, whichever is more |
| Jieqi.StepsCoverSpan | bazi_engine/jieqi.py:55-59 | the daily steps reach past the span by at most a day |
| Jieqi.FindCrossing | bazi_engine/jieqi.py:43-72 | a direct answer is passed on; the scan returns iff its event lies in the span, and then the end of the bisection of the day that leads to it, within the accuracy; otherwise CalculationError |
| Jieqi.ScanEndNear | bazi_engine/jieqi.py:29-41 | the scan ends within the slack of its event, and strictly before an event at a whole number of days that it passes downwards |
| Jieqi.ScanEventIsCrossing | bazi_engine/jieqi.py:55-68 | the scan finds the next crossing of the target iff it is at most 180 degrees ahead, else the passage of the opposite point at least 163 days before it |
| Jieqi.MonthBoundariesFromLiChun | bazi_engine/jieqi.py:74-87 | for any backend that answers honestly or not at all the chain never raises, and the k-th boundary is the k-th Jie within the accuracy, exactly for a direct backend |
| Jieqi.NextJie | bazi_engine/jieqi.py:81-86 | from a cursor within 1.1 days of a Jie the next target is the next crossing, within 36 days, despite the 1e-6 day step |
| Jieqi.MonthsAreSeparate | bazi_engine/jieqi.py:80-87 | boundaries increase by 27 to 33.4 days up to twice the slack, and no Jie lies between two of them |
| SolarTerms.Compute24SolarTermsForWindow | bazi_engine/jieqi.py:89-102 | in every window a direct backend yields exactly the terms whose next time lies in it, each once and in order of time; from LiChun to LiChun these are all 24, 15 degrees apart; a scan-only backend always raises |
| SolarTerms.SomeTermOutOfReach | bazi_engine/jieqi.py:97-98 | from every start some term is 60 to 75 degrees ahead, out of reach of a 30-day scan |
| Gregorian.JdnOfNextDay | bazi_engine/bazi.py:25-29 | the closed-form day number rises by exactly one from every calendar day to the next |
| Gregorian.JdnOrdersDates | bazi_engine/bazi.py:25-29 | the day number orders dates as the calendar does and is a bijection with inverse DateOf |
| Gregorian.KnownDays | bazi_engine/bazi.py:25-29 | 1 January 2000 is day 2451545, and the calendar's years begin at day 1721426 and end before 5373485 |
| Clock.JdConversionRoundsOnce | bazi_engine/ephemeris.py:252-266 | splitting into fields, rounding the microsecond, clamping and carrying equal one half-even rounding of the instant |
| Clock.JdConversionKeepsOrder | bazi_engine/ephemeris.py:252-266 | the conversion keeps order and distorts distances by at most one microsecond |
| Clock.WallParts | bazi_engine/bazi.py:53-54 | date and hour of a wall time, with less than an hour left over |
| Zone.OutsideWindows | bazi_engine/time_utils.py:93-102 | outside every gap and overlap a wall time has exactly one instant, the same under both folds |
| Zone.ReadingsReversed | bazi_engine/time_utils.py:93-102 | a later instant has an earlier or equal wall reading only if both read inside one overlap, before and after its clock change |
| Zone.InsideWindow | bazi_engine/time_utils.py:93-102 | inside a gap there is no instant, inside an overlap exactly the two of the offsets around it |
| LocalTime.ClassificationIsExact | bazi_engine/time_utils.py:139-145 | nonexistent iff no instant, ambiguous iff two; both folds round-trip or neither; fold 0 is the earlier, fold 1 the later instant |
| LocalTime.ResolveLocalIso | bazi_engine/time_utils.py:105-205 | status, fold and error for every policy; shift_forward returns the least whole-minute shift to an existing time, or raises if none within 48 hours |
| LocalTime.GapRepair | bazi_engine/time_utils.py:149-185 | out of a gap of at most 48 hours the least shift is the started minutes to its end, is found, and lands on an unambiguous existing time |
| LocalTime.LeastShiftIsUnique | bazi_engine/time_utils.py:162-167 | there is only one least shift |
| LocalTime.ChoiceIsExtreme | bazi_engine/time_utils.py:147-189 | earlier and later are the least and greatest instant of an existing wall time |
| LocalTime.StrictAcceptsExisting | bazi_engine/time_utils.py:298-327 | strict parsing accepts exactly the wall times that exist, under either fold |
| LocalTime.LenientReadsSkipped | bazi_engine/time_utils.py:298-327 | lenient parsing accepts everything; a skipped time becomes the instant as long after the clock change as the time is into the gap, with fold 1 as long before it as the time is from the end, and shown again it has moved across the gap |
| LocalTime.ReparsingKeepsInstant | bazi_engine/routers/bazi.py:371-394 | stripping a resolved time to a bare wall time and parsing it with the policy's fold is accepted and gives the same instant, except iff a time was shifted onto an ambiguous one under the later policy; then it gives the later instant |
| LocalTime.GapBeforeOverlap | bazi_engine/routers/bazi.py:371-394 | a zone in which that happens: a skipped hour directly followed by a repeated one |
| LocalTime.DetectLocalTimeStatus | bazi_engine/bafe/time_model.py:15-37 | the validator's status equals the resolver's classification, and its fold is the first that round-trips |
| LocalTime.ResolveLocalTime | bazi_engine/bafe/time_model.py:39-80 | outcome for every policy, with the one-hour nudge out of gaps |
| LocalTime.ResolversAgree | bazi_engine/bafe/time_model.py:39-57 | resolver and validator give the same, extreme instant for every existing wall time |
| LocalTime.NudgeSucceedsWithinTheHour | bazi_engine/bafe/time_model.py:66-80 | the nudge succeeds iff the gap ends (starts) within the hour, and agrees with shift_forward iff the end is in the sixtieth minute |
| TrueSolar.TruncationKeepsDecisions | bazi_engine/time_context.py:151-161 | hour branch and the 23:00 test on truncated micro-hours are those on exact microseconds, and the truncation is below a micro-hour |
| TrueSolar.TruncationAtStartHour | bazi_engine/bazi.py:125-127 | for any other start hour they agree on every clock iff its first microsecond is a whole micro-hour or outside the day |
| TrueSolar.HoursSinceMidnight | bazi_engine/time_context.py:158-161 | the hour of the day is the time since the solar clock's midnight, cut off behind the sixth decimal |
| TrueSolar.SolarShiftIs | bazi_engine/time_context.py:146-148 | the solar clock is four minutes per degree east plus the equation of time ahead of UTC, to the nearest microsecond |
| TrueSolar.RolloverIsSolarDate | bazi_engine/time_context.py:158-162 | civil date plus rollover is the apparent solar date, and the rollover is within two days |
| TrueSolar.RolloverExtremes | bazi_engine/time_context.py:158-162 | both extreme rollovers occur |
| Branches.DeltaIsShortestArc | bazi_engine/bafe/mapping.py:17-27 | the mapping's wrap is the ephemeris' wrap except at the opposite point, and the absolute difference is the shortest way around the circle |
| Branches.BranchIsCentred | bazi_engine/bafe/mapping.py:28-37 | branch 0 is centred on the apex and branch k mod 12 k widths on: an angle off such a centre by d, less than half a width, has that branch, and its boundary distance is half the width minus the absolute value of d |
| Branches.EveryAngleIsPlaced | bazi_engine/bafe/mapping.py:28-37 | every angle lies at just one such place |
| Branches.ConventionsAgree | bazi_engine/bafe/mapping.py:33-51 | shifting boundaries and shifting longitudes give the same branch for all angles, apexes, non-zero widths and offsets |
| Branches.MixedConventionDetected | bazi_engine/bafe/mapping.py:53-67 | the mixed form agrees everywhere iff the offset is whole turns |
| Branches.DistanceSafeIff | bazi_engine/bafe/mapping.py:69-78 | steps below the reported distance keep the branch at every angle iff the width divides the turn, or the cut-off last branch has index 0, or the width is negative and no distance positive |
| Branches.UnsafeWidthFifty | bazi_engine/bafe/mapping.py:69-78 | at width 50 an angle nine degrees from the reported boundary changes its branch within two degrees |
| Branches.DistanceIsTight | bazi_engine/bafe/service.py:223-229 | at width 30 steps arbitrarily little longer change the branch |
| Branches.HourDistance | bazi_engine/bafe/mapping.py:80-107 | the hour distance is the distance to the ends of the two-hour stretch that decides the branch |
| Branches.HourDistanceIsSafe | bazi_engine/bafe/mapping.py:88-107 | shifts below the reported minutes keep the hour branch |
| Branches.HourDistanceIsTight | bazi_engine/bafe/service.py:230-234 | shifts arbitrarily little longer change it |
| Lunation.PhaseIsNearestCenter | bazi_engine/lunar_state.py:153-180 | phase i is centred on 45 i degrees, so 0 holds around the new and 4 around the full moon; it is the one whose centre is at most 22.5 degrees away, lower edge included; both edges are 22.5 degrees from the centre, and the progress is measured from the lower one |
| Lunation.NewtonContracts | bazi_engine/lunar_state.py:257-260 | one step started within half a cycle shrinks the error to at most 0.45 of itself |
| Lunation.NewtonSquares | bazi_engine/lunar_state.py:257-260 | on a smooth orbit one step shrinks the error quadratically |
| Lunation.RefinePhaseEvent | bazi_engine/lunar_state.py:251-276 | what it returns is an event to 1e-6 degrees; started within half a cycle it can only be that one, to 1e-7 days; on a smooth orbit it always returns |
| Lunation.LunationMetrics | bazi_engine/lunar_state.py:326-357 | what is returned are the adjacent new moons, to 1e-7 days; it raises in the last second before a new moon and, on a smooth orbit, returns before it |
| Lunation.MetricsBetween | bazi_engine/lunar_state.py:344-357 | what is accepted are lengths between 20 and 40 days and ages up to a second beyond the length, with age, length and share; adjacent events are, a skipped event is not |
| MeanSky.LastSecondRaises | bazi_engine/lunar_state.py:335-357 | half a second before a new moon of the mean Moon the call raises |
| Sexagenary.PillarDeterminesIndex | bazi_engine/routers/dayun.py:163-176 | stem and branch determine the position, and the closed form recovers it |
| Sexagenary.YearPillarOf | bazi_engine/bazi.py:37-39 | counted from the year 4 stems run through ten years and branches through twelve; 1984 is jia zi, the first of both |
| Sexagenary.StandardRulesetConforms | bazi_engine/bafe/ruleset_loader.py:45-82 | the shipped month and hour stem tables agree with the built-in formulas |
| Sexagenary.LookUpInFirstGroup | bazi_engine/bafe/ruleset_loader.py:36-82 | a stem is looked up in the first group that lists it; no such group is a KeyError, too short a row an IndexError |
| Sexagenary.MonthPillarWalksCycle | bazi_engine/bazi.py:37-51 | the month pillar is position 12 (solar_year - 1984) + month_index + 2 of the 60-cycle |
| Sexagenary.HourPillarWalksCycle | bazi_engine/bazi.py:56-65 | the hour pillar is position 12 day + branch |
| Sexagenary.DayPillarWalksCycle | bazi_engine/bazi.py:31-35 | one step each calendar day, for every offset |
| Sexagenary.DayPillarRepeats | bazi_engine/bazi.py:31-35 | two dates share their pillar iff they are whole 60-day cycles apart |
| Sexagenary.AnchorGetsItsIndex | bazi_engine/bazi_rules.py:49-111 | from a request's or a ruleset's anchor, the anchor date gets the declared position |
| Sexagenary.AnchorAcceptedIff | bazi_engine/bazi_rules.py:70-111 | a ruleset gives an offset iff its anchor has the type JDN and whole numbers, as integers or floats; the anchor day then has the declared position; a missing anchor is a KeyError, everything else a ValueError |
| Sexagenary.HalfAnchorIsNone | bazi_engine/bazi.py:78-86 | a request's anchor without a date or without a position is not used |
| Sexagenary.ShippedAnchor | bazi_engine/constants.py:23 | the shipped anchor yields the built-in offset 49, and 1 October 1949 is position 0, jia zi |
| Bazi.SolarChartFollowsSolarClock | bazi_engine/bazi.py:101-128 | a true-solar chart decides day and hour branch as a civil chart on the apparent solar clock |
| Bazi.SolarDayTurnsAt | bazi_engine/bazi.py:101-128 | for any start hour, the ruleset's or 23, the day of a true-solar chart is the solar date, under the zi boundary the next one from that solar hour on |
| Bazi.SolarTimeIsMeanTime | bazi_engine/time_context.py:146-148 | the apparent solar clock is local mean time plus the equation of time, to a microsecond |
| Bazi.LmtOffsetIs | bazi_engine/time_utils.py:328-329 | mean time is 240 seconds per degree east ahead of UTC, to the nearest microsecond |
| Bazi.ChartTimeIs | bazi_engine/time_utils.py:331-335 | a mean-time chart is the instant moved by the longitude, every other the given wall time; the instant reads as that wall time iff it round-trips; a request is refused iff strict parsing refuses its time or its longitude leads a day from UTC |
| Bazi.DayAndHourRun | bazi_engine/bazi.py:245-256 | day and hour pillars are the positions of the running two-hour stretch; under midnight only 23:00 to 24:00 differs, by twelve steps |
| Bazi.LiChunOfYear | bazi_engine/bazi.py:167-175 | the search from 1 January finds the year's own LiChun |
| Bazi.SearchStartsAtNewYear | bazi_engine/bazi.py:167-175 | that search starts at midnight UTC of 1 January |
| Bazi.MonthIndexForChart | bazi_engine/bazi.py:131-138 | the first month holding the time; inside a solar year it always holds it |
| Bazi.SolarYear | bazi_engine/bazi.py:212-225 | the solar year is the one whose LiChun to LiChun holds the chart time; whatever a backend answers, it must have the LiChun of the calendar year and the one on the other side of the chart time |
| Bazi.SolarYearAndMonth | bazi_engine/bazi.py:212-237 | for every honest backend that answers for LiChun the solar year is exact and the month the one between the found boundaries; with a direct one it is the month between the Jie numbered 12 solar_year + month_index and the next |
| Bazi.FoundMarksRise | bazi_engine/bazi.py:230-237 | the found boundaries strictly increase on the chart's clock |
| Bazi.FoundMonthIsExact | bazi_engine/bazi.py:131-138 | the found month is the month of the Jie unless the chart time lies between a Jie and where it was found |
| Bazi.ChartIsExactAwayFromJie | bazi_engine/bazi.py:212-238 | whatever an honest backend answers, a chart read at its own instant, not ambiguous and further from every Jie than the accuracy of the search plus a microsecond has the exact month and year, of its reading and of its instant |
| Bazi.ChartsRun | bazi_engine/bazi.py:212-238 | of two charts on one clock, in the order of their wall readings, the later never has the earlier month or year; month and year pillars are as many steps on as months and years have begun, and a month has begun iff the reading of its Jie is reached |
| Bazi.MonthIsOfInstantIff | bazi_engine/bazi.py:131-138 | the month by wall readings is the month that has begun at the instant iff no Jie lies in one overlap of the clock with the birth, their readings in the other order |
| Bazi.MeanTimeKeepsOrder | bazi_engine/bazi.py:131-138 | on local mean time it always is |
| Bazi.UnambiguousIsNotReversed | bazi_engine/bazi.py:131-138 | in a zone a birth outside the overlaps is in no such position with any Jie |
| Bazi.ChartReadsInstant | bazi_engine/bazi.py:197-210 | the chart's wall reading is that of its instant iff the birth time exists in its zone; under strict parsing and on mean time always |
| Bazi.ChartsRunInTime | bazi_engine/bazi.py:212-238 | of two charts read at their own instants, with births in no such position, in the order of their instants, the later never has the earlier month, and a month has begun iff its Jie has passed |
| Bazi.ChartsAtJie | bazi_engine/bazi.py:131-138 | across a Jie, from one microsecond to the next, the month pillar of the charts moves one step, and the year pillar iff the Jie is LiChun |
| Bazi.HoursRun | bazi_engine/bazi.py:245-256 | two hours later under the zi boundary the hour pillar is one step on and the day pillar turns iff the branch becomes Zi |
| Bazi.JieMarksRise | bazi_engine/bazi.py:235 | the boundaries on the chart's clock are strictly increasing in every zone |
| Bazi.TermsInMonth | bazi_engine/bazi.py:141-164 | on the chart's clock every other solar term is the start of a month and the one between lies strictly inside it |
| Bazi.SolarTermsForResult | bazi_engine/bazi.py:141-164 | the attached list holds the 24 terms of the solar year in order, alternating with the months; it is left out if the search fails |
| Bazi.ComputeBazi | bazi_engine/bazi.py:177-284 | every chart made with an honest backend has the exact solar year, the found month and day and hour pillars on their running counts, true-solar ones for every start hour; for any backend month and hour stems come from the ruleset's tables; with a direct search every ready request gets a chart with the exact month and the 24 terms; unparsable times raise, and so does every request without a direct search |
| MeanSky.MonthGoesBack | bazi_engine/bazi.py:212-238 | two births half an hour apart in the repeated hour of a zone, LiChun of 1984 between their readings: the earlier gets the first month of 1984, the later the last of 1983 |
| DayunAnchor.AdjacentIsNearest | bazi_engine/dayun/jieqi.py:136-153 | no solar term lies strictly between the anchor and the birth, and it is within 16.7 days |
| DayunAnchor.FoundIsTerm | bazi_engine/dayun/jieqi.py:107-125 | whatever the window search finds for an index is the term of that index if the direct search answered, otherwise that term or the opposite one, within the slack |
| DayunAnchor.ChosenIsAdjacent | bazi_engine/dayun/jieqi.py:136-153 | for every honest backend the chosen crossing is at the adjacent term, under its own index or the opposite one; exact with a direct search |
| DayunAnchor.FoundTwice | bazi_engine/dayun/jieqi.py:107-125 | a scan lists the adjacent term under both indices, at the same time unless the term is a whole number of days from the birth |
| DayunAnchor.ChosenByScan | bazi_engine/dayun/jieqi.py:136-153 | of the two listings the scan's choice is the lower index, or, at a whole number of days, the opposite one forward and its own backward |
| DayunAnchor.ResolveJieqiAnchor | bazi_engine/dayun/jieqi.py:95-176 | an anchor is inside the window for every backend, the first nearest of the listed crossings on the requested side; with a direct one it is the adjacent term on the requested side under its own name; with any honest one there is an anchor, at the right time within half a second; without a direct search its name is right iff it is one of the terms from Li Chun to Da Shu, or, at a whole number of days from the birth, is sought backwards |
| MeanSky.LiQiuIsCalledLiChun | bazi_engine/dayun/jieqi.py:107-153 | a birth before Li Qiu whose anchor the scan alone calls Li Chun |
| DayunAnchor.DeltaParts | bazi_engine/dayun/jieqi.py:158-165 | the anchor's datetime is the crossing with the fraction of its second dropped; days, hours and minutes are in range and add up to its distance down to the minute, and to the distance in Julian days down to the minute and a second |
| Dayun.ThreeDaysAYear | bazi_engine/dayun/start_age.py:8-42 | decimal age is minutes over 4320, years, months and days are its parts; capped at 120 years iff 360 days or more |
| Dayun.StartAgeIsShort | bazi_engine/dayun/start_age.py:23-35 | from an anchor inside the window the cap is out of reach and the age at most ten; from an adjacent term below six |
| Dayun.DirectionResolves | bazi_engine/dayun/direction.py:31-95 | a direction is found iff the request brings what its method needs: the one given, or forward for a man with an even year stem or a woman with an odd one |
| Dayun.DirectionAlternates | bazi_engine/dayun/direction.py:75-95 | by the classical rule men born in even solar years and women born in odd ones flow forward, and the direction is reversed from each solar year to the next |
| Dayun.AgesChain | bazi_engine/routers/dayun.py:245-258 | rounded ages form a chain of ten-year steps |
| Dayun.FirstDecade | bazi_engine/routers/dayun.py:241-264 | the first decade has number one, begins with the start age to the nearest hundredth, and on the date of that age |
| Dayun.DatesChain | bazi_engine/routers/dayun.py:247-250 | each decade's last date is the next one's first, 3651 to 3653 days later, 3651 only across a common century year |
| Dayun.PillarsChain | bazi_engine/routers/dayun.py:242-244 | each decade's pillar is one step on from the one before, or one back if the flow is backward |
| Dayun.FirstPillar | bazi_engine/routers/dayun.py:233-244 | the first is one step on or back from the month pillar |
| Dayun.DecadesWalkOn | bazi_engine/routers/dayun.py:163-176 | the i-th decade of a birth has the 60-cycle pillar i + 1 months on or back from the month the chart was found in |
| Dayun.DecadeCycles | bazi_engine/routers/dayun.py:241-264 | the list of decades, made iff all its dates exist |
| Dayun.DatesInRange | bazi_engine/dayun/dates.py:6-20 | all dates exist if the last decade ends two years before the calendar |
| Dayun.SelectCurrent | bazi_engine/dayun/current_cycle.py:36-63 | the first decade whose half-open age range holds the age, none before birth |
| Dayun.AtMostOneCovers | bazi_engine/dayun/current_cycle.py:60-63 | no age is covered twice |
| Dayun.SomeDecadeCovers | bazi_engine/dayun/current_cycle.py:60-63 | every age between first start and last end is covered |
| Dayun.MarkCurrent | bazi_engine/routers/dayun.py:268-274 | exactly the covering decade is marked |
| Dayun.CalculateDayun | bazi_engine/routers/dayun.py:195-274 | the whole pipeline from a request: its own chart, direction, anchor, age never capped, decades from the chart's month, exactly the covering decade marked; a ready request with a direction fails only if a date is out of the calendar's range |
| CurrentDecade.MarkedDays | bazi_engine/dayun/current_cycle.py:56-62 | a decade is marked on exactly the days from the mark day of its first age to that of its last |
| CurrentDecade.DecadeAgreesIff | bazi_engine/dayun/current_cycle.py:3-5 | a decade's dates hold every day on which it is marked iff the calendar reaches its first age no later and its last age no earlier than the mark; they hold no other iff both days are the same |
| CurrentDecade.DayunMarksAgreeIff | bazi_engine/dayun/current_cycle.py:3-5 | over all decades of a birth, the marked decade is the one whose dates hold the day, on every day, iff calendar and mark reach every boundary on the same day; its dates hold the day iff they meet at all inner boundaries and enclose at the two ends |
| CurrentDecade.NeverMeet | bazi_engine/dayun/dates.py:6-20 | over eighty years that begin between 1901 and 2019 calendar and mark cannot reach the first two and the last two of nine boundaries on the same days |
| CurrentDecade.MarksNeverAgree | bazi_engine/dayun/current_cycle.py:3-5 | with eight decades or more that begin between 1901 and 2019 the marks of no birth agree with its dates on every day; with ten or more that begin by 2009 the marked decade's dates do not even hold every day |
| CurrentDecade.CurrentNearItsDates | bazi_engine/dayun/current_cycle.py:3-5 | in any case the marked decade's dates hold the day up to eight days |
| MeanSky.MarkedBeforeItsDates | bazi_engine/routers/dayun.py:195-274 | for a birth of 1 February 1984, 23:43 UTC, on the mean sky the pipeline marks the first decade on 2 February 1985, one day before its own first date |
| RealYears.DecadeSpan | bazi_engine/dayun/dates.py:6-20 | ten years span 3651 to 3653 days for every base and start, 3651 only across a common century year |
| RealYears.WholeYearsKeepDate | bazi_engine/dayun/dates.py:6-20 | whole years, on or back, keep month and day; 29 February becomes the 28th in a common year |
| RealYears.PartOfYear | bazi_engine/dayun/dates.py:6-20 | a part of a year is that part of 365.2425 days from the anniversary at the time of birth |
| RealYears.DateExistsIff | bazi_engine/dayun/dates.py:6-20 | a date exists iff the calendar year and the day reached lie in the years 1 to 9999; a year outside is a ValueError, a day an OverflowError |
| RealYears.RealYearsDrift | bazi_engine/dayun/dates.py:6-20 | the date stays within 5.1 days of the mean years |
| Ranks.RankCounts | bazi_engine/research/pattern_analysis.py:131-156 | the counting rank is #smaller + (#equal + 1) / 2 |
| Ranks.RankSorted | bazi_engine/research/pattern_analysis.py:139-149 | the run loop gives every value its counting rank |
| Ranks.RankAll | bazi_engine/research/pattern_analysis.py:131-156 | every group gets the counting ranks of its values among all, in ascending order |
| Ranks.RanksAddUp | bazi_engine/research/pattern_analysis.py:139-156 | group sizes are kept and the ranks sum to n (n + 1) / 2 for every tie pattern |
| Ranks.HNonNegative | bazi_engine/research/pattern_analysis.py:280-284 | H is never negative, whatever numbers stand for the ranks |
| Ranks.HByRankTotals | bazi_engine/research/pattern_analysis.py:280-284 | H is 12 / (n (n + 1)) times the sum of the squared rank totals over the group sizes, minus 3 (n + 1) |
| Ranks.HAtMost | bazi_engine/research/pattern_analysis.py:280-284 | H of tie-averaged ranks is at most n - 1 |
| Ranks.HIsReached | bazi_engine/research/pattern_analysis.py:280-284 | different values in groups of one reach n - 1 |
| Ranks.HZeroIff | bazi_engine/research/pattern_analysis.py:280-284 | H is 0 iff all groups that have members have one mean rank |
| Ranks.EtaWithinOne | bazi_engine/research/pattern_analysis.py:291 | the effect size lies between 0 and 1 |
| Ranks.EtaIsShare | bazi_engine/research/pattern_analysis.py:291 | it is 0 iff H is at most k - 1, 1 iff H is n - 1, and in proportion between them |
| Ranks.HIgnoresOrder | bazi_engine/research/pattern_analysis.py:280-284 | H does not depend on the order inside groups |
| Snapshot.MergeAt | scripts/minimize_snapshot_diff.py:63-82 | at every position: regenerated shape, old number where it is noise, regenerated value elsewhere, within tolerance everywhere |
| Snapshot.MergeIsIdempotent | scripts/minimize_snapshot_diff.py:63-82 | merging the merged tree again changes nothing |
| Snapshot.MaterialPaths | scripts/minimize_snapshot_diff.py:85-100 | the report has exactly one string for each position at which the trees differ, the path with its ending, in lexicographic order of the positions |
| Snapshot.NothingTwice | scripts/minimize_snapshot_diff.py:85-100 | no difference is reported twice |
| Snapshot.ReportIsDetermined | scripts/minimize_snapshot_diff.py:85-100 | that settles the report: two lists with this property are the same strings in the same order |
| Snapshot.ChangedNode | scripts/minimize_snapshot_diff.py:98-99 | a changed leaf is reported by its position, the root as / |
| Snapshot.AddedKey | scripts/minimize_snapshot_diff.py:88-93 | a new key is reported by exactly the string position/key (added) |
| Snapshot.RemovedKey | scripts/minimize_snapshot_diff.py:88-93 | a lost key by position/key (removed) |
| Snapshot.ResizedList | scripts/minimize_snapshot_diff.py:94-97 | a list made longer or shorter by position[] and both lengths |
| Snapshot.ChangedAtKey | scripts/minimize_snapshot_diff.py:88-91 | a change below a key is reported as the child's report from position/key |
| Snapshot.ChangedAtIndex | scripts/minimize_snapshot_diff.py:94-96 | a change below an element as the element's report from position[] |
| Snapshot.StringBeforeIff | scripts/minimize_snapshot_diff.py:88 | keys are ordered by their first different character, a proper front part first |
| Snapshot.DecimalIs | scripts/minimize_snapshot_diff.py:97 | lengths are printed as decimal numbers without a leading zero |
| Snapshot.PyEqIffSamePlain | scripts/minimize_snapshot_diff.py:98-99 | trees are equal in Python's sense iff they are the same once bools and floats are replaced by the numbers they equal |
| Snapshot.EmptyReportIffEqual | scripts/minimize_snapshot_diff.py:85-100 | the report is empty iff the trees are equal in Python's sense |
| Snapshot.SameTreeIff | scripts/minimize_snapshot_diff.py:98-99 | two trees are the same iff the report is empty, no bool stands against a number and no int against a float |
| Snapshot.MergedSameIff | scripts/minimize_snapshot_diff.py:112-120 | for a non-negative tolerance the merged tree is the committed one iff the report is empty and no bool stands against a number; an int rewritten as the float it equals is restored |
| Snapshot.HiddenChange | scripts/minimize_snapshot_diff.py:77-82 | true rewritten as 1 is merged in but not reported |
| Snapshot.MergeRemovesExactlyNoise | scripts/minimize_snapshot_diff.py:103-119 | after the merge exactly the noise has left the report |

## Left out

- Swiss Ephemeris calls, its files and attestation: a motion with rate bounds stands for them.
- The series for the equation of time: its value is a bounded input.
- IEEE rounding: arithmetic is exact; `round` is half-even on exact values.
- Zone data and ISO parsing: a transition list and a wall time stand for them.
- Years outside 1 to 9999 in local times and solar time (OverflowError there); the decade dates do model the range.
- Responses, texts, tables of Ten-Gods and the other endpoints: record copying and finite tables.
- Branches.DistanceSafeIff: a width of zero is excluded here and in the other branch functions, which then raise ZeroDivisionError.
- Dayun.CalculateDayun: the Ten-Gods relation, the semantic summary and the response fields are not part of this model.
- Bazi.ComputeBazi: delta T, terrestrial time and the copied boundary fields of the result are not part of this model.
