/** The decade that is marked as current against the decades' own dates. */
module CurrentDecade {
  import opened Circle
  import opened Gregorian
  import opened Clock
  import opened RealYears
  import opened Ephemeris
  import opened Bazi
  import opened Dayun

  // ---- when mark and dates agree ----

  /** The decade is marked on day d, a date standing for its midnight in UTC. */
  predicate MarkedOn(info: Info, birthUtc: int, d: int) {
    Covers(info, birthUtc, d * DAY)
  }

  /** Its dates hold day d. */
  predicate HeldOn(info: Info, d: int) {
    Jdn(info.dateStart) <= d < Jdn(info.dateEnd)
  }

  function Ceiling(x: real): int {
    -((-x).Floor)
  }

  /** The first day on which a person has reached the age that is shown for an age. */
  function MarkDay(birthUtc: int, age: real): int {
    Ceiling(birthUtc as real / DAY as real + Round2(age) * MEAN_YEAR_DAYS)
  }

  /** The day on which the calendar reaches the age. */
  function BoundaryDay(birthWall: int, age: real): int {
    RealYearsDay(birthWall, age)
  }

  lemma AgeReached(birthUtc: int, shown: real, d: int)
    ensures AgeOn(birthUtc, d * DAY) >= shown
       <==> d >= Ceiling(birthUtc as real / DAY as real + shown * MEAN_YEAR_DAYS)
  {
    assert AgeOn(birthUtc, d * DAY) * MEAN_YEAR_DAYS == d as real - birthUtc as real / DAY as real;
  }

  lemma ShownAgeNonNegative(age: real)
    requires age >= 0.0
    ensures Round2(age) >= 0.0
  {
    RoundMonotone(0.0, age * 100.0);
  }

  /** A decade is marked from the mark day of its first age to that of its last. */
  lemma MarkedDays(info: Info, birthUtc: int, startAge: real, i: nat, d: int)
    requires startAge >= 0.0 && Aged(info, startAge, i)
    ensures MarkedOn(info, birthUtc, d) <==>
              MarkDay(birthUtc, AgeAt(startAge, i)) <= d < MarkDay(birthUtc, AgeAt(startAge, i + 1))
  {
    AgeReached(birthUtc, info.ageStart, d);
    AgeReached(birthUtc, info.ageEnd, d);
    ShownAgeNonNegative(AgeAt(startAge, i));
    assert AgeOn(birthUtc, d * DAY) >= 0.0 ==> d * DAY >= birthUtc;
  }

  /** It is held from the boundary day of its first age to that of its last. */
  lemma HeldDays(info: Info, birthWall: int, startAge: real, i: nat)
    requires Dated(info, birthWall, startAge, i)
    ensures Jdn(info.dateStart) == BoundaryDay(birthWall, AgeAt(startAge, i))
    ensures Jdn(info.dateEnd) == BoundaryDay(birthWall, AgeAt(startAge, i + 1))
  {
    AddRealYearsDay(birthWall, AgeAt(startAge, i));
    AddRealYearsDay(birthWall, AgeAt(startAge, i + 1));
  }

  lemma MarkDaysApart(birthUtc: int, startAge: real, i: nat)
    ensures MarkDay(birthUtc, AgeAt(startAge, i)) < MarkDay(birthUtc, AgeAt(startAge, i + 1))
  {
    Round2Shift(AgeAt(startAge, i));
    assert AgeAt(startAge, i + 1) == AgeAt(startAge, i) + 10.0;
    CeilingGrows(birthUtc as real / DAY as real, Round2(AgeAt(startAge, i)));
  }

  lemma BoundaryDaysApart(birthWall: int, startAge: real, i: nat)
    requires startAge >= 0.0
    ensures BoundaryDay(birthWall, AgeAt(startAge, i)) < BoundaryDay(birthWall, AgeAt(startAge, i + 1))
  {
    LaterBoundary(birthWall, AgeAt(startAge, i), AgeAt(startAge, i + 1));
  }

  lemma LaterBoundary(birthWall: int, age: real, later: real)
    requires age >= 0.0 && later == age + 10.0
    ensures BoundaryDay(birthWall, age) < BoundaryDay(birthWall, later)
  {
    DecadeSpan(birthWall, age);
  }

  lemma CeilingGrows(days: real, shown: real)
    ensures Ceiling(days + shown * MEAN_YEAR_DAYS) < Ceiling(days + (shown + 10.0) * MEAN_YEAR_DAYS)
  {
  }

  /** The dates of a decade hold every day on which it is marked, or no more and no less. */
  ghost predicate MarkIsSound(info: Info, birthUtc: int) {
    forall d {:trigger MarkedOn(info, birthUtc, d)} :: MarkedOn(info, birthUtc, d) ==> HeldOn(info, d)
  }

  ghost predicate MarkIsExact(info: Info, birthUtc: int) {
    forall d {:trigger MarkedOn(info, birthUtc, d)} :: MarkedOn(info, birthUtc, d) <==> HeldOn(info, d)
  }

  /** Exactly if the calendar reaches its first age no later than the mark does, and its last age no
      earlier, the dates of a decade hold every day on which it is marked; exactly if both days are
      the same, they hold no other. */
  lemma DecadeAgreesIff(info: Info, birthWall: int, birthUtc: int, startAge: real, i: nat)
    requires startAge >= 0.0 && Aged(info, startAge, i) && Dated(info, birthWall, startAge, i)
    ensures var a, z := AgeAt(startAge, i), AgeAt(startAge, i + 1);
            && (MarkIsSound(info, birthUtc) <==>
                  && BoundaryDay(birthWall, a) <= MarkDay(birthUtc, a)
                  && MarkDay(birthUtc, z) <= BoundaryDay(birthWall, z))
            && (MarkIsExact(info, birthUtc) <==>
                  && BoundaryDay(birthWall, a) == MarkDay(birthUtc, a)
                  && MarkDay(birthUtc, z) == BoundaryDay(birthWall, z))
  {
    HeldDays(info, birthWall, startAge, i);
    MarkDaysApart(birthUtc, startAge, i);
    BoundaryDaysApart(birthWall, startAge, i);
    forall d ensures MarkedOn(info, birthUtc, d) <==>
                       MarkDay(birthUtc, AgeAt(startAge, i)) <= d < MarkDay(birthUtc, AgeAt(startAge, i + 1))
    {
      MarkedDays(info, birthUtc, startAge, i, d);
    }
    RangesAgree(info, birthUtc, MarkDay(birthUtc, AgeAt(startAge, i)), MarkDay(birthUtc, AgeAt(startAge, i + 1)));
  }

  lemma RangesAgree(info: Info, birthUtc: int, from: int, to: int)
    requires from < to && Jdn(info.dateStart) < Jdn(info.dateEnd)
    requires forall d :: MarkedOn(info, birthUtc, d) <==> from <= d < to
    ensures MarkIsSound(info, birthUtc) <==> Jdn(info.dateStart) <= from && to <= Jdn(info.dateEnd)
    ensures MarkIsExact(info, birthUtc) <==> Jdn(info.dateStart) == from && to == Jdn(info.dateEnd)
  {
    assert MarkedOn(info, birthUtc, from) && MarkedOn(info, birthUtc, to - 1);
    assert MarkedOn(info, birthUtc, Jdn(info.dateStart)) <==> from <= Jdn(info.dateStart) < to;
    assert MarkedOn(info, birthUtc, Jdn(info.dateEnd) - 1) <==> from <= Jdn(info.dateEnd) - 1 < to;
  }

  // ---- all decades of a chart ----

  /** The days on which the calendar reaches the boundaries of n decades. */
  function CalendarDays(birthWall: int, startAge: real, n: nat): seq<int> {
    seq(n + 1, (k: nat) => BoundaryDay(birthWall, AgeAt(startAge, k)))
  }

  /** The days on which the mark reaches them. */
  function MarkDays(birthUtc: int, startAge: real, n: nat): seq<int> {
    seq(n + 1, (k: nat) => MarkDay(birthUtc, AgeAt(startAge, k)))
  }

  ghost predicate AllExact(infos: seq<Info>, birthUtc: int) {
    forall k :: 0 <= k < |infos| ==> MarkIsExact(infos[k], birthUtc)
  }

  ghost predicate AllSound(infos: seq<Info>, birthUtc: int) {
    forall k :: 0 <= k < |infos| ==> MarkIsSound(infos[k], birthUtc)
  }

  /** Decade by decade the days of one list enclose those of the other, or are the same. */
  predicate Encloses(outer: seq<int>, inner: seq<int>, k: nat)
    requires k + 1 < |outer| == |inner|
  {
    outer[k] <= inner[k] && inner[k + 1] <= outer[k + 1]
  }

  predicate Coincides(outer: seq<int>, inner: seq<int>, k: nat)
    requires k + 1 < |outer| == |inner|
  {
    outer[k] == inner[k] && inner[k + 1] == outer[k + 1]
  }

  /** A decade's last boundary is the next one's first, so only the two ends leave room. */
  lemma ChainsEnclose(outer: seq<int>, inner: seq<int>)
    requires |outer| == |inner| > 1
    ensures var n := |outer| - 1;
            (forall k: nat :: k < n ==> Encloses(outer, inner, k))
            <==> outer[0] <= inner[0] && outer[1..n] == inner[1..n] && inner[n] <= outer[n]
    ensures (forall k: nat :: k < |outer| - 1 ==> Coincides(outer, inner, k)) <==> outer == inner
  {
    var n := |outer| - 1;
    if forall k: nat :: k < n ==> Encloses(outer, inner, k) {
      assert Encloses(outer, inner, 0) && Encloses(outer, inner, n - 1);
      forall k | 1 <= k < n ensures outer[k] == inner[k] {
        assert Encloses(outer, inner, k - 1) && Encloses(outer, inner, k);
      }
    }
    if outer[0] <= inner[0] && outer[1..n] == inner[1..n] && inner[n] <= outer[n] {
      forall k | 1 <= k < n ensures outer[k] == inner[k] {
        assert outer[1..n][k - 1] == inner[1..n][k - 1];
      }
    }
    if forall k: nat :: k < n ==> Coincides(outer, inner, k) {
      forall k | 0 <= k <= n ensures outer[k] == inner[k] {
        assert Coincides(outer, inner, if k == 0 then 0 else k - 1);
      }
    }
  }

  lemma DecadeAgreesInChain(infos: seq<Info>, birthWall: int, birthUtc: int, startAge: real, k: nat)
    requires startAge >= 0.0 && k < |infos|
    requires Aged(infos[k], startAge, k) && Dated(infos[k], birthWall, startAge, k)
    ensures var calendar, mark := CalendarDays(birthWall, startAge, |infos|), MarkDays(birthUtc, startAge, |infos|);
            && (MarkIsSound(infos[k], birthUtc) <==> Encloses(calendar, mark, k))
            && (MarkIsExact(infos[k], birthUtc) <==> Coincides(calendar, mark, k))
  {
    DecadeAgreesIff(infos[k], birthWall, birthUtc, startAge, k);
  }

  lemma ExactIff(infos: seq<Info>, birthWall: int, birthUtc: int, startAge: real)
    requires startAge >= 0.0 && infos != []
    requires forall k :: 0 <= k < |infos| ==> Aged(infos[k], startAge, k) && Dated(infos[k], birthWall, startAge, k)
    ensures AllExact(infos, birthUtc) <==>
              CalendarDays(birthWall, startAge, |infos|) == MarkDays(birthUtc, startAge, |infos|)
  {
    var calendar, mark := CalendarDays(birthWall, startAge, |infos|), MarkDays(birthUtc, startAge, |infos|);
    forall k: nat | k < |infos| ensures MarkIsExact(infos[k], birthUtc) <==> Coincides(calendar, mark, k) {
      DecadeAgreesInChain(infos, birthWall, birthUtc, startAge, k);
    }
    ChainsEnclose(calendar, mark);
  }

  lemma SoundIff(infos: seq<Info>, birthWall: int, birthUtc: int, startAge: real)
    requires startAge >= 0.0 && infos != []
    requires forall k :: 0 <= k < |infos| ==> Aged(infos[k], startAge, k) && Dated(infos[k], birthWall, startAge, k)
    ensures var n := |infos|;
            var calendar, mark := CalendarDays(birthWall, startAge, n), MarkDays(birthUtc, startAge, n);
            AllSound(infos, birthUtc) <==>
              calendar[0] <= mark[0] && calendar[1..n] == mark[1..n] && mark[n] <= calendar[n]
  {
    var calendar, mark := CalendarDays(birthWall, startAge, |infos|), MarkDays(birthUtc, startAge, |infos|);
    forall k: nat | k < |infos| ensures MarkIsSound(infos[k], birthUtc) <==> Encloses(calendar, mark, k) {
      DecadeAgreesInChain(infos, birthWall, birthUtc, startAge, k);
    }
    ChainsEnclose(calendar, mark);
  }

  /** For the decades of a birth: the marked decade is the one whose dates hold the day, on every day,
      exactly if calendar and mark meet at every boundary. Its dates at least hold the day exactly if they
      meet between the decades, the calendar is not late for the first, and the mark not for the last. */
  lemma DayunMarksAgreeIff(b: Backend, inp: Input, count: nat, d: Dayun)
    requires AreDecadesOf(b, inp, count, d) && count > 0
    ensures var infos, utc, age := Infos(d.cycles), d.chart.time.utc, d.startAge.decimalYears;
            var calendar, mark := CalendarDays(inp.birthLocal, age, count), MarkDays(utc, age, count);
            && (AllExact(infos, utc) <==> calendar == mark)
            && (AllSound(infos, utc) <==>
                  calendar[0] <= mark[0] && calendar[1..count] == mark[1..count] && mark[count] <= calendar[count])
  {
    var infos := Infos(d.cycles);
    forall k | 0 <= k < count
      ensures Aged(infos[k], d.startAge.decimalYears, k) && Dated(infos[k], inp.birthLocal, d.startAge.decimalYears, k)
    {
      assert IsDecade(infos[k], inp.birthLocal, d.chart.pillars.month, d.flow, d.startAge.decimalYears, k);
    }
    ExactIff(infos, inp.birthLocal, d.chart.time.utc, d.startAge.decimalYears);
    SoundIff(infos, inp.birthLocal, d.chart.time.utc, d.startAge.decimalYears);
  }

  // ---- that they never agree for long ----

  lemma ShownLater(age: real, j: int)
    ensures Round2(age + (10 * j) as real) == Round2(age) + (10 * j) as real
  {
    assert (age + (10 * j) as real) * 100.0 == age * 100.0 + (1000 * j) as real;
    RoundShift(age * 100.0, 1000 * j);
  }

  /** The mark advances by ten mean years a decade, rounded up to a day. */
  lemma MarkLater(birthUtc: int, startAge: real, k: nat, j: nat)
    ensures MarkDay(birthUtc, AgeAt(startAge, k + j))
         == Ceiling(MarkTime(birthUtc, AgeAt(startAge, k)) + 3652.425 * j as real)
  {
    assert AgeAt(startAge, k + j) == AgeAt(startAge, k) + (10 * j) as real;
    ShownLater(AgeAt(startAge, k), j);
    assert (10 * j) as real * MEAN_YEAR_DAYS == 3652.425 * j as real;
  }

  function MarkTime(birthUtc: int, age: real): real {
    birthUtc as real / DAY as real + Round2(age) * MEAN_YEAR_DAYS
  }

  /** The calendar advances by 7305 days every other decade. */
  lemma BoundaryLater(birthWall: int, startAge: real, k: nat, year: int)
    requires startAge >= 0.0 && year == YearReached(birthWall, AgeAt(startAge, k)) && 1901 <= year <= 2079
    ensures BoundaryDay(birthWall, AgeAt(startAge, k + 2)) == BoundaryDay(birthWall, AgeAt(startAge, k)) + 7305
    ensures YearReached(birthWall, AgeAt(startAge, k + 2)) == year + 20
  {
    assert AgeAt(startAge, k + 2) == AgeAt(startAge, k) + 20.0;
    TwentyRealYears(birthWall, AgeAt(startAge, k), AgeAt(startAge, k + 2));
  }

  lemma BoundarySixtyLater(birthWall: int, startAge: real, k: nat, year: int)
    requires startAge >= 0.0 && year == YearReached(birthWall, AgeAt(startAge, k)) && 1901 <= year <= 2039
    ensures BoundaryDay(birthWall, AgeAt(startAge, k + 6)) == BoundaryDay(birthWall, AgeAt(startAge, k)) + 21915
    ensures YearReached(birthWall, AgeAt(startAge, k + 6)) == year + 60
  {
    BoundaryLater(birthWall, startAge, k, year);
    BoundaryLater(birthWall, startAge, k + 2, year + 20);
    BoundaryLater(birthWall, startAge, k + 4, year + 40);
  }

  lemma CeilingLater(x: real, whole: int, part: real)
    requires 0.0 <= part < 1.0
    ensures Ceiling(x + whole as real + part)
         == Ceiling(x) + whole + if part > Ceiling(x) as real - x then 1 else 0
  {
    var below := (-x).Floor;
    var gap := -below as real - x;
    assert (-x - whole as real - part).Floor == below - whole - if part > gap then 1 else 0;
  }

  /** A chain that advances like the calendar cannot meet one that advances like the mark at four such
      places. */
  lemma FourMeetings(x: real, day0: int, day1: int)
    ensures !(day0 == Ceiling(x) && day1 == Ceiling(x + 3652.425)
              && day1 + 21915 == Ceiling(x + 25566.975) && day0 + 29220 == Ceiling(x + 29219.4))
  {
    CeilingLater(x, 3652, 0.425);
    CeilingLater(x, 25566, 0.975);
    CeilingLater(x, 29219, 0.4);
    assert x + 3652.425 == x + 3652 as real + 0.425;
    assert x + 25566.975 == x + 25566 as real + 0.975;
    assert x + 29219.4 == x + 29219 as real + 0.4;
  }

  /** Calendar and mark reach the k-th boundary on the same day. */
  predicate Meets(birthWall: int, birthUtc: int, startAge: real, k: nat) {
    BoundaryDay(birthWall, AgeAt(startAge, k)) == MarkDay(birthUtc, AgeAt(startAge, k))
  }

  /** Over eighty years without a common century year they never meet at the first two and the last two of
      nine boundaries. */
  lemma NeverMeet(birthWall: int, birthUtc: int, startAge: real, k: nat)
    requires startAge >= 0.0
    requires 1901 <= YearReached(birthWall, AgeAt(startAge, k)) <= 2019
    ensures !(Meets(birthWall, birthUtc, startAge, k) && Meets(birthWall, birthUtc, startAge, k + 1)
              && Meets(birthWall, birthUtc, startAge, k + 7) && Meets(birthWall, birthUtc, startAge, k + 8))
  {
    var x := MarkTime(birthUtc, AgeAt(startAge, k));
    MarksLater(birthUtc, startAge, k, x);
    var year := YearReached(birthWall, AgeAt(startAge, k));
    BoundaryEightyLater(birthWall, startAge, k, year);
    NextYearReached(birthWall, startAge, k);
    BoundarySixtyLater(birthWall, startAge, k + 1, year + 10);
    FourMeetings(x, BoundaryDay(birthWall, AgeAt(startAge, k)), BoundaryDay(birthWall, AgeAt(startAge, k + 1)));
  }

  lemma MarksLater(birthUtc: int, startAge: real, k: nat, x: real)
    requires x == MarkTime(birthUtc, AgeAt(startAge, k))
    ensures MarkDay(birthUtc, AgeAt(startAge, k)) == Ceiling(x)
    ensures MarkDay(birthUtc, AgeAt(startAge, k + 1)) == Ceiling(x + 3652.425)
    ensures MarkDay(birthUtc, AgeAt(startAge, k + 7)) == Ceiling(x + 25566.975)
    ensures MarkDay(birthUtc, AgeAt(startAge, k + 8)) == Ceiling(x + 29219.4)
  {
    MarkLater(birthUtc, startAge, k, 1);
    MarkLater(birthUtc, startAge, k, 7);
    MarkLater(birthUtc, startAge, k, 8);
  }

  lemma BoundaryEightyLater(birthWall: int, startAge: real, k: nat, year: int)
    requires startAge >= 0.0 && year == YearReached(birthWall, AgeAt(startAge, k)) && 1901 <= year <= 2019
    ensures BoundaryDay(birthWall, AgeAt(startAge, k + 8)) == BoundaryDay(birthWall, AgeAt(startAge, k)) + 29220
  {
    BoundarySixtyLater(birthWall, startAge, k, year);
    BoundaryLater(birthWall, startAge, k + 6, year + 60);
  }

  lemma NextYearReached(birthWall: int, startAge: real, k: nat)
    requires startAge >= 0.0
    ensures YearReached(birthWall, AgeAt(startAge, k + 1)) == YearReached(birthWall, AgeAt(startAge, k)) + 10
  {
    assert AgeAt(startAge, k + 1) == AgeAt(startAge, k) + 10.0;
    TenYearsLater(birthWall, AgeAt(startAge, k));
  }

  lemma ListsDiffer(birthWall: int, birthUtc: int, startAge: real, n: nat, k: nat) returns (i: nat)
    requires startAge >= 0.0 && k + 8 <= n
    requires 1901 <= YearReached(birthWall, AgeAt(startAge, k)) <= 2019
    ensures k <= i <= k + 8
    ensures CalendarDays(birthWall, startAge, n)[i] != MarkDays(birthUtc, startAge, n)[i]
  {
    NeverMeet(birthWall, birthUtc, startAge, k);
    i := if !Meets(birthWall, birthUtc, startAge, k) then k
         else if !Meets(birthWall, birthUtc, startAge, k + 1) then k + 1
         else if !Meets(birthWall, birthUtc, startAge, k + 7) then k + 7
         else k + 8;
  }

  lemma NotExact(b: Backend, inp: Input, count: nat, d: Dayun)
    requires AreDecadesOf(b, inp, count, d) && count >= 8
    requires 1901 <= YearReached(inp.birthLocal, d.startAge.decimalYears) <= 2019
    ensures !AllExact(Infos(d.cycles), d.chart.time.utc)
  {
    var age := d.startAge.decimalYears;
    assert AgeAt(age, 0) == age;
    var i := ListsDiffer(inp.birthLocal, d.chart.time.utc, age, count, 0);
    DayunMarksAgreeIff(b, inp, count, d);
  }

  lemma NotSound(b: Backend, inp: Input, count: nat, d: Dayun)
    requires AreDecadesOf(b, inp, count, d) && count >= 10
    requires 1901 <= YearReached(inp.birthLocal, d.startAge.decimalYears) <= 2009
    ensures !AllSound(Infos(d.cycles), d.chart.time.utc)
  {
    var age := d.startAge.decimalYears;
    assert AgeAt(age, 0) == age;
    NextYearReached(inp.birthLocal, age, 0);
    var i := ListsDiffer(inp.birthLocal, d.chart.time.utc, age, count, 1);
    DayunMarksAgreeIff(b, inp, count, d);
    InnerDiffers(CalendarDays(inp.birthLocal, age, count), MarkDays(d.chart.time.utc, age, count), count, i);
  }

  lemma InnerDiffers(calendar: seq<int>, mark: seq<int>, n: nat, i: nat)
    requires |calendar| == |mark| == n + 1 && 1 <= i < n && calendar[i] != mark[i]
    ensures calendar[1..n] != mark[1..n]
  {
    assert calendar[1..n][i - 1] == calendar[i] && mark[1..n][i - 1] == mark[i];
  }

  /** So with eight decades or more that begin between 1901 and 2019, no birth has its marks agree with its
      dates on every day; and with ten or more that begin by 2009, every birth has days on which the marked
      decade's dates do not even hold the day. */
  lemma MarksNeverAgree(b: Backend, inp: Input, count: nat, d: Dayun)
    requires AreDecadesOf(b, inp, count, d) && count >= 8
    requires 1901 <= YearReached(inp.birthLocal, d.startAge.decimalYears) <= 2019
    ensures !AllExact(Infos(d.cycles), d.chart.time.utc)
    ensures count >= 10 && YearReached(inp.birthLocal, d.startAge.decimalYears) <= 2009 ==>
              !AllSound(Infos(d.cycles), d.chart.time.utc)
  {
    NotExact(b, inp, count, d);
    if count >= 10 && YearReached(inp.birthLocal, d.startAge.decimalYears) <= 2009 {
      NotSound(b, inp, count, d);
    }
  }

  // ---- how far they can be apart ----

  /** The decade marked as current is near its own dates: rounded ages, calendar years, the clamp and
      the zone together shift it by at most eight days. */
  lemma CurrentNearItsDates(info: Info, birthWall: int, birthUtc: int, startAge: real, i: nat, asOf: int)
    requires startAge >= 0.0 && -DAY < birthWall - birthUtc < DAY
    requires Aged(info, startAge, i) && Dated(info, birthWall, startAge, i) && Covers(info, birthUtc, asOf)
    ensures Jdn(info.dateStart) - 8 <= DayOf(asOf) <= Jdn(info.dateEnd) + 8
  {
    var a, z := AgeAt(startAge, i), AgeAt(startAge, i + 1);
    HeldDays(info, birthWall, startAge, i);
    BoundaryDrift(birthWall, a, Jdn(info.dateStart));
    BoundaryDrift(birthWall, z, Jdn(info.dateEnd));
    Round2Shift(a);
    Round2Shift(z);
    AgeInDays(birthUtc, asOf);
    AgeBounds(Jdn(info.dateStart), Jdn(info.dateEnd), birthWall, birthUtc, asOf, a, z, AgeOn(birthUtc, asOf));
  }

  lemma BoundaryDrift(birthWall: int, age: real, day: int)
    requires day == BoundaryDay(birthWall, age)
    ensures Abs(day as real - birthWall as real / DAY as real - MEAN_YEAR_DAYS * age) <= 5.1
  {
    RealYearsDrift(birthWall, age);
  }

  lemma AgeInDays(birthUtc: int, asOf: int)
    ensures AgeOn(birthUtc, asOf) * MEAN_YEAR_DAYS == (asOf - birthUtc) as real / DAY as real
  {
  }

  lemma AgeBounds(start: int, end: int, birthWall: int, birthUtc: int, asOf: int, a: real, z: real, age: real)
    requires -DAY < birthWall - birthUtc < DAY
    requires a - 0.005 <= age < z + 0.005 && age * MEAN_YEAR_DAYS == (asOf - birthUtc) as real / DAY as real
    requires Abs(start as real - birthWall as real / DAY as real - MEAN_YEAR_DAYS * a) <= 5.1
    requires Abs(end as real - birthWall as real / DAY as real - MEAN_YEAR_DAYS * z) <= 5.1
    ensures start - 8 <= DayOf(asOf) <= end + 8
  {
    assert DAY * (asOf / DAY) <= asOf < DAY * (asOf / DAY) + DAY;
  }
}
