/** The solar term from which the decades are counted. */
module DayunAnchor {
  import opened Circle
  import opened Outcome
  import opened Clock
  import opened Ephemeris
  import opened Jieqi

  const WINDOW_HALF_DAYS := 30.0
  const ACCURACY_SECONDS := 1.0

  datatype Flow = Forward | Backward

  /** Term index from Li Chun on, its time, its instant to the second, and the split distance. */
  datatype Anchor = Anchor(index: nat, jd: real, utc: int, days: int, hours: int, minutes: int)

  type Crossing = (nat, real)

  /** The n-th multiple of 15 degrees on the unwrapped ecliptic. */
  function TermTimeOf(s: Sun, n: int): real {
    s.time(15.0 * n as real)
  }

  /** Its index when counting from Li Chun at 315 degrees. */
  function TermIndex(n: int): nat {
    (n - 21) % 24
  }

  /** The nearest term strictly after or strictly before a time. */
  function AdjacentTerm(s: Sun, jd: real, flow: Flow): int {
    if flow == Forward then (s.lon(jd) / 15.0).Floor + 1 else -((-(s.lon(jd) / 15.0)).Floor) - 1
  }

  /** It is adjacent: no term lies strictly between it and the time, and it is within 16.7 days. */
  lemma AdjacentIsNearest(s: Sun, jd: real, flow: Flow, n: int)
    requires Moves(s)
    ensures var a := AdjacentTerm(s, jd, flow);
            && (flow == Forward ==> jd < TermTimeOf(s, a) <= jd + 16.7)
            && (flow == Backward ==> jd - 16.7 <= TermTimeOf(s, a) < jd)
            && (flow == Forward && jd < TermTimeOf(s, n) ==> a <= n && TermTimeOf(s, a) <= TermTimeOf(s, n))
            && (flow == Backward && TermTimeOf(s, n) < jd ==> n <= a && TermTimeOf(s, n) <= TermTimeOf(s, a))
  {
    var a := AdjacentTerm(s, jd, flow);
    Reached(s, 15.0 * a as real);
    Reached(s, 15.0 * n as real);
    Rate(s, jd, TermTimeOf(s, a));
    Rate(s, jd, TermTimeOf(s, n));
    Rate(s, TermTimeOf(s, a), TermTimeOf(s, n));
    if flow == Forward {
      assert 15.0 * (a - 1) as real <= s.lon(jd) < 15.0 * a as real;
    } else {
      assert 15.0 * a as real < s.lon(jd) <= 15.0 * (a + 1) as real;
    }
  }

  function TargetOf(index: nat): real {
    Mod360(315.0 + 15.0 * index as real)
  }

  /** A term within the coming turn is that many degrees ahead, and is the next crossing. */
  lemma TermAhead(s: Sun, n: int, start: real)
    requires Moves(s) && 0.0 <= 15.0 * n as real - s.lon(start) < 360.0
    ensures Ahead(s, TargetOf(TermIndex(n)), start) == 15.0 * n as real - s.lon(start)
    ensures NextCrossing(s, TargetOf(TermIndex(n)), start) == TermTimeOf(s, n)
  {
    var index := TermIndex(n);
    var q := ((315.0 + 15.0 * index as real) / 360.0).Floor;
    var turns := (n - 21) / 24;
    assert n == 21 + index + 24 * turns;
    assert TargetOf(index) - s.lon(start) == 15.0 * n as real - s.lon(start) - Turn(q + turns);
    Mod360Is(TargetOf(index) - s.lon(start), -q - turns);
  }

  /** Every index has its term within the coming turn. */
  lemma TermOfIndex(s: Sun, index: nat, start: real) returns (n: int)
    requires Moves(s) && index < 24
    ensures TermIndex(n) == index
    ensures 0.0 <= 15.0 * n as real - s.lon(start) < 360.0
  {
    var turns := ((15.0 * (21 + index) as real - s.lon(start)) / 360.0).Floor;
    n := 21 + index - 24 * turns;
  }

  /** What the search from the window's start yields for an index. */
  function FoundAt(b: Backend, start: real, index: nat): Option<real> {
    match b.solcross(TargetOf(index), start)
    case Some(jd) => Some(jd)
    case None =>
      var event := ScanEvent(b.sun, TargetOf(index), start);
      if event > start + 61.0 then None
      else Some(ScanEnd(start, event, Ahead(b.sun, TargetOf(index), start) <= 180.0, ACCURACY_SECONDS))
  }

  ghost predicate InWindow(start: real, found: Option<real>) {
    found.Some? && start <= found.value <= start + 2.0 * WINDOW_HALF_DAYS
  }

  /** The list holds what was found inside the window for the indices below upTo, in their order. */
  ghost predicate Lists(b: Backend, start: real, crossings: seq<Crossing>, upTo: nat) {
    && (forall c :: c in crossings ==> c.0 < upTo && FoundAt(b, start, c.0) == Some(c.1) && InWindow(start, Some(c.1)))
    && (forall index: nat :: index < upTo && InWindow(start, FoundAt(b, start, index)) ==>
          (index, FoundAt(b, start, index).value) in crossings)
    && (forall i, j :: 0 <= i < j < |crossings| ==> crossings[i].0 < crossings[j].0)
  }

  method ScanWindow(b: Backend, start: real) returns (crossings: seq<Crossing>)
    ensures forall c :: c in crossings ==> c.0 < 24 && InWindow(start, Some(c.1))
    ensures Moves(b.sun) ==> Lists(b, start, crossings, 24)
  {
    crossings := [];
    for index := 0 to 24
      invariant forall c :: c in crossings ==> c.0 < index && InWindow(start, Some(c.1))
      invariant Moves(b.sun) ==> Lists(b, start, crossings, index)
    {
      var jd := FindCrossing(b, TargetOf(index), start, ACCURACY_SECONDS, 2.0 * WINDOW_HALF_DAYS);
      assert Steps(2.0 * WINDOW_HALF_DAYS) == 61;
      assert Moves(b.sun) ==> FoundAt(b, start, index) == if jd.Ok? then Some(jd.value) else None;
      if jd.Err? {
        continue;
      }
      if start <= jd.value <= start + 2.0 * WINDOW_HALF_DAYS {
        crossings := crossings + [(index, jd.value)];
      }
    }
  }

  // ---- what is found ----

  /** How far a found time may be from its term. */
  const SLACK := Slack(ACCURACY_SECONDS)

  lemma {:induction false} HalvedShrinks(width: real, m: nat, n: nat)
    requires width >= 0.0 && m <= n
    ensures 0.0 <= Halved(width, n) <= Halved(width, m)
    decreases n
  {
    if m < n {
      HalvedShrinks(width, m, n - 1);
    } else {
      HalvedNonNegative(width, m);
    }
  }

  /** It is half a second: the eighty halvings never decide. */
  lemma SlackIsHalfASecond()
    ensures SLACK == 0.5 / 86400.0
  {
    HalvedShrinks(1.0, 18, 81);
    assert Halved(1.0, 6) == 1.0 / 64.0;
    assert Halved(1.0, 12) == 1.0 / 4096.0;
    assert Halved(1.0, 18) == 1.0 / 262144.0;
  }

  /** Everything found is a term: the term of its index when the direct search answers, otherwise
      that term or the one opposite to it, within the slack. */
  lemma FoundIsTerm(b: Backend, start: real, index: nat) returns (n: int)
    requires Honest(b) && index < 24 && FoundAt(b, start, index).Some?
    ensures TermIndex(n) % 12 == index % 12
    ensures Abs(FoundAt(b, start, index).value - TermTimeOf(b.sun, n)) <= SLACK
    ensures b.solcross(TargetOf(index), start).Some? ==>
              TermIndex(n) == index && FoundAt(b, start, index).value == TermTimeOf(b.sun, n)
    ensures b.solcross(TargetOf(index), start).None? ==>
              FoundAt(b, start, index).value
              == ScanEnd(start, TermTimeOf(b.sun, n), TermIndex(n) == index, ACCURACY_SECONDS)
  {
    n := TermOfIndex(b.sun, index, start);
    TermAhead(b.sun, n, start);
    if b.solcross(TargetOf(index), start).None? {
      n := ScanEventIsTerm(b.sun, index, start, n);
      ScanEndNear(start, TermTimeOf(b.sun, n), TermIndex(n) == index, ACCURACY_SECONDS);
    } else {
      HalvedNonNegative(1.0, 81);
    }
  }

  lemma ScanEventIsTerm(s: Sun, index: nat, start: real, own: int) returns (n: int)
    requires Moves(s) && TermIndex(own) == index
    requires Ahead(s, TargetOf(index), start) == 15.0 * own as real - s.lon(start)
    ensures TermIndex(n) % 12 == index % 12
    ensures ScanEvent(s, TargetOf(index), start) == TermTimeOf(s, n)
    ensures TermIndex(n) == index <==> Ahead(s, TargetOf(index), start) <= 180.0
  {
    n := StopOfScan(s, TargetOf(index), start, own);
    OppositeIndex(own - 12);
  }

  lemma OppositeIndex(n: int)
    ensures TermIndex(n + 12) == (TermIndex(n) + 12) % 24
    ensures TermIndex(n + 12) % 12 == TermIndex(n) % 12 && TermIndex(n + 12) != TermIndex(n)
  {
    HalfTurn(n - 21);
  }

  lemma HalfTurn(m: int)
    ensures (m + 12) % 24 == if m % 24 < 12 then m % 24 + 12 else m % 24 - 12
  {
    var q, r := m / 24, m % 24;
    assert m + 12 == if r < 12 then 24 * q + (r + 12) else 24 * (q + 1) + (r - 12);
  }

  lemma StopOfScan(s: Sun, target: real, start: real, own: int) returns (n: int)
    requires Moves(s) && Ahead(s, target, start) == 15.0 * own as real - s.lon(start)
    ensures n == if Ahead(s, target, start) <= 180.0 then own else own - 12
    ensures ScanEvent(s, target, start) == TermTimeOf(s, n)
  {
    n := if Ahead(s, target, start) <= 180.0 then own else own - 12;
    assert ScanStop(s, target, start) == 15.0 * n as real;
  }

  lemma FoundByScan(b: Backend, start: real, index: nat, event: real)
    requires Fallback(b) && event == ScanEvent(b.sun, TargetOf(index), start) && start + 1.0 < event < start + 59.0
    ensures FoundAt(b, start, index)
         == Some(ScanEnd(start, event, Ahead(b.sun, TargetOf(index), start) <= 180.0, ACCURACY_SECONDS))
    ensures InWindow(start, FoundAt(b, start, index))
  {
    assert b.solcross(TargetOf(index), start).None?;
    ScanEndNear(start, event, Ahead(b.sun, TargetOf(index), start) <= 180.0, ACCURACY_SECONDS);
  }

  /** A term well inside the window is at most 66 degrees ahead. */
  lemma TermNotFar(s: Sun, start: real, n: int)
    requires Moves(s) && start + 1.0 < TermTimeOf(s, n) < start + 59.0
    ensures 0.0 < 15.0 * n as real - s.lon(start) < 66.0
  {
    Reached(s, 15.0 * n as real);
    Rate(s, start, TermTimeOf(s, n));
  }

  /** It is found under its own index, ... */
  lemma TermIsFound(b: Backend, start: real, n: int)
    requires Honest(b) && start + 1.0 < TermTimeOf(b.sun, n) < start + 59.0
    ensures InWindow(start, FoundAt(b, start, TermIndex(n)))
    ensures Abs(FoundAt(b, start, TermIndex(n)).value - TermTimeOf(b.sun, n)) <= SLACK
    ensures Direct(b) ==> FoundAt(b, start, TermIndex(n)) == Some(TermTimeOf(b.sun, n))
  {
    TermNotFar(b.sun, start, n);
    TermAhead(b.sun, n, start);
    var k := StopOfScan(b.sun, TargetOf(TermIndex(n)), start, n);
    assert Direct(b) ==> b.solcross(TargetOf(TermIndex(n)), start).Some?;
    HalvedNonNegative(1.0, 81);
    ScanEndNear(start, TermTimeOf(b.sun, n), true, ACCURACY_SECONDS);
  }

  /** ... and by a scan under the opposite index as well. */
  lemma TermIsFoundTwice(b: Backend, start: real, n: int)
    requires Fallback(b) && start + 1.0 < TermTimeOf(b.sun, n) < start + 59.0
    ensures FoundAt(b, start, TermIndex(n)) == Some(ScanEnd(start, TermTimeOf(b.sun, n), true, ACCURACY_SECONDS))
    ensures FoundAt(b, start, TermIndex(n + 12)) == Some(ScanEnd(start, TermTimeOf(b.sun, n), false, ACCURACY_SECONDS))
    ensures InWindow(start, FoundAt(b, start, TermIndex(n))) && InWindow(start, FoundAt(b, start, TermIndex(n + 12)))
  {
    TermNotFar(b.sun, start, n);
    TermAhead(b.sun, n, start);
    TermAhead(b.sun, n + 12, start);
    var k := StopOfScan(b.sun, TargetOf(TermIndex(n)), start, n);
    var l := StopOfScan(b.sun, TargetOf(TermIndex(n + 12)), start, n + 12);
    FoundByScan(b, start, TermIndex(n), TermTimeOf(b.sun, n));
    FoundByScan(b, start, TermIndex(n + 12), TermTimeOf(b.sun, n));
  }

  predicate OnSide(c: Crossing, birth: real, flow: Flow) {
    if flow == Forward then c.1 > birth else c.1 < birth
  }

  predicate Nearer(c: Crossing, d: Crossing, flow: Flow) {
    if flow == Forward then c.1 < d.1 else c.1 > d.1
  }

  /** The first one of the list that no other on the side is nearer than. */
  ghost predicate FirstNearest(crossings: seq<Crossing>, birth: real, flow: Flow, c: Crossing) {
    && OnSide(c, birth, flow)
    && (forall d :: d in crossings && OnSide(d, birth, flow) ==> !Nearer(d, c, flow))
    && exists k :: 0 <= k < |crossings| && crossings[k] == c
                   && forall j :: 0 <= j < k && OnSide(crossings[j], birth, flow) ==> Nearer(c, crossings[j], flow)
  }

  method Nearest(crossings: seq<Crossing>, birth: real, flow: Flow) returns (r: Option<Crossing>)
    ensures r.None? <==> forall c :: c in crossings ==> !OnSide(c, birth, flow)
    ensures r.Some? ==> FirstNearest(crossings, birth, flow, r.value)
  {
    r := None;
    ghost var k := 0;
    for i := 0 to |crossings|
      invariant r.None? ==> forall j :: 0 <= j < i ==> !OnSide(crossings[j], birth, flow)
      invariant r.Some? ==> 0 <= k < i && crossings[k] == r.value && OnSide(r.value, birth, flow)
      invariant r.Some? ==> forall j :: 0 <= j < i && OnSide(crossings[j], birth, flow) ==>
                              !Nearer(crossings[j], r.value, flow)
      invariant r.Some? ==> forall j :: 0 <= j < k && OnSide(crossings[j], birth, flow) ==>
                              Nearer(r.value, crossings[j], flow)
    {
      if OnSide(crossings[i], birth, flow) && (r.None? || Nearer(crossings[i], r.value, flow)) {
        r := Some(crossings[i]);
        k := i;
      }
    }
  }

  // ---- the term that is chosen ----

  /** No solar term is within the slack of a time. */
  ghost predicate Clear(s: Sun, jd: real) {
    forall n {:trigger TermTimeOf(s, n)} :: Abs(TermTimeOf(s, n) - jd) > SLACK
  }

  lemma TermsApart(s: Sun, m: int, n: int)
    requires Moves(s) && m < n
    ensures TermTimeOf(s, m) + 13.0 < TermTimeOf(s, n)
    ensures n == m + 1 ==> TermTimeOf(s, n) < TermTimeOf(s, m) + 17.0
  {
    TravelTime(s, 15.0 * m as real, 15.0 * n as real);
  }

  /** The window always holds a crossing on the requested side. */
  lemma SomeOnSide(b: Backend, birth: real, flow: Flow, crossings: seq<Crossing>) returns (c: Crossing)
    requires Honest(b) && Lists(b, birth - WINDOW_HALF_DAYS, crossings, 24)
    ensures c in crossings && OnSide(c, birth, flow)
  {
    var start := birth - WINDOW_HALF_DAYS;
    var n := AdjacentTerm(b.sun, birth, flow);
    AdjacentIsNearest(b.sun, birth, flow, n);
    if Abs(TermTimeOf(b.sun, n) - birth) <= SLACK {
      var before := if flow == Forward then n else n - 1;
      TermsApart(b.sun, before, before + 1);
      n := if flow == Forward then n + 1 else n - 1;
      HalvedNonNegative(1.0, 81);
      assert SLACK <= 1.0;
    }
    TermIsFound(b, start, n);
    c := (TermIndex(n), FoundAt(b, start, TermIndex(n)).value);
  }

  /** The chosen crossing is the adjacent term, or the one opposite to it, unless a term is so
      near to the birth that the search cannot tell its side. */
  lemma ChosenIsAdjacent(b: Backend, birth: real, flow: Flow, crossings: seq<Crossing>, c: Crossing)
    requires Honest(b) && Lists(b, birth - WINDOW_HALF_DAYS, crossings, 24)
    requires FirstNearest(crossings, birth, flow, c)
    requires Direct(b) || Clear(b.sun, birth)
    ensures var n := AdjacentTerm(b.sun, birth, flow);
            && TermIndex(n) % 12 == c.0 % 12 && c.0 < 24
            && Abs(c.1 - TermTimeOf(b.sun, n)) <= SLACK
            && (Direct(b) ==> c == (TermIndex(n), TermTimeOf(b.sun, n)))
  {
    var start := birth - WINDOW_HALF_DAYS;
    var n := AdjacentTerm(b.sun, birth, flow);
    var k := FoundIsTerm(b, start, c.0);
    assert Direct(b) ==> b.solcross(TargetOf(c.0), start).Some?;
    AdjacentIsNearest(b.sun, birth, flow, n);
    AdjacentIsNearest(b.sun, birth, flow, k);
    TermIsFound(b, start, n);
    var d := (TermIndex(n), FoundAt(b, start, TermIndex(n)).value);
    assert d in crossings && OnSide(d, birth, flow) && !Nearer(d, c, flow);
    HalvedNonNegative(1.0, 81);
    assert SLACK <= 1.0;
    if n < k {
      TermsApart(b.sun, n, k);
    } else if k < n {
      TermsApart(b.sun, k, n);
    }
  }

  predicate Whole(x: real) {
    x == x.Floor as real
  }

  /** Of a term's own index and the opposite one the scan reports the lower, or, at a whole number of
      days from the birth, the opposite one forwards and its own backwards. */
  function NameOfTwo(own: nat, other: nat, whole: bool, flow: Flow): nat {
    if !whole then (if own < other then own else other)
    else if flow == Forward then other else own
  }

  /** The index under which the scan alone reports the adjacent term. */
  function ScanName(s: Sun, birth: real, flow: Flow): nat {
    var n := AdjacentTerm(s, birth, flow);
    NameOfTwo(TermIndex(n), TermIndex(n + 12), Whole(TermTimeOf(s, n) - birth), flow)
  }

  lemma NameIsRightIff(own: nat, other: nat, whole: bool, flow: Flow)
    requires own < 24 && other == (own + 12) % 24
    ensures NameOfTwo(own, other, whole, flow) == own <==> if whole then flow == Backward else own < 12
  {
  }

  lemma WholeDays(birth: real, event: real)
    ensures StepBefore(birth - WINDOW_HALF_DAYS, event) + 1.0 == event <==> Whole(event - birth)
  {
    var start := birth - WINDOW_HALF_DAYS;
    var days := event - birth;
    assert start - event == -30.0 - days;
    assert StepBefore(start, event) + 1.0 == start - (-30.0 - days).Floor as real;
    NegatedFloor(days);
  }

  lemma NegatedFloor(days: real)
    ensures -(-30.0 - days).Floor as real == 30.0 + days <==> Whole(days)
  {
    if Whole(days) {
      assert (-30.0 - days).Floor == -30 - days.Floor;
    }
  }

  /** Of two crossings at the same time the one with the lower index is taken. */
  lemma FirstOfTwo(crossings: seq<Crossing>, birth: real, flow: Flow, c: Crossing, d: Crossing)
    requires forall i, j :: 0 <= i < j < |crossings| ==> crossings[i].0 < crossings[j].0
    requires FirstNearest(crossings, birth, flow, c)
    requires d in crossings && OnSide(d, birth, flow) && c.1 == d.1
    ensures c.0 <= d.0
  {
    var k :| 0 <= k < |crossings| && crossings[k] == c
             && forall j :: 0 <= j < k && OnSide(crossings[j], birth, flow) ==> Nearer(c, crossings[j], flow);
    var j :| 0 <= j < |crossings| && crossings[j] == d;
    assert !(j < k);
  }

  /** A search that passes an event upwards and one that passes it downwards end at the same time,
      except that an event at a whole number of days is hit exactly upwards and a little early
      downwards. */
  lemma TwoEnds(birth: real, event: real) returns (up: real, down: real)
    ensures up == ScanEnd(birth - WINDOW_HALF_DAYS, event, true, ACCURACY_SECONDS)
    ensures down == ScanEnd(birth - WINDOW_HALF_DAYS, event, false, ACCURACY_SECONDS)
    ensures Abs(up - event) <= SLACK && Abs(down - event) <= SLACK
    ensures if Whole(event - birth) then down < up else down == up
  {
    var start := birth - WINDOW_HALF_DAYS;
    ScanEndNear(start, event, true, ACCURACY_SECONDS);
    ScanEndNear(start, event, false, ACCURACY_SECONDS);
    WholeDays(birth, event);
    up := ScanEnd(start, event, true, ACCURACY_SECONDS);
    down := ScanEnd(start, event, false, ACCURACY_SECONDS);
  }

  lemma InList(b: Backend, start: real, crossings: seq<Crossing>, index: nat, jd: real)
    requires Lists(b, start, crossings, 24) && index < 24
    requires FoundAt(b, start, index) == Some(jd) && InWindow(start, Some(jd))
    ensures (index, jd) in crossings
  {
  }

  lemma OnSideToo(t: real, jd: real, birth: real, flow: Flow, index: nat)
    requires Abs(t - birth) > SLACK && Abs(jd - t) <= SLACK
    requires if flow == Forward then birth < t else t < birth
    ensures OnSide((index, jd), birth, flow)
  {
  }

  /** A scan lists the adjacent term twice, under its own index and under the opposite one. */
  lemma FoundTwice(b: Backend, birth: real, flow: Flow, crossings: seq<Crossing>, n: int) returns (own: Crossing,
                   other: Crossing)
    requires Fallback(b) && Lists(b, birth - WINDOW_HALF_DAYS, crossings, 24) && Clear(b.sun, birth)
    requires var t := TermTimeOf(b.sun, n);
             if flow == Forward then birth < t <= birth + 17.0 else birth - 17.0 <= t < birth
    ensures own.0 == TermIndex(n) && other.0 == TermIndex(n + 12)
    ensures own in crossings && other in crossings
    ensures OnSide(own, birth, flow) && OnSide(other, birth, flow)
    ensures if Whole(TermTimeOf(b.sun, n) - birth) then other.1 < own.1 else other.1 == own.1
  {
    var start := birth - WINDOW_HALF_DAYS;
    var t := TermTimeOf(b.sun, n);
    TermIsFoundTwice(b, start, n);
    var up, down := TwoEnds(birth, t);
    own, other := (TermIndex(n), up), (TermIndex(n + 12), down);
    InList(b, start, crossings, own.0, up);
    InList(b, start, crossings, other.0, down);
    OnSideToo(t, up, birth, flow, own.0);
    OnSideToo(t, down, birth, flow, other.0);
  }

  /** That name is right if and only if the term is one of the twelve from Li Chun to Da Shu, or, at a
      whole number of days from the birth, lies before it. */
  lemma ScanNameIsRightIff(s: Sun, birth: real, flow: Flow, n: int)
    requires n == AdjacentTerm(s, birth, flow)
    ensures ScanName(s, birth, flow) == TermIndex(n) <==>
              if Whole(TermTimeOf(s, n) - birth) then flow == Backward else TermIndex(n) < 12
  {
    OppositeIndex(n);
    NameIsRightIff(TermIndex(n), TermIndex(n + 12), Whole(TermTimeOf(s, n) - birth), flow);
  }

  lemma ChosenByScan(b: Backend, birth: real, flow: Flow, crossings: seq<Crossing>, c: Crossing)
    requires Fallback(b) && Lists(b, birth - WINDOW_HALF_DAYS, crossings, 24) && Clear(b.sun, birth)
    requires FirstNearest(crossings, birth, flow, c)
    ensures c.0 == ScanName(b.sun, birth, flow)
    ensures var n := AdjacentTerm(b.sun, birth, flow);
            c.0 == TermIndex(n) <==>
              if Whole(TermTimeOf(b.sun, n) - birth) then flow == Backward else TermIndex(n) < 12
  {
    var n := AdjacentTerm(b.sun, birth, flow);
    AdjacentIsNearest(b.sun, birth, flow, n);
    ChosenIsAdjacent(b, birth, flow, crossings, c);
    ScanTakes(b, birth, flow, crossings, c, n);
    ScanNameIsRightIff(b.sun, birth, flow, n);
  }

  lemma ScanTakes(b: Backend, birth: real, flow: Flow, crossings: seq<Crossing>, c: Crossing, n: int)
    requires Fallback(b) && Lists(b, birth - WINDOW_HALF_DAYS, crossings, 24) && Clear(b.sun, birth)
    requires FirstNearest(crossings, birth, flow, c)
    requires var t := TermTimeOf(b.sun, n);
             if flow == Forward then birth < t <= birth + 17.0 else birth - 17.0 <= t < birth
    requires c.0 < 24 && TermIndex(n) % 12 == c.0 % 12
    ensures c.0 == NameOfTwo(TermIndex(n), TermIndex(n + 12), Whole(TermTimeOf(b.sun, n) - birth), flow)
  {
    var own, other := FoundTwice(b, birth, flow, crossings, n);
    Opposite(n, c.0);
    NameOfChosen(crossings, birth, flow, c, own, other, Whole(TermTimeOf(b.sun, n) - birth));
  }

  lemma NameOfChosen(crossings: seq<Crossing>, birth: real, flow: Flow, c: Crossing, own: Crossing, other: Crossing,
                     whole: bool)
    requires forall i, j :: 0 <= i < j < |crossings| ==> crossings[i].0 < crossings[j].0
    requires FirstNearest(crossings, birth, flow, c)
    requires own in crossings && other in crossings && OnSide(own, birth, flow) && OnSide(other, birth, flow)
    requires if whole then other.1 < own.1 else other.1 == own.1
    requires c.0 == own.0 || c.0 == other.0
    ensures c.0 == NameOfTwo(own.0, other.0, whole, flow)
  {
    var k :| 0 <= k < |crossings| && crossings[k] == c;
    var i :| 0 <= i < |crossings| && crossings[i] == own;
    var j :| 0 <= j < |crossings| && crossings[j] == other;
    assert c == own || c == other;
    if whole {
      assert !Nearer(own, c, flow) && !Nearer(other, c, flow);
    } else {
      FirstOfTwo(crossings, birth, flow, c, own);
      FirstOfTwo(crossings, birth, flow, c, other);
    }
  }

  lemma Opposite(n: int, index: nat)
    requires index < 24 && TermIndex(n) % 12 == index % 12
    ensures index == TermIndex(n) || index == TermIndex(n + 12)
  {
    OppositeIndex(n);
  }

  /** With a direct search it is the adjacent term on the requested side, under its own name. */
  ghost predicate IsAdjacent(s: Sun, birth: real, flow: Flow, c: Crossing) {
    var n := AdjacentTerm(s, birth, flow);
    c.0 == TermIndex(n) && c.1 == TermTimeOf(s, n)
  }

  /** If no term is within the slack of the birth, its time is that of the adjacent term in any case,
      and its name is right or that of the opposite term. */
  ghost predicate IsNearAdjacent(s: Sun, birth: real, flow: Flow, c: Crossing) {
    var n := AdjacentTerm(s, birth, flow);
    Abs(c.1 - TermTimeOf(s, n)) <= SLACK && c.0 % 12 == TermIndex(n) % 12
  }

  /** The scan alone names the terms from Li Chun to Da Shu rightly and the others after their
      opposites; a term at a whole number of days from the birth rightly only if it lies before. */
  ghost predicate IsNamedByScan(s: Sun, birth: real, flow: Flow, c: Crossing) {
    var n := AdjacentTerm(s, birth, flow);
    c.0 == TermIndex(n) <==>
      if Whole(TermTimeOf(s, n) - birth) then flow == Backward else TermIndex(n) < 12
  }

  lemma ChosenAnchor(b: Backend, birth: real, flow: Flow, crossings: seq<Crossing>, c: Crossing)
    requires Honest(b) && Lists(b, birth - WINDOW_HALF_DAYS, crossings, 24)
    requires FirstNearest(crossings, birth, flow, c)
    ensures Direct(b) ==> IsAdjacent(b.sun, birth, flow, c)
    ensures Clear(b.sun, birth) ==> IsNearAdjacent(b.sun, birth, flow, c)
    ensures Fallback(b) && Clear(b.sun, birth) ==> IsNamedByScan(b.sun, birth, flow, c)
  {
    if Direct(b) || Clear(b.sun, birth) {
      ChosenIsAdjacent(b, birth, flow, crossings, c);
    }
    if Fallback(b) && Clear(b.sun, birth) {
      ChosenByScan(b, birth, flow, crossings, c);
    }
  }

  // ---- the anchor ----

  const SECOND := 1_000_000

  function Distance(a: int, b: int): int {
    if a < b then b - a else a - b
  }

  /** The distance between two instants in whole minutes, split into days, hours and minutes. */
  function SplitDelta(index: nat, jd: real, birthUtc: int): Anchor {
    var utc := JdUtToDatetimeUtc(jd) / SECOND * SECOND;
    var totalMinutes := Distance(utc, birthUtc) / MINUTE;
    Anchor(index, jd, utc, totalMinutes / 1440, totalMinutes % 1440 / 60, totalMinutes % 1440 % 60)
  }

  /** The anchor's datetime is the crossing with the fraction of its second dropped. The parts are in
      range and add up to its distance from the birth, down to the minute; so they are the distance in
      Julian days, down to the minute and a second. */
  lemma DeltaParts(index: nat, jd: real, birthUtc: int)
    ensures var a := SplitDelta(index, jd, birthUtc);
            && a.index == index && a.jd == jd
            && 0 <= a.days && 0 <= a.hours < 24 && 0 <= a.minutes < 60
            && 0 <= JdUtToDatetimeUtc(jd) - a.utc < 1_000_000 && a.utc % 1_000_000 == 0
    ensures var a := SplitDelta(index, jd, birthUtc);
            var total := (a.days * 24 + a.hours) * 60 + a.minutes;
            var minutes := Abs(jd - DatetimeUtcToJdUt(birthUtc)) * 1440.0;
            && total * MINUTE <= Distance(a.utc, birthUtc) < (total + 1) * MINUTE
            && total as real - 0.02 <= minutes <= total as real + 1.02
  {
    var a := SplitDelta(index, jd, birthUtc);
    SplitMinutes(Distance(a.utc, birthUtc) / MINUTE);
    WholeMinutes(Distance(a.utc, birthUtc));
    SecondsDropped(JdUtToDatetimeUtc(jd));
    DistanceInDays(jd, birthUtc, a.utc);
    MinutesBound(Distance(a.utc, birthUtc), Abs(jd - DatetimeUtcToJdUt(birthUtc)));
  }

  lemma DistanceInDays(jd: real, birthUtc: int, utc: int)
    requires 0 <= JdUtToDatetimeUtc(jd) - utc < SECOND
    ensures Abs(Distance(utc, birthUtc) as real - Abs(jd - DatetimeUtcToJdUt(birthUtc)) * DAY as real)
            <= 1.0 + SECOND as real
  {
    var birth := DatetimeUtcToJdUt(birthUtc);
    JdRoundTrip(birthUtc);
    if jd < birth {
      JdConversionKeepsOrder(jd, birth);
    } else {
      JdConversionKeepsOrder(birth, jd);
    }
  }

  lemma SplitMinutes(total: int)
    requires total >= 0
    ensures 0 <= total / 1440 && 0 <= total % 1440 / 60 < 24
    ensures (total / 1440 * 24 + total % 1440 / 60) * 60 + total % 1440 % 60 == total
  {
  }

  lemma WholeMinutes(distance: int)
    ensures distance / MINUTE * MINUTE <= distance < (distance / MINUTE + 1) * MINUTE
  {
  }

  lemma SecondsDropped(utc: int)
    ensures utc - SECOND < utc / SECOND * SECOND <= utc
    ensures utc / SECOND * SECOND % SECOND == 0
  {
  }

  lemma MinutesBound(distance: int, days: real)
    requires Abs(distance as real - days * DAY as real) <= 1.0 + SECOND as real
    ensures (distance / MINUTE) as real - 0.02 <= days * 1440.0 <= (distance / MINUTE) as real + 1.02
  {
    WholeMinutes(distance);
  }

  /** The crossing is the first nearest one of those the window search lists. */
  ghost predicate ChosenFromWindow(b: Backend, birth: real, flow: Flow, c: Crossing) {
    exists crossings ::
      Lists(b, birth - WINDOW_HALF_DAYS, crossings, 24) && FirstNearest(crossings, birth, flow, c)
  }

  /** What is promised of an anchor, whatever the backend, and more the more the backend answers. */
  ghost predicate IsAnchor(b: Backend, birthUtc: int, flow: Flow, a: Anchor) {
    var birth := DatetimeUtcToJdUt(birthUtc);
    && a == SplitDelta(a.index, a.jd, birthUtc)
    && Abs(a.jd - birth) <= WINDOW_HALF_DAYS
    && (Moves(b.sun) ==> ChosenFromWindow(b, birth, flow, (a.index, a.jd)))
    && (Direct(b) ==> IsAdjacent(b.sun, birth, flow, (a.index, a.jd)))
    && (Honest(b) && Clear(b.sun, birth) ==> IsNearAdjacent(b.sun, birth, flow, (a.index, a.jd)))
    && (Fallback(b) && Clear(b.sun, birth) ==> IsNamedByScan(b.sun, birth, flow, (a.index, a.jd)))
  }

  lemma ChosenIsAnchor(b: Backend, birthUtc: int, flow: Flow, crossings: seq<Crossing>, c: Crossing)
    requires var start := DatetimeUtcToJdUt(birthUtc) - WINDOW_HALF_DAYS;
             && (forall d :: d in crossings ==> InWindow(start, Some(d.1)))
             && (Moves(b.sun) ==> Lists(b, start, crossings, 24))
    requires FirstNearest(crossings, DatetimeUtcToJdUt(birthUtc), flow, c)
    ensures IsAnchor(b, birthUtc, flow, SplitDelta(c.0, c.1, birthUtc))
  {
    assert c in crossings && InWindow(DatetimeUtcToJdUt(birthUtc) - WINDOW_HALF_DAYS, Some(c.1));
    var a := SplitDelta(c.0, c.1, birthUtc);
    assert (a.index, a.jd) == c;
    if Honest(b) {
      ChosenAnchor(b, DatetimeUtcToJdUt(birthUtc), flow, crossings, c);
    }
  }

  method ResolveJieqiAnchor(b: Backend, birthUtc: int, flow: Flow) returns (r: Result<Anchor>)
    ensures r.Err? ==> r.error == InputError
    ensures r.Ok? ==> IsAnchor(b, birthUtc, flow, r.value)
    ensures Honest(b) ==> r.Ok?
  {
    var birthJd := DatetimeUtcToJdUt(birthUtc);
    var crossings := ScanWindow(b, birthJd - WINDOW_HALF_DAYS);
    if Honest(b) {
      ghost var c := SomeOnSide(b, birthJd, flow, crossings);
    }
    if crossings == [] {
      return Err(InputError);
    }
    var anchor := Nearest(crossings, birthJd, flow);
    if anchor.None? {
      return Err(InputError);
    }
    ChosenIsAnchor(b, birthUtc, flow, crossings, anchor.value);
    r := Ok(SplitDelta(anchor.value.0, anchor.value.1, birthUtc));
  }
}
