/** The lunation finder: Newton refinement of a phase event and the two new moons around
    an instant. */
module Lunation {
  import opened Circle
  import opened Outcome

  const SLOWEST_MOON := 10.0
  const FASTEST_MOON := 14.5

  datatype Phase = Phase(index: int, center: real, start: real, end: real, progress: real)

  function ClassifyEightPhase(elongationDeg: real): Phase {
    var angle := Norm360(elongationDeg);
    var index := (Mod360(angle + 22.5) / 45.0).Floor;
    var center := 45.0 * index as real;
    var start := Mod360(center - 22.5);
    Phase(index, center, start, Mod360(center + 22.5), Mod360(angle - start) / 45.0)
  }

  /** The phase is the one of the eight centres at most 22.5 degrees away, the lower edge
      included, and the progress measures the way from that edge. */
  lemma PhaseIsNearestCenter(elongationDeg: real)
    ensures var f := ClassifyEightPhase(elongationDeg);
            && 0 <= f.index < 8
            && -22.5 <= Wrap180(elongationDeg - f.center) < 22.5
            && f.progress * 45.0 == Wrap180(elongationDeg - f.center) + 22.5
            && f.center == 45.0 * f.index as real
            && 0.0 <= f.start < 360.0 && SameDirection(f.start, f.center - 22.5)
            && 0.0 <= f.end < 360.0 && SameDirection(f.end, f.center + 22.5)
  {
    var angle := Norm360(elongationDeg);
    var f := ClassifyEightPhase(elongationDeg);
    Wrap180OfNorm(elongationDeg, f.center);
    var over := if angle >= 337.5 then 1 else 0;
    Mod360Is(angle + 22.5, over);
    Wrap180Is(angle - f.center, over);
    Mod360Is(f.center - 22.5, if f.index == 0 then -1 else 0);
    assert f.start == f.center - 22.5 + Turn(if f.index == 0 then 1 else 0);
    Mod360Is(f.center + 22.5, 0);
    assert f.end == f.center + 22.5 + Turn(0);
    Mod360Is(angle - f.start, if f.index == 0 && over == 0 then -1 else 0);
  }

  /** Elongation of the Moon from the Sun, unwrapped, its speed in degrees a day, and the time
      at which a given unwrapped elongation is reached. */
  datatype Provider = Provider(elongation: real -> real, speed: real -> real, time: real -> real)

  /** The relative motion stays between 10 and 14.5 degrees a day, so a cycle lasts between
      24.8 and 36 days. */
  ghost predicate Orbits(p: Provider) {
    && (forall a, b :: a <= b ==> SLOWEST_MOON * (b - a) <= Travelled(p, a, b) <= FASTEST_MOON * (b - a))
    && (forall t {:trigger p.speed(t)} :: SLOWEST_MOON <= p.speed(t) <= FASTEST_MOON)
    && (forall x {:trigger p.time(x)} :: p.elongation(p.time(x)) == x)
  }

  function Travelled(p: Provider, a: real, b: real): real {
    p.elongation(b) - p.elongation(a)
  }

  lemma Rate(p: Provider, a: real, b: real)
    requires Orbits(p)
    ensures a <= b ==> SLOWEST_MOON * (b - a) <= p.elongation(b) - p.elongation(a) <= FASTEST_MOON * (b - a)
    ensures b <= a ==> SLOWEST_MOON * (a - b) <= p.elongation(a) - p.elongation(b) <= FASTEST_MOON * (a - b)
  {
    assert Travelled(p, a, b) == -Travelled(p, b, a);
  }

  /** The reported speed is the rate of the elongation, which changes by at most one degree
      a day per day. */
  ghost predicate Smooth(p: Provider) {
    Orbits(p) && forall a, b :: Abs(TangentGap(p, a, b)) <= HalfSquare(b - a)
  }

  /** How far the elongation at b is from the straight line through a. */
  function TangentGap(p: Provider, a: real, b: real): real {
    p.elongation(b) - p.elongation(a) - p.speed(a) * (b - a)
  }

  function HalfSquare(days: real): real {
    0.5 * (days * days)
  }

  function ElongationAndSpeed(p: Provider, jd: real): Result<(real, real)> {
    if p.speed(jd) <= 0.0 then Err(CalculationError) else Ok((Norm360(p.elongation(jd)), p.speed(jd)))
  }

  /** Degrees by which the elongation at jd is past the k-th event of a target angle. */
  function Past(p: Provider, target: real, k: int, jd: real): real {
    p.elongation(jd) - target - Turn(k)
  }

  function EventTime(p: Provider, target: real, k: int): real {
    p.time(target + Turn(k))
  }

  /** Within half a cycle the wrapped difference is the true one. */
  lemma WrappedIsPast(p: Provider, target: real, k: int, jd: real)
    requires Abs(Past(p, target, k, jd)) < 180.0
    ensures Wrap180(Norm360(p.elongation(jd)) - target) == Past(p, target, k, jd)
  {
    Wrap180OfNorm(p.elongation(jd), target);
    Wrap180Is(p.elongation(jd) - target, k);
  }

  lemma Correction(e: real, v: real) returns (c: real)
    requires SLOWEST_MOON <= v <= FASTEST_MOON
    ensures c == e / v && v * c == e
    ensures e >= 0.0 ==> e / FASTEST_MOON <= c <= e / SLOWEST_MOON
    ensures e <= 0.0 ==> e / SLOWEST_MOON <= c <= e / FASTEST_MOON
  {
    c := e / v;
    assert v * c == e;
    if e >= 0.0 {
      assert c >= 0.0;
      assert SLOWEST_MOON * c <= v * c <= FASTEST_MOON * c;
    } else {
      assert c <= 0.0;
      assert SLOWEST_MOON * c >= v * c >= FASTEST_MOON * c;
    }
  }

  lemma SquareMonotone(x: real, y: real)
    requires 0.0 <= x <= y
    ensures x * x <= y * y
  {
    assert x * x <= x * y;
    assert x * y <= y * y;
  }

  lemma SquareOfAbs(x: real)
    ensures x * x == Abs(x) * Abs(x)
  {
  }

  /** The correction a step applies. */
  function Step(p: Provider, target: real, k: int, jd: real): real
    requires p.speed(jd) != 0.0
  {
    Past(p, target, k, jd) / p.speed(jd)
  }

  /** One Newton step shrinks the error to at most (14.5 - 10) / 10 of itself, so the search
      stays on its event. */
  lemma NewtonContracts(p: Provider, target: real, k: int, jd: real)
    requires Orbits(p)
    ensures SLOWEST_MOON <= p.speed(jd)
    ensures var e := Past(p, target, k, jd);
            var c := Step(p, target, k, jd);
            && Abs(c) <= Abs(e) / SLOWEST_MOON && Abs(e) <= FASTEST_MOON * Abs(c)
            && Abs(Past(p, target, k, jd - c)) <= 0.45 * Abs(e)
  {
    var e := Past(p, target, k, jd);
    assert SLOWEST_MOON <= p.speed(jd) <= FASTEST_MOON;
    var c := Correction(e, p.speed(jd));
    Rate(p, jd - c, jd);
  }

  /** On a smooth orbit the error also shrinks quadratically. */
  lemma NewtonSquares(p: Provider, target: real, k: int, jd: real)
    requires Smooth(p)
    ensures SLOWEST_MOON <= p.speed(jd)
    ensures var e := Past(p, target, k, jd);
            Abs(Past(p, target, k, jd - Step(p, target, k, jd))) <= 0.005 * (Abs(e) * Abs(e))
  {
    var e := Past(p, target, k, jd);
    var c := Step(p, target, k, jd);
    NewtonContracts(p, target, k, jd);
    assert Abs(TangentGap(p, jd, jd - c)) <= HalfSquare(jd - c - jd);
    assert p.speed(jd) * c == e;
    assert p.speed(jd) * (jd - c - jd) == -e;
    assert (jd - c - jd) * (jd - c - jd) == c * c;
    SquareMonotone(Abs(c), Abs(e) / 10.0);
    SquareOfAbs(c);
  }

  /** The error after i steps on a smooth orbit. */
  function ErrorBound(i: nat): real {
    if i == 0 then 180.0
    else if i == 1 then 81.0
    else if i == 2 then 33.0
    else if i == 3 then 5.5
    else if i == 4 then 0.16
    else if i == 5 then 0.00013
    else 0.0000000001
  }

  lemma ErrorShrinks(e: real, e2: real, i: nat)
    requires Abs(e) <= ErrorBound(i)
    requires Abs(e2) <= 0.45 * Abs(e) && Abs(e2) <= 0.005 * (Abs(e) * Abs(e))
    ensures Abs(e2) <= ErrorBound(i + 1)
  {
    SquareMonotone(Abs(e), ErrorBound(i));
  }

  lemma NearEvent(p: Provider, target: real, k: int, jd: real)
    requires Orbits(p)
    ensures Abs(jd - EventTime(p, target, k)) <= Abs(Past(p, target, k, jd)) / SLOWEST_MOON
  {
    var t := EventTime(p, target, k);
    assert p.elongation(t) == target + Turn(k);
    Rate(p, t, jd);
  }

  /** How close a refined event is to the true one, in days. */
  const EVENT_ACCURACY := 0.0000001

  /** The search starts within half a cycle of the k-th event. */
  ghost predicate StartsNear(p: Provider, target: real, k: int, jd: real) {
    Orbits(p) && Abs(Past(p, target, k, jd)) < 180.0
  }

  lemma OneIteration(p: Provider, target: real, k: int, jd: real, c: real)
    requires StartsNear(p, target, k, jd) && p.speed(jd) > 0.0 && c == Step(p, target, k, jd)
    ensures StartsNear(p, target, k, jd - c)
    ensures Abs(c) < 0.00000001 ==> Abs(Past(p, target, k, jd - c)) <= 0.000001
  {
    NewtonContracts(p, target, k, jd);
  }

  lemma OneSmoothIteration(p: Provider, target: real, k: int, jd: real, i: nat)
    requires Smooth(p) && p.speed(jd) > 0.0 && Abs(Past(p, target, k, jd)) <= ErrorBound(i)
    ensures Abs(Past(p, target, k, jd - Step(p, target, k, jd))) <= ErrorBound(i + 1)
  {
    var e, e2 := Past(p, target, k, jd), Past(p, target, k, jd - Step(p, target, k, jd));
    assert Abs(e2) <= 0.45 * Abs(e) by {
      NewtonContracts(p, target, k, jd);
    }
    assert Abs(e2) <= 0.005 * (Abs(e) * Abs(e)) by {
      NewtonSquares(p, target, k, jd);
    }
    ErrorShrinks(e, e2, i);
  }

  lemma SmallErrorSmallStep(p: Provider, target: real, k: int, jd: real)
    requires Orbits(p) && p.speed(jd) > 0.0 && Abs(Past(p, target, k, jd)) <= ErrorBound(6)
    ensures Abs(Step(p, target, k, jd)) < 0.00000001
  {
    NewtonContracts(p, target, k, jd);
  }

  lemma Accepted(p: Provider, target: real, k: int, jd: real)
    requires StartsNear(p, target, k, jd)
    ensures Wrap180(Norm360(p.elongation(jd)) - target) == Past(p, target, k, jd)
    ensures Abs(Past(p, target, k, jd)) <= 0.000001 ==> Abs(jd - EventTime(p, target, k)) <= EVENT_ACCURACY
    ensures p.speed(jd) > 0.0
  {
    WrappedIsPast(p, target, k, jd);
    NearEvent(p, target, k, jd);
  }

  /** The event index k only serves the specification: it is any event within half a cycle. */
  method RefinePhaseEvent(p: Provider, initialJd: real, target: real, ghost k: int) returns (r: Result<real>)
    // The search can only return that event ...
    ensures StartsNear(p, target, k, initialJd) && r.Ok? ==>
              && Abs(r.value - EventTime(p, target, k)) <= 0.0000001
              && Abs(Past(p, target, k, r.value)) <= 0.000001
    // ... and on a smooth orbit it always returns.
    ensures StartsNear(p, target, k, initialJd) && Smooth(p) ==> r.Ok?
    // What it returns is an event, from wherever it starts.
    ensures r.Ok? ==> Abs(Wrap180(Norm360(p.elongation(r.value)) - target)) <= 0.000001 && p.speed(r.value) > 0.0
    ensures r.Err? ==> r.error == CalculationError
  {
    ghost var near := StartsNear(p, target, k, initialJd);
    ghost var smooth := near && Smooth(p);
    var jd := initialJd;
    var converged := false;
    for i := 0 to 15
      invariant near ==> StartsNear(p, target, k, jd)
      invariant smooth ==> i <= 6 && Abs(Past(p, target, k, jd)) <= ErrorBound(i)
      invariant !converged
    {
      if near {
        Accepted(p, target, k, jd);
      }
      var es := ElongationAndSpeed(p, jd);
      if es.Err? {
        return Err(es.error);
      }
      var correctionDays := Wrap180(es.value.0 - target) / es.value.1;
      if near {
        assert correctionDays == Step(p, target, k, jd);
        OneIteration(p, target, k, jd, correctionDays);
        if smooth {
          OneSmoothIteration(p, target, k, jd, i);
          if i == 6 {
            SmallErrorSmallStep(p, target, k, jd);
          }
        }
      }
      jd := jd - correctionDays;
      if Abs(correctionDays) < 0.00000001 {
        converged := true;
        break;
      }
    }
    if !converged {
      return Err(CalculationError);
    }
    if near {
      Accepted(p, target, k, jd);
    }
    var residual := ElongationAndSpeed(p, jd);
    if residual.Err? {
      return Err(residual.error);
    }
    if Abs(Wrap180(residual.value.0 - target)) > 0.000001 {
      return Err(CalculationError);
    }
    r := Ok(jd);
  }

  // ---- the lunation around an instant ----

  const SYNODIC_MONTH := 29.530588
  const ONE_SECOND := 1.0 / 86400.0

  datatype Metrics = Metrics(previous: real, next: real, ageDays: real, lengthDays: real, progress: real)

  function NewMoon(p: Provider, n: int): real {
    EventTime(p, 0.0, n)
  }

  function Cycle(p: Provider, jd: real): int {
    (p.elongation(jd) / 360.0).Floor
  }

  /** n counts the new moons up to and including jd. */
  lemma NewMoonsAround(p: Provider, jd: real)
    requires Orbits(p)
    ensures NewMoon(p, Cycle(p, jd)) <= jd < NewMoon(p, Cycle(p, jd) + 1)
    ensures 24.0 <= NewMoon(p, Cycle(p, jd) + 1) - NewMoon(p, Cycle(p, jd)) <= 36.0
  {
    var n := Cycle(p, jd);
    var a, b := NewMoon(p, n), NewMoon(p, n + 1);
    assert p.elongation(a) == Turn(n) && p.elongation(b) == Turn(n + 1);
    assert Turn(n) <= p.elongation(jd) < Turn(n) + 360.0 == Turn(n + 1);
    Rate(p, a, jd);
    Rate(p, jd, b);
    Rate(p, a, b);
  }

  lemma PreviousGuess(p: Provider, jd: real)
    requires Orbits(p)
    ensures p.speed(jd) > 0.0
    ensures StartsNear(p, 0.0, Cycle(p, jd), jd - Norm360(p.elongation(jd)) / p.speed(jd))
  {
    assert p.speed(jd) >= SLOWEST_MOON;
    var c := Correction(Norm360(p.elongation(jd)), p.speed(jd));
    Rate(p, jd - c, jd);
  }

  function NextArc(elongation: real): real {
    if elongation > 0.000000001 then 360.0 - elongation else 360.0
  }

  lemma NextGuess(p: Provider, jd: real)
    requires Orbits(p)
    ensures p.speed(jd) > 0.0
    ensures StartsNear(p, 0.0, Cycle(p, jd) + 1, jd + NextArc(Norm360(p.elongation(jd))) / p.speed(jd))
  {
    assert p.speed(jd) >= SLOWEST_MOON;
    var c := Correction(NextArc(Norm360(p.elongation(jd))), p.speed(jd));
    Rate(p, jd, jd + c);
  }

  /** A synodic month after a refined new moon lies near the following one. */
  lemma RepairedGuess(p: Provider, n: int, jd: real)
    requires Orbits(p) && Abs(Past(p, 0.0, n, jd)) <= 0.000001
    ensures StartsNear(p, 0.0, n + 1, jd + SYNODIC_MONTH)
  {
    Rate(p, jd, jd + SYNODIC_MONTH);
  }

  lemma TwoCyclesTooLong(p: Provider, n: int)
    requires Orbits(p)
    ensures NewMoon(p, n + 2) - NewMoon(p, n) >= 48.0
  {
    var a, b := NewMoon(p, n), NewMoon(p, n + 2);
    assert p.elongation(b) - p.elongation(a) == 720.0;
    Rate(p, a, b);
  }

  /** The two events are the new moons that enclose the instant, and the derived figures fit. */
  ghost predicate Encloses(p: Provider, jd: real, m: Metrics) {
    var n := Cycle(p, jd);
    && Abs(m.previous - NewMoon(p, n)) <= 0.0000001
    && Abs(m.next - NewMoon(p, n + 1)) <= 0.0000001
    && m.lengthDays == m.next - m.previous
    && Abs(m.ageDays - (jd - NewMoon(p, n))) <= EVENT_ACCURACY
    && 0.0 <= m.progress <= 1.0
  }

  /** jd is the k-th new moon to within the accuracy of the search. */
  ghost predicate IsNewMoon(p: Provider, k: int, jd: real) {
    Abs(jd - NewMoon(p, k)) <= EVENT_ACCURACY && Abs(Past(p, 0.0, k, jd)) <= 0.000001
  }

  method RefineNewMoon(p: Provider, initialJd: real, ghost k: int) returns (r: Result<real>)
    ensures StartsNear(p, 0.0, k, initialJd) && r.Ok? ==> IsNewMoon(p, k, r.value)
    ensures StartsNear(p, 0.0, k, initialJd) && Smooth(p) ==> r.Ok?
    ensures r.Err? ==> r.error == CalculationError
  {
    r := RefinePhaseEvent(p, initialJd, 0.0, k);
  }

  /** Progress is the elapsed share of the lunation. */
  ghost predicate ProgressIsShare(m: Metrics) {
    IsShare(m.progress, m.ageDays, m.lengthDays)
  }

  ghost predicate IsShare(share: real, part: real, whole: real) {
    share * whole == part
  }

  method Progress(age: real, length: real) returns (progress: real)
    requires 0.0 <= age && 20.0 < length
    ensures 0.0 <= progress <= 1.0
    ensures age <= length ==> IsShare(progress, age, length)
  {
    assert age / length * length == age;
    progress := Min(1.0, Max(0.0, age / length));
  }

  /** Length, age and progress from the two events, with the physical bounds check. */
  method MetricsBetween(ghost p: Provider, previous: real, next: real, jd: real) returns (r: Result<Metrics>)
    // It accepts lengths of 20 to 40 days and ages up to a second beyond the length.
    ensures r.Ok? <==> 20.0 < next - previous < 40.0 && jd <= next + 1.0 / 86400.0
    ensures r.Err? ==> r.error == CalculationError
    ensures r.Ok? ==> r.value.previous == previous && r.value.next == next && r.value.lengthDays == next - previous
    ensures r.Ok? ==> r.value.ageDays == if jd < previous then 0.0 else jd - previous
    ensures r.Ok? && r.value.ageDays <= r.value.lengthDays ==> ProgressIsShare(r.value)
    ensures Orbits(p) && jd + ONE_SECOND < next
            && IsNewMoon(p, Cycle(p, jd), previous) && IsNewMoon(p, Cycle(p, jd) + 1, next) ==>
              r.Ok? && Encloses(p, jd, r.value)
    ensures Orbits(p) && IsNewMoon(p, Cycle(p, jd), previous) && IsNewMoon(p, Cycle(p, jd) + 2, next) ==> r.Err?
  {
    if Orbits(p) {
      NewMoonsAround(p, jd);
      TwoCyclesTooLong(p, Cycle(p, jd));
    }
    var length := next - previous;
    var age := Max(0.0, jd - previous);
    if !(20.0 < length < 40.0) || !(0.0 <= age <= length + ONE_SECOND) {
      return Err(CalculationError);
    }
    var progress := Progress(age, length);
    r := Ok(Metrics(previous, next, age, length, progress));
  }

  /** The call is made with the elongation and speed of its own instant. */
  ghost predicate Consistent(p: Provider, jd: real, elongationDeg: real, relativeSpeed: real) {
    Orbits(p) && elongationDeg == Norm360(p.elongation(jd)) && relativeSpeed == p.speed(jd)
  }

  method Guesses(ghost p: Provider, jd: real, elongationDeg: real, relativeSpeed: real)
    returns (previousGuess: real, nextGuess: real)
    requires relativeSpeed > 0.0
    ensures Consistent(p, jd, elongationDeg, relativeSpeed) ==>
              StartsNear(p, 0.0, Cycle(p, jd), previousGuess) && StartsNear(p, 0.0, Cycle(p, jd) + 1, nextGuess)
  {
    if Orbits(p) {
      PreviousGuess(p, jd);
      NextGuess(p, jd);
    }
    previousGuess := jd - elongationDeg / relativeSpeed;
    var nextArc := NextArc(elongationDeg);
    nextGuess := jd + nextArc / relativeSpeed;
  }

  method LunationMetrics(p: Provider, jd: real, elongationDeg: real, relativeSpeed: real)
    returns (r: Result<Metrics>)
    requires relativeSpeed > 0.0
    ensures r.Err? ==> r.error == CalculationError
    // What is returned are the two adjacent new moons around the instant.
    ensures Consistent(p, jd, elongationDeg, relativeSpeed) && r.Ok? ==>
              Encloses(p, jd, r.value) && jd + ONE_SECOND < r.value.next && ProgressIsShare(r.value)
    // In the last second before a new moon the repair overshoots by a whole cycle and the call raises ...
    ensures Consistent(p, jd, elongationDeg, relativeSpeed) ==>
              NewMoon(p, Cycle(p, jd) + 1) <= jd + ONE_SECOND - EVENT_ACCURACY ==> r.Err?
    // ... and before that second, on a smooth orbit, it returns.
    ensures Consistent(p, jd, elongationDeg, relativeSpeed) && Smooth(p) ==>
              NewMoon(p, Cycle(p, jd) + 1) > jd + ONE_SECOND + EVENT_ACCURACY ==> r.Ok?
  {
    ghost var n := Cycle(p, jd);
    ghost var given := Consistent(p, jd, elongationDeg, relativeSpeed);
    var previousGuess, nextGuess := Guesses(p, jd, elongationDeg, relativeSpeed);
    var previousResult := RefineNewMoon(p, previousGuess, n);
    if previousResult.Err? {
      return Err(previousResult.error);
    }
    var previous := previousResult.value;
    var nextResult := RefineNewMoon(p, nextGuess, n + 1);
    if nextResult.Err? {
      return Err(nextResult.error);
    }
    var nextEvent := nextResult.value;
    if given {
      NewMoonsAround(p, jd);
    }

    if previous > jd + ONE_SECOND {
      previousResult := RefineNewMoon(p, previous - SYNODIC_MONTH, n - 1);
      if previousResult.Err? {
        return Err(previousResult.error);
      }
      previous := previousResult.value;
    }
    if nextEvent <= jd + ONE_SECOND {
      if given {
        RepairedGuess(p, n + 1, nextEvent);
      }
      nextResult := RefineNewMoon(p, nextEvent + SYNODIC_MONTH, n + 2);
      if nextResult.Err? {
        return Err(nextResult.error);
      }
      nextEvent := nextResult.value;
    }
    r := MetricsBetween(p, previous, nextEvent, jd);
  }
}
