/** The solar-term search: bisection, scan, the chain of month boundaries and the
    24 terms of a window. */
module Jieqi {
  import opened Circle
  import opened Outcome
  import opened Ephemeris

  const SECONDS_PER_DAY := 86400.0

  /** The function whose root is searched. It climbs through 0 when the Sun passes the
      target and drops from 180 to -180 when the Sun passes the opposite point. */
  function Offset(b: Backend, target: real, jd: real): real {
    Wrap180(SunLonDegUt(b, jd) - target)
  }

  function Halved(width: real, n: nat): real {
    if n == 0 then width else Halved(width, n - 1) / 2.0
  }

  /** How far a bisection of a bracket of this width can end from the root. */
  function Accuracy(accuracySeconds: real, width: real, maxIter: nat): real {
    Max(accuracySeconds / SECONDS_PER_DAY / 2.0, Halved(width, maxIter + 1))
  }

  /** Half the tolerance, a day having 86400 seconds, or half of what is left after all halvings. */
  lemma AccuracyIs(accuracySeconds: real, width: real, maxIter: nat)
    ensures Accuracy(accuracySeconds, width, maxIter) >= accuracySeconds / 172800.0
    ensures Power(maxIter + 1) * Accuracy(accuracySeconds, width, maxIter) >= width
    ensures Accuracy(accuracySeconds, width, maxIter) == accuracySeconds / 172800.0
            || Power(maxIter + 1) * Accuracy(accuracySeconds, width, maxIter) == width
  {
    HalvedTimesPower(width, maxIter + 1);
    if accuracySeconds / 172800.0 > Halved(width, maxIter + 1) {
      PowerPositive(maxIter + 1);
      var p := Power(maxIter + 1);
      assert p * (accuracySeconds / 172800.0 - Halved(width, maxIter + 1)) >= 0.0;
    }
  }

  function Power(n: nat): real {
    if n == 0 then 1.0 else 2.0 * Power(n - 1)
  }

  lemma {:induction false} PowerPositive(n: nat)
    ensures Power(n) > 0.0
  {
    if n > 0 {
      PowerPositive(n - 1);
    }
  }

  lemma {:induction false} HalvedTimesPower(width: real, n: nat)
    ensures Power(n) * Halved(width, n) == width
  {
    if n > 0 {
      HalvedTimesPower(width, n - 1);
      var p, h := Power(n - 1), Halved(width, n - 1);
      assert 2.0 * p * (h / 2.0) == p * h;
    }
  }

  /** c is the one place in (lo, hi] where the sign changes: upwards through zero, or
      downwards across the jump. */
  ghost predicate Switches(b: Backend, target: real, lo: real, hi: real, c: real, upwards: bool) {
    && lo < c <= hi
    && forall x {:trigger Offset(b, target, x)} :: lo <= x <= hi ==>
         if upwards then
           (x < c ==> Offset(b, target, x) < 0.0)
           && (x == c ==> Offset(b, target, x) == 0.0)
           && (x > c ==> Offset(b, target, x) > 0.0)
         else
           (x < c ==> Offset(b, target, x) > 0.0) && (x >= c ==> Offset(b, target, x) < 0.0)
  }

  lemma ProductSign(x: real, y: real)
    ensures x < 0.0 ==> (x * y <= 0.0 <==> y >= 0.0)
    ensures x > 0.0 ==> (x * y <= 0.0 <==> y <= 0.0)
  {
    if x < 0.0 && y < 0.0 {
      assert (-x) * (-y) > 0.0;
    } else if x < 0.0 && y >= 0.0 {
      assert (-x) * y >= 0.0;
    } else if x > 0.0 && y > 0.0 {
      assert x * y > 0.0;
    } else if x > 0.0 && y <= 0.0 {
      assert x * (-y) >= 0.0;
    }
  }

  lemma HalvedNonNegative(width: real, n: nat)
    requires width >= 0.0
    ensures 0.0 <= Halved(width, n) <= width
  {
  }

  /** Where at most n halvings end that keep the place c of the change inside. */
  function Narrowed(lo: real, hi: real, c: real, tolDays: real, n: nat): real
    decreases n
  {
    var mid := 0.5 * (lo + hi);
    if n == 0 || Abs(hi - lo) <= tolDays then mid
    else if c <= mid then Narrowed(lo, mid, c, tolDays, n - 1)
    else Narrowed(mid, hi, c, tolDays, n - 1)
  }

  /** The result of a bisection is fixed by the bracket and the place of the change: a zero at
      the upper end is returned as it is. */
  function BisectionEnd(lo: real, hi: real, c: real, upwards: bool, accuracySeconds: real, maxIter: nat): real {
    if upwards && c == hi then hi else Narrowed(lo, hi, c, accuracySeconds / SECONDS_PER_DAY, maxIter)
  }

  ghost predicate SignBracket(b: Backend, target: real, lo: real, hi: real) {
    Offset(b, target, lo) * Offset(b, target, hi) <= 0.0
  }

  lemma HalfKeepsSign(b: Backend, target: real, lo: real, hi: real)
    requires SignBracket(b, target, lo, hi) && Offset(b, target, lo) != 0.0
    ensures var mid := 0.5 * (lo + hi);
            if Offset(b, target, lo) * Offset(b, target, mid) <= 0.0 then SignBracket(b, target, lo, mid)
            else SignBracket(b, target, mid, hi) && Offset(b, target, mid) != 0.0
  {
    var mid := 0.5 * (lo + hi);
    ProductSign(Offset(b, target, lo), Offset(b, target, mid));
    ProductSign(Offset(b, target, lo), Offset(b, target, hi));
    ProductSign(Offset(b, target, mid), Offset(b, target, hi));
  }

  /** If the bracket holds one change of sign, the result is that close to it. */
  ghost predicate ClosesIn(b: Backend, target: real, jdLo: real, jdHi: real, accuracySeconds: real, maxIter: nat,
                           r: Result<real>) {
    forall c, upwards :: Switches(b, target, jdLo, jdHi, c, upwards) ==>
      && r.Ok?
      && Abs(r.value - c) <= Accuracy(accuracySeconds, jdHi - jdLo, maxIter)
      && Abs(r.value - c) <= jdHi - jdLo
      && r.value == BisectionEnd(jdLo, jdHi, c, upwards, accuracySeconds, maxIter)
  }

  /** Every place of change of the whole bracket is still inside [lo, hi], with the same end of the
      remaining halvings. */
  ghost predicate Tracks(b: Backend, target: real, jdLo: real, jdHi: real, tolDays: real, maxIter: nat,
                         lo: real, hi: real, left: nat)
  {
    forall c, upwards :: Switches(b, target, jdLo, jdHi, c, upwards) ==>
      lo < c <= hi && Narrowed(jdLo, jdHi, c, tolDays, maxIter) == Narrowed(lo, hi, c, tolDays, left)
  }

  lemma TracksHalf(b: Backend, target: real, jdLo: real, jdHi: real, tolDays: real, maxIter: nat,
                   lo: real, hi: real, left: nat)
    requires Tracks(b, target, jdLo, jdHi, tolDays, maxIter, lo, hi, left)
    requires left > 0 && Abs(hi - lo) > tolDays && (jdLo <= jdHi ==> jdLo <= lo <= hi <= jdHi)
    ensures var mid := 0.5 * (lo + hi);
            if Offset(b, target, lo) * Offset(b, target, mid) <= 0.0
            then Tracks(b, target, jdLo, jdHi, tolDays, maxIter, lo, mid, left - 1)
            else Tracks(b, target, jdLo, jdHi, tolDays, maxIter, mid, hi, left - 1)
  {
    var mid := 0.5 * (lo + hi);
    ProductSign(Offset(b, target, lo), Offset(b, target, mid));
    forall c, upwards | Switches(b, target, jdLo, jdHi, c, upwards)
      ensures c <= mid <==> Offset(b, target, lo) * Offset(b, target, mid) <= 0.0
    {
    }
  }

  lemma {:induction false} HalvedHalf(width: real, n: nat)
    ensures Halved(width / 2.0, n) == Halved(width, n + 1)
  {
    if n > 0 {
      HalvedHalf(width, n - 1);
    }
  }

  lemma {:induction false} NarrowedNear(lo: real, hi: real, c: real, tolDays: real, n: nat)
    requires lo < c <= hi
    ensures lo < Narrowed(lo, hi, c, tolDays, n) < hi
    ensures Abs(Narrowed(lo, hi, c, tolDays, n) - c) <= Max(tolDays / 2.0, Halved(hi - lo, n + 1))
    decreases n
  {
    var mid := 0.5 * (lo + hi);
    HalvedNonNegative(hi - lo, n + 1);
    HalvedHalf(hi - lo, n);
    if n > 0 && Abs(hi - lo) > tolDays {
      if c <= mid {
        NarrowedNear(lo, mid, c, tolDays, n - 1);
      } else {
        NarrowedNear(mid, hi, c, tolDays, n - 1);
      }
    }
  }

  /** The two ends show whether there can be a change of sign between them. */
  lemma ClosedByEnds(b: Backend, target: real, jdLo: real, jdHi: real, accuracySeconds: real, maxIter: nat,
                     r: Result<real>)
    requires var flo, fhi := Offset(b, target, jdLo), Offset(b, target, jdHi);
             flo == 0.0 || (fhi == 0.0 && r == Ok(jdHi)) || flo * fhi > 0.0
    ensures ClosesIn(b, target, jdLo, jdHi, accuracySeconds, maxIter, r)
  {
    ProductSign(Offset(b, target, jdLo), Offset(b, target, jdHi));
    forall c, upwards | Switches(b, target, jdLo, jdHi, c, upwards)
      ensures upwards && c == jdHi && r == Ok(jdHi)
    {
    }
    if jdLo <= jdHi {
      HalvedNonNegative(jdHi - jdLo, maxIter + 1);
    }
  }

  /** Without a zero at the ends the middle of the last bracket is the end of the halvings. */
  lemma ClosedByHalving(b: Backend, target: real, jdLo: real, jdHi: real, accuracySeconds: real, maxIter: nat,
                        lo: real, hi: real, left: nat)
    requires Offset(b, target, jdHi) != 0.0
    requires Tracks(b, target, jdLo, jdHi, accuracySeconds / SECONDS_PER_DAY, maxIter, lo, hi, left)
    requires left == 0 || Abs(hi - lo) <= accuracySeconds / SECONDS_PER_DAY
    ensures ClosesIn(b, target, jdLo, jdHi, accuracySeconds, maxIter, Ok(0.5 * (lo + hi)))
  {
    forall c, upwards | Switches(b, target, jdLo, jdHi, c, upwards)
      ensures 0.5 * (lo + hi) == BisectionEnd(jdLo, jdHi, c, upwards, accuracySeconds, maxIter)
      ensures Abs(0.5 * (lo + hi) - c) <= Accuracy(accuracySeconds, jdHi - jdLo, maxIter)
      ensures Abs(0.5 * (lo + hi) - c) <= jdHi - jdLo
    {
      NarrowedNear(jdLo, jdHi, c, accuracySeconds / SECONDS_PER_DAY, maxIter);
    }
  }

  /** A time in the middle of a sign bracket inside the given one. */
  ghost predicate MiddleOfBracket(b: Backend, target: real, jdLo: real, jdHi: real, accuracySeconds: real,
                                  maxIter: nat, jd: real) {
    exists lo, hi :: IsMiddle(b, target, jdLo, jdHi, accuracySeconds, maxIter, jd, lo, hi)
  }

  ghost predicate IsMiddle(b: Backend, target: real, jdLo: real, jdHi: real, accuracySeconds: real, maxIter: nat,
                           jd: real, lo: real, hi: real)
  {
    var accuracy := Accuracy(accuracySeconds, jdHi - jdLo, maxIter);
    && jdLo <= lo <= jd <= hi <= jdHi
    && SignBracket(b, target, lo, hi)
    && hi - jd <= accuracy && jd - lo <= accuracy
  }

  lemma MiddleIsClose(b: Backend, target: real, jdLo: real, jdHi: real, accuracySeconds: real, maxIter: nat,
                      lo: real, hi: real, done: nat)
    requires jdLo <= lo <= hi <= jdHi && SignBracket(b, target, lo, hi) && done <= maxIter
    requires hi - lo == Halved(jdHi - jdLo, done)
    requires done == maxIter || Abs(hi - lo) <= accuracySeconds / SECONDS_PER_DAY
    ensures MiddleOfBracket(b, target, jdLo, jdHi, accuracySeconds, maxIter, 0.5 * (lo + hi))
  {
    assert Halved(jdHi - jdLo, maxIter + 1) == Halved(jdHi - jdLo, maxIter) / 2.0;
    HalvedNonNegative(jdHi - jdLo, maxIter);
    assert IsMiddle(b, target, jdLo, jdHi, accuracySeconds, maxIter, 0.5 * (lo + hi), lo, hi);
  }

  lemma EndIsClose(b: Backend, target: real, jdLo: real, jdHi: real, accuracySeconds: real, maxIter: nat, jd: real)
    requires jdLo <= jd <= jdHi && Offset(b, target, jd) == 0.0
    ensures MiddleOfBracket(b, target, jdLo, jdHi, accuracySeconds, maxIter, jd)
  {
    HalvedNonNegative(jdHi - jdLo, maxIter + 1);
    assert IsMiddle(b, target, jdLo, jdHi, accuracySeconds, maxIter, jd, jd, jd);
  }

  /** What holds after some halvings. */
  ghost predicate Halving(b: Backend, target: real, jdLo: real, jdHi: real, tolDays: real, maxIter: nat,
                          lo: real, hi: real, done: nat)
  {
    && done <= maxIter
    && Offset(b, target, lo) != 0.0 && SignBracket(b, target, lo, hi)
    && hi - lo == Halved(jdHi - jdLo, done)
    && (jdLo <= jdHi ==> jdLo <= lo <= hi <= jdHi)
    && Tracks(b, target, jdLo, jdHi, tolDays, maxIter, lo, hi, maxIter - done)
  }

  lemma HalvingStarts(b: Backend, target: real, jdLo: real, jdHi: real, tolDays: real, maxIter: nat)
    requires Offset(b, target, jdLo) != 0.0 && SignBracket(b, target, jdLo, jdHi)
    ensures Halving(b, target, jdLo, jdHi, tolDays, maxIter, jdLo, jdHi, 0)
  {
  }

  lemma HalvingLeft(b: Backend, target: real, jdLo: real, jdHi: real, tolDays: real, maxIter: nat,
                    lo: real, hi: real, mid: real, done: nat)
    requires Halving(b, target, jdLo, jdHi, tolDays, maxIter, lo, hi, done)
    requires done < maxIter && Abs(hi - lo) > tolDays && mid == 0.5 * (lo + hi)
    requires Offset(b, target, lo) * Offset(b, target, mid) <= 0.0
    ensures Halving(b, target, jdLo, jdHi, tolDays, maxIter, lo, mid, done + 1)
  {
    TracksHalf(b, target, jdLo, jdHi, tolDays, maxIter, lo, hi, maxIter - done);
  }

  lemma HalvingRight(b: Backend, target: real, jdLo: real, jdHi: real, tolDays: real, maxIter: nat,
                     lo: real, hi: real, mid: real, done: nat)
    requires Halving(b, target, jdLo, jdHi, tolDays, maxIter, lo, hi, done)
    requires done < maxIter && Abs(hi - lo) > tolDays && mid == 0.5 * (lo + hi)
    requires Offset(b, target, lo) * Offset(b, target, mid) > 0.0
    ensures Halving(b, target, jdLo, jdHi, tolDays, maxIter, mid, hi, done + 1)
  {
    TracksHalf(b, target, jdLo, jdHi, tolDays, maxIter, lo, hi, maxIter - done);
    HalfKeepsSign(b, target, lo, hi);
  }

  lemma HalvingEnds(b: Backend, target: real, jdLo: real, jdHi: real, accuracySeconds: real, maxIter: nat,
                    lo: real, hi: real, done: nat)
    requires Offset(b, target, jdHi) != 0.0
    requires Halving(b, target, jdLo, jdHi, accuracySeconds / SECONDS_PER_DAY, maxIter, lo, hi, done)
    requires done == maxIter || Abs(hi - lo) <= accuracySeconds / SECONDS_PER_DAY
    ensures ClosesIn(b, target, jdLo, jdHi, accuracySeconds, maxIter, Ok(0.5 * (lo + hi)))
    ensures jdLo <= jdHi ==> MiddleOfBracket(b, target, jdLo, jdHi, accuracySeconds, maxIter, 0.5 * (lo + hi))
  {
    ClosedByHalving(b, target, jdLo, jdHi, accuracySeconds, maxIter, lo, hi, maxIter - done);
    if jdLo <= jdHi {
      MiddleIsClose(b, target, jdLo, jdHi, accuracySeconds, maxIter, lo, hi, done);
    }
  }

  /** A zero at an end, or ends of one sign. */
  lemma SettledByEnds(b: Backend, target: real, jdLo: real, jdHi: real, accuracySeconds: real, maxIter: nat,
                      r: Result<real>)
    requires var flo, fhi := Offset(b, target, jdLo), Offset(b, target, jdHi);
             if flo == 0.0 then r == Ok(jdLo) else if fhi == 0.0 then r == Ok(jdHi) else r.Err? && flo * fhi > 0.0
    ensures ClosesIn(b, target, jdLo, jdHi, accuracySeconds, maxIter, r)
    ensures r.Ok? && jdLo <= jdHi ==> MiddleOfBracket(b, target, jdLo, jdHi, accuracySeconds, maxIter, r.value)
  {
    ClosedByEnds(b, target, jdLo, jdHi, accuracySeconds, maxIter, r);
    if r.Ok? && jdLo <= jdHi {
      EndIsClose(b, target, jdLo, jdHi, accuracySeconds, maxIter, r.value);
    }
  }

  method BisectionCrossing(b: Backend, target: real, jdLo: real, jdHi: real,
                           accuracySeconds: real, maxIter: nat := 80)
    returns (r: Result<real>)
    // It raises exactly when both end values are non-zero and of the same sign.
    ensures r.Err? <==> Offset(b, target, jdLo) * Offset(b, target, jdHi) > 0.0
    ensures r.Err? ==> r.error == NoBracket
    ensures r.Ok? && jdLo <= jdHi ==> MiddleOfBracket(b, target, jdLo, jdHi, accuracySeconds, maxIter, r.value)
    ensures ClosesIn(b, target, jdLo, jdHi, accuracySeconds, maxIter, r)
  {
    var flo := Offset(b, target, jdLo);
    var fhi := Offset(b, target, jdHi);
    if flo == 0.0 {
      SettledByEnds(b, target, jdLo, jdHi, accuracySeconds, maxIter, Ok(jdLo));
      return Ok(jdLo);
    }
    if fhi == 0.0 {
      SettledByEnds(b, target, jdLo, jdHi, accuracySeconds, maxIter, Ok(jdHi));
      return Ok(jdHi);
    }
    if flo * fhi > 0.0 {
      SettledByEnds(b, target, jdLo, jdHi, accuracySeconds, maxIter, Err(NoBracket));
      return Err(NoBracket);
    }
    var tolDays := accuracySeconds / SECONDS_PER_DAY;
    var lo, hi := jdLo, jdHi;
    HalvingStarts(b, target, jdLo, jdHi, tolDays, maxIter);
    for i := 0 to maxIter
      invariant flo == Offset(b, target, lo)
      invariant Halving(b, target, jdLo, jdHi, tolDays, maxIter, lo, hi, i)
    {
      var mid := 0.5 * (lo + hi);
      var fmid := Offset(b, target, mid);
      if Abs(hi - lo) <= tolDays {
        HalvingEnds(b, target, jdLo, jdHi, accuracySeconds, maxIter, lo, hi, i);
        return Ok(mid);
      }
      if flo * fmid <= 0.0 {
        HalvingLeft(b, target, jdLo, jdHi, tolDays, maxIter, lo, hi, mid, i);
        hi, fhi := mid, fmid;
      } else {
        HalvingRight(b, target, jdLo, jdHi, tolDays, maxIter, lo, hi, mid, i);
        lo, flo := mid, fmid;
      }
    }
    HalvingEnds(b, target, jdLo, jdHi, accuracySeconds, maxIter, lo, hi, maxIter);
    r := Ok(0.5 * (lo + hi));
  }

  /** The daily steps the scan makes. */
  function Steps(maxSpanDays: real): int {
    Trunc(maxSpanDays) + 1
  }

  /** They reach past the span by at most a day; a negative span of a day or more has none. */
  lemma StepsCoverSpan(maxSpanDays: real)
    ensures maxSpanDays >= 0.0 ==> maxSpanDays < Steps(maxSpanDays) as real <= maxSpanDays + 1.0
    ensures Steps(maxSpanDays) > 0 <==> maxSpanDays > -1.0
  {
    TruncTowardZero(maxSpanDays);
  }

  /** The longitude at which the scan sees its first change of sign: the target if it lies
      at most half a turn ahead, otherwise the point opposite to it. */
  function ScanStop(s: Sun, target: real, jd: real): real {
    var ahead := Ahead(s, target, jd);
    s.lon(jd) + if ahead <= 180.0 then ahead else ahead - 180.0
  }

  /** What the scan finds from a start time, were the span long enough. */
  function ScanEvent(s: Sun, target: real, jd: real): real {
    s.time(ScanStop(s, target, jd))
  }

  /** The last daily step strictly before an event. */
  function StepBefore(jdStart: real, event: real): real {
    jdStart + (-((jdStart - event).Floor) - 1) as real
  }

  /** What the scan returns for an event: the bisection of the day that leads to it. An upward
      event at a whole number of days is hit exactly. */
  function ScanEnd(jdStart: real, event: real, upwards: bool, accuracySeconds: real): real {
    var lo := StepBefore(jdStart, event);
    BisectionEnd(lo, lo + 1.0, event, upwards, accuracySeconds, 80)
  }

  lemma StepBeforeIs(jdStart: real, event: real, i: int)
    requires jdStart + i as real < event <= jdStart + i as real + 1.0
    ensures StepBefore(jdStart, event) == jdStart + i as real
  {
    assert (jdStart - event).Floor == -i - 1;
  }

  lemma ScanEndAtStart(jdStart: real, accuracySeconds: real)
    ensures ScanEnd(jdStart, jdStart, true, accuracySeconds) == jdStart
  {
    StepBeforeIs(jdStart, jdStart, -1);
  }

  /** The scan ends within the slack of its event, and before an event at a whole number of days
      that it passes downwards. */
  lemma ScanEndNear(jdStart: real, event: real, upwards: bool, accuracySeconds: real)
    ensures Abs(ScanEnd(jdStart, event, upwards, accuracySeconds) - event) <= Slack(accuracySeconds)
    ensures !upwards && event == StepBefore(jdStart, event) + 1.0 ==>
              ScanEnd(jdStart, event, upwards, accuracySeconds) < event
  {
    var lo := StepBefore(jdStart, event);
    HalvedNonNegative(1.0, 81);
    NarrowedNear(lo, lo + 1.0, event, accuracySeconds / SECONDS_PER_DAY, 80);
  }

  lemma ScanEventAfterStart(s: Sun, target: real, jd: real)
    requires Moves(s)
    ensures jd <= ScanEvent(s, target, jd)
    ensures s.lon(ScanEvent(s, target, jd)) == ScanStop(s, target, jd)
    ensures Ahead(s, target, jd) > 0.0 ==> jd < ScanEvent(s, target, jd)
    ensures Ahead(s, target, jd) == 0.0 ==> jd == ScanEvent(s, target, jd)
  {
    TimeInverts(s, jd);
    Reached(s, ScanStop(s, target, jd));
    TravelTime(s, s.lon(jd), ScanStop(s, target, jd));
  }

  /** The searched function between the start and one day after the event. */
  lemma OffsetNearEvent(b: Backend, target: real, jd: real, x: real)
    requires Moves(b.sun)
    requires jd <= x <= ScanEvent(b.sun, target, jd) + 1.0
    ensures var c := ScanEvent(b.sun, target, jd);
            var upwards := Ahead(b.sun, target, jd) <= 180.0;
            if upwards then
              (x < c ==> Offset(b, target, x) < 0.0)
              && (x == c ==> Offset(b, target, x) == 0.0)
              && (x > c ==> Offset(b, target, x) > 0.0)
            else
              (x < c ==> Offset(b, target, x) > 0.0) && (x >= c ==> Offset(b, target, x) < 0.0)
  {
    var s := b.sun;
    var c := ScanEvent(s, target, jd);
    ScanEventAfterStart(s, target, jd);
    Rate(s, jd, x);
    Rate(s, x, c);
    Wrap180OfNorm(s.lon(x), target);
    var turns := ((target - s.lon(jd)) / 360.0).Floor;
    var gone := s.lon(x) - s.lon(jd);
    assert s.lon(x) - target == gone - Ahead(s, target, jd) - Turn(turns);
    if Ahead(s, target, jd) <= 180.0 || c <= x {
      Wrap180Is(s.lon(x) - target, -turns);
    } else {
      Wrap180Is(s.lon(x) - target, -turns - 1);
    }
  }

  /** The Sun stands at one of the twelve month longitudes. */
  ghost predicate AtJie(s: Sun, first: real, jd: real) {
    exists j: int :: s.lon(jd) == MonthLongitude(first, j)
  }

  function MonthLongitude(first: real, j: int): real {
    first + 30.0 * j as real
  }

  /** How far a crossing found by the scan may be from the exact one. */
  function Slack(accuracySeconds: real): real {
    Min(1.0, Accuracy(accuracySeconds, 1.0, 80))
  }

  /** What the crossing search returns: the direct answer if there is one; otherwise the
      scan returns exactly when its event lies inside the span, and then accurately. */
  ghost predicate SearchResult(b: Backend, target: real, jdStart: real, accuracySeconds: real,
                               maxSpanDays: real, r: Result<real>)
  {
    var event := ScanEvent(b.sun, target, jdStart);
    match b.solcross(target, jdStart)
    case Some(jd) => r == Ok(jd)
    case None =>
      Moves(b.sun) ==>
        && (r.Ok? <==> Steps(maxSpanDays) > 0 && event <= jdStart + Steps(maxSpanDays) as real)
        && (r.Ok? ==> Abs(r.value - event) <= Slack(accuracySeconds))
        && (r.Ok? ==> r.value == ScanEnd(jdStart, event, Ahead(b.sun, target, jdStart) <= 180.0, accuracySeconds))
        && (r.Err? ==> r.error == CalculationError)
  }

  /** A day of the scan that begins before the event sees a change of sign exactly if it reaches the
      event. */
  lemma DayOfScan(b: Backend, target: real, jdStart: real, lo: real)
    requires Moves(b.sun) && jdStart <= lo <= ScanEvent(b.sun, target, jdStart)
    requires lo == ScanEvent(b.sun, target, jdStart) ==> Ahead(b.sun, target, jdStart) <= 180.0
    ensures Offset(b, target, lo) == 0.0 <==> lo == ScanEvent(b.sun, target, jdStart)
    ensures lo < ScanEvent(b.sun, target, jdStart) ==>
              (Offset(b, target, lo) * Offset(b, target, lo + 1.0) <= 0.0
               <==> ScanEvent(b.sun, target, jdStart) <= lo + 1.0)
  {
    OffsetNearEvent(b, target, jdStart, lo);
    if lo + 1.0 <= ScanEvent(b.sun, target, jdStart) + 1.0 {
      OffsetNearEvent(b, target, jdStart, lo + 1.0);
    }
    ProductSign(Offset(b, target, lo), Offset(b, target, lo + 1.0));
  }

  /** The day that reaches it holds that one change, and its bisection is the end of the scan. */
  lemma LastDayOfScan(b: Backend, target: real, jdStart: real, i: int, accuracySeconds: real)
    requires Moves(b.sun) && i >= 0
    requires jdStart + i as real < ScanEvent(b.sun, target, jdStart) <= jdStart + i as real + 1.0
    ensures var lo, event := jdStart + i as real, ScanEvent(b.sun, target, jdStart);
            var upwards := Ahead(b.sun, target, jdStart) <= 180.0;
            && Switches(b, target, lo, lo + 1.0, event, upwards)
            && ScanEnd(jdStart, event, upwards, accuracySeconds)
            == BisectionEnd(lo, lo + 1.0, event, upwards, accuracySeconds, 80)
  {
    var lo, event := jdStart + i as real, ScanEvent(b.sun, target, jdStart);
    var upwards := Ahead(b.sun, target, jdStart) <= 180.0;
    StepBeforeIs(jdStart, event, i);
    forall x | lo <= x <= lo + 1.0
      ensures if upwards then
          (x < event ==> Offset(b, target, x) < 0.0)
          && (x == event ==> Offset(b, target, x) == 0.0)
          && (x > event ==> Offset(b, target, x) > 0.0)
        else
          (x < event ==> Offset(b, target, x) > 0.0) && (x >= event ==> Offset(b, target, x) < 0.0)
    {
      OffsetNearEvent(b, target, jdStart, x);
    }
  }

  lemma FoundAtStart(b: Backend, target: real, jdStart: real, accuracySeconds: real, maxSpanDays: real)
    requires Moves(b.sun) && b.solcross(target, jdStart).None? && Steps(maxSpanDays) > 0
    requires jdStart == ScanEvent(b.sun, target, jdStart) && Ahead(b.sun, target, jdStart) <= 180.0
    ensures SearchResult(b, target, jdStart, accuracySeconds, maxSpanDays, Ok(jdStart))
  {
    ScanEndAtStart(jdStart, accuracySeconds);
    HalvedNonNegative(1.0, 81);
  }

  lemma FoundOnDay(b: Backend, target: real, jdStart: real, i: int, accuracySeconds: real, maxSpanDays: real,
                   r: Result<real>)
    requires Moves(b.sun) && b.solcross(target, jdStart).None? && 0 <= i < Steps(maxSpanDays)
    requires jdStart + i as real < ScanEvent(b.sun, target, jdStart) <= jdStart + i as real + 1.0
    requires ClosesIn(b, target, jdStart + i as real, jdStart + i as real + 1.0, accuracySeconds, 80, r)
    ensures SearchResult(b, target, jdStart, accuracySeconds, maxSpanDays, r)
  {
    LastDayOfScan(b, target, jdStart, i, accuracySeconds);
    ScanEndNear(jdStart, ScanEvent(b.sun, target, jdStart), Ahead(b.sun, target, jdStart) <= 180.0, accuracySeconds);
  }

  method FindCrossing(b: Backend, target: real, jdStart: real, accuracySeconds: real,
                      maxSpanDays: real := 40.0)
    returns (r: Result<real>)
    ensures SearchResult(b, target, jdStart, accuracySeconds, maxSpanDays, r)
  {
    var direct := b.solcross(target, jdStart);
    if direct.Some? {
      return Ok(direct.value);
    }
    ghost var event := ScanEvent(b.sun, target, jdStart);
    ghost var upwards := Ahead(b.sun, target, jdStart) <= 180.0;
    if Moves(b.sun) {
      ScanEventAfterStart(b.sun, target, jdStart);
    }

    var step := 1.0;
    var jdLo := jdStart;
    var fLo := Offset(b, target, jdLo);
    var jd := jdLo;
    for i := 0 to if Steps(maxSpanDays) > 0 then Steps(maxSpanDays) else 0
      invariant jd == jdLo == jdStart + i as real
      invariant fLo == Offset(b, target, jdLo)
      invariant Moves(b.sun) ==> jdLo < event || (jdLo == event && i == 0 && upwards)
    {
      var jdHi := jd + step;
      var fHi := Offset(b, target, jdHi);
      if Moves(b.sun) {
        DayOfScan(b, target, jdStart, jdLo);
      }
      if fLo == 0.0 {
        if Moves(b.sun) {
          FoundAtStart(b, target, jdStart, accuracySeconds, maxSpanDays);
        }
        return Ok(jdLo);
      }
      if fLo * fHi <= 0.0 {
        r := BisectionCrossing(b, target, jdLo, jdHi, accuracySeconds);
        if Moves(b.sun) {
          FoundOnDay(b, target, jdStart, i, accuracySeconds, maxSpanDays, r);
        }
        return;
      }
      jdLo, fLo := jdHi, fHi;
      jd := jdHi;
    }
    return Err(CalculationError);
  }

  /** The fallback search, when it returns, has found the next crossing of its target if and
      only if the target is at most half a turn ahead; otherwise the Sun then stands opposite
      to the target. */
  lemma ScanEventIsCrossing(s: Sun, target: real, jd: real)
    requires Moves(s)
    ensures ScanEvent(s, target, jd) == NextCrossing(s, target, jd) <==> Ahead(s, target, jd) <= 180.0
    ensures Ahead(s, target, jd) > 180.0 ==>
              && SameDirection(s.lon(ScanEvent(s, target, jd)), target + 180.0)
              && ScanEvent(s, target, jd) + 163.0 <= NextCrossing(s, target, jd)
  {
    var ahead := Ahead(s, target, jd);
    if ahead > 180.0 {
      Reached(s, s.lon(jd) + ahead - 180.0);
      TravelTime(s, s.lon(jd) + ahead - 180.0, s.lon(jd) + ahead);
      var turns := ((target - s.lon(jd)) / 360.0).Floor;
      assert s.lon(jd) + ahead - 180.0 == target + 180.0 + Turn(-turns - 1);
    }
  }

  const LICHUN := 315.0

  /** The k-th Jie after the one at unwrapped longitude `first`. */
  function Jie(s: Sun, first: real, k: int): real {
    s.time(first + 30.0 * k as real)
  }

  ghost predicate StartsAtLiChun(b: Backend, jd: real) {
    Honest(b) && SameDirection(b.sun.lon(jd), LICHUN)
  }

  /** From a little after one Jie, or up to a day around it, the next one is the next
      crossing, well within reach of the scan. */
  lemma NextJie(s: Sun, first: real, k: int, cursor: real)
    requires Moves(s) && SameDirection(first, LICHUN)
    requires Abs(cursor - Jie(s, first, k - 1)) <= 1.1
    ensures var target := Norm360(LICHUN + 30.0 * k as real);
            && NextCrossing(s, target, cursor) == ScanEvent(s, target, cursor) == Jie(s, first, k)
            && Jie(s, first, k) <= cursor + 36.0
  {
    var target := Norm360(LICHUN + 30.0 * k as real);
    var m: int :| first == LICHUN + Turn(m);
    var q := ((LICHUN + 30.0 * k as real) / 360.0).Floor;
    var before := Jie(s, first, k - 1);
    Reached(s, first + 30.0 * (k - 1) as real);
    Rate(s, before, cursor);
    assert Abs(s.lon(cursor) - s.lon(before)) <= 1.21;
    assert target - s.lon(cursor) == first + 30.0 * k as real - s.lon(cursor) - Turn(m + q);
    Mod360Is(target - s.lon(cursor), -m - q);
    assert s.lon(cursor) + Ahead(s, target, cursor) == first + 30.0 * k as real;
    TimeInverts(s, cursor);
    TravelTime(s, s.lon(cursor), first + 30.0 * k as real);
  }

  lemma SearchFindsNextJie(b: Backend, first: real, k: int, cursor: real, accuracySeconds: real, r: Result<real>)
    requires Honest(b) && SameDirection(first, LICHUN)
    requires Abs(cursor - Jie(b.sun, first, k - 1)) <= 1.1
    requires SearchResult(b, Norm360(LICHUN + 30.0 * k as real), cursor, accuracySeconds, 40.0, r)
    ensures r.Ok? && Abs(r.value - Jie(b.sun, first, k)) <= Slack(accuracySeconds)
    ensures Direct(b) ==> r.value == Jie(b.sun, first, k)
  {
    NextJie(b.sun, first, k, cursor);
    HalvedNonNegative(1.0, 81);
    assert Steps(40.0) == 41;
    assert b.solcross(Norm360(LICHUN + 30.0 * k as real), cursor).Some? || !Direct(b);
  }

  ghost predicate AreBoundaries(b: Backend, jdLiChun: real, accuracySeconds: real, bounds: seq<real>) {
    && |bounds| > 0 && bounds[0] == jdLiChun
    && (forall k :: 0 <= k < |bounds| ==>
          Abs(bounds[k] - Jie(b.sun, b.sun.lon(jdLiChun), k)) <= Slack(accuracySeconds))
    && (Direct(b) ==> forall k :: 0 <= k < |bounds| ==> bounds[k] == Jie(b.sun, b.sun.lon(jdLiChun), k))
  }

  lemma FirstBoundary(b: Backend, jdLiChun: real, accuracySeconds: real)
    requires Moves(b.sun)
    ensures AreBoundaries(b, jdLiChun, accuracySeconds, [jdLiChun])
  {
    HalvedNonNegative(1.0, 81);
    TimeInverts(b.sun, jdLiChun);
  }

  lemma NextBoundary(b: Backend, jdLiChun: real, accuracySeconds: real, bounds: seq<real>, r: Result<real>)
    requires StartsAtLiChun(b, jdLiChun) && AreBoundaries(b, jdLiChun, accuracySeconds, bounds)
    requires SearchResult(b, Norm360(LICHUN + 30.0 * |bounds| as real), bounds[|bounds| - 1] + 0.000001,
                          accuracySeconds, 40.0, r)
    ensures r.Ok? && AreBoundaries(b, jdLiChun, accuracySeconds, bounds + [r.value])
  {
    var k := |bounds|;
    var first := b.sun.lon(jdLiChun);
    SearchFindsNextJie(b, first, k, bounds[k - 1] + 0.000001, accuracySeconds, r);
    var longer := bounds + [r.value];
    forall j | 0 <= j < |longer|
      ensures Abs(longer[j] - Jie(b.sun, first, j)) <= Slack(accuracySeconds)
      ensures Direct(b) ==> longer[j] == Jie(b.sun, first, j)
    {
      assert j < k ==> longer[j] == bounds[j];
    }
  }

  method MonthBoundariesFromLiChun(b: Backend, jdLiChun: real, accuracySeconds: real)
    returns (r: Result<seq<real>>)
    ensures r.Ok? ==> |r.value| == 13
    ensures StartsAtLiChun(b, jdLiChun) ==>
              r.Ok? && |r.value| == 13 && AreBoundaries(b, jdLiChun, accuracySeconds, r.value)
  {
    if Moves(b.sun) {
      FirstBoundary(b, jdLiChun, accuracySeconds);
    }
    var bounds := [jdLiChun];
    var jdCursor := jdLiChun + 0.000001;
    for k := 1 to 13
      invariant |bounds| == k && jdCursor == bounds[k - 1] + 0.000001
      invariant StartsAtLiChun(b, jdLiChun) ==> AreBoundaries(b, jdLiChun, accuracySeconds, bounds)
    {
      var target := Norm360(LICHUN + 30.0 * k as real);
      var jdNext := FindCrossing(b, target, jdCursor, accuracySeconds);
      if StartsAtLiChun(b, jdLiChun) {
        NextBoundary(b, jdLiChun, accuracySeconds, bounds, jdNext);
      }
      if jdNext.Err? {
        return Err(jdNext.error);
      }
      bounds := bounds + [jdNext.value];
      jdCursor := jdNext.value + 0.000001;
    }
    r := Ok(bounds);
  }

  /** Boundaries that close to the exact crossings are strictly increasing, a month apart,
      and no crossing of a month longitude lies between two of them. */
  lemma MonthsAreSeparate(s: Sun, first: real, bounds: seq<real>, slack: real, k: nat)
    requires Moves(s) && |bounds| == 13 && k < 12 && 0.0 <= slack <= 1.0
    requires forall j :: 0 <= j <= 12 ==> Abs(bounds[j] - Jie(s, first, j)) <= slack
    ensures 27.0 - 2.0 * slack <= bounds[k + 1] - bounds[k] <= 33.4 + 2.0 * slack
    ensures forall t :: bounds[k] + slack < t < bounds[k + 1] - slack ==> !AtJie(s, first, t)
  {
    TravelTime(s, first + 30.0 * k as real, first + 30.0 * (k + 1) as real);
    assert Abs(bounds[k] - Jie(s, first, k)) <= slack;
    assert Abs(bounds[k + 1] - Jie(s, first, k + 1)) <= slack;
    forall t | bounds[k] + slack < t < bounds[k + 1] - slack
      ensures !AtJie(s, first, t)
    {
      Reached(s, first + 30.0 * k as real);
      Reached(s, first + 30.0 * (k + 1) as real);
      Rate(s, Jie(s, first, k), t);
      Rate(s, t, Jie(s, first, k + 1));
      assert s.lon(Jie(s, first, k)) < s.lon(t) < s.lon(Jie(s, first, k + 1));
    }
  }
}
