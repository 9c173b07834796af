/** The Sun as the engine sees it. Its unwrapped ecliptic longitude is any function of
    Julian days that advances between 0.9 and 1.1 degrees a day; `time` is its inverse,
    which stands for the continuity of the motion. */
module Ephemeris {
  import opened Circle
  import opened Outcome

  const SLOWEST := 0.9
  const FASTEST := 1.1

  datatype Sun = Sun(lon: real -> real, time: real -> real)

  ghost predicate Moves(s: Sun) {
    && (forall a, b :: a <= b ==> SLOWEST * (b - a) <= Travelled(s, a, b) <= FASTEST * (b - a))
    && (forall x :: Inverse(s, x))
  }

  function Travelled(s: Sun, a: real, b: real): real {
    s.lon(b) - s.lon(a)
  }

  ghost predicate Inverse(s: Sun, x: real) {
    s.lon(s.time(x)) == x
  }

  lemma Rate(s: Sun, a: real, b: real)
    requires Moves(s)
    ensures a <= b ==> SLOWEST * (b - a) <= s.lon(b) - s.lon(a) <= FASTEST * (b - a)
    ensures b <= a ==> SLOWEST * (a - b) <= s.lon(a) - s.lon(b) <= FASTEST * (a - b)
  {
    assert Travelled(s, a, b) == -Travelled(s, b, a);
  }

  lemma Reached(s: Sun, x: real)
    requires Moves(s)
    ensures s.lon(s.time(x)) == x
  {
    assert Inverse(s, x);
  }

  /** A backend reports wrapped longitudes; its direct crossing search may be missing. */
  datatype Backend = Backend(sun: Sun, solcross: (real, real) -> Option<real>)

  function SunLonDegUt(b: Backend, jd: real): real {
    Norm360(b.sun.lon(jd))
  }

  /** Degrees the Sun has still to travel from jd to the target direction. */
  function Ahead(s: Sun, target: real, jd: real): real {
    Norm360(target - s.lon(jd))
  }

  function NextCrossing(s: Sun, target: real, jd: real): real {
    s.time(s.lon(jd) + Ahead(s, target, jd))
  }

  /** Whenever the direct search answers, it answers with the first crossing. */
  ghost predicate Honest(b: Backend) {
    && Moves(b.sun)
    && forall target, jd {:trigger b.solcross(target, jd)} ::
         b.solcross(target, jd).Some? ==> b.solcross(target, jd).value == NextCrossing(b.sun, target, jd)
  }

  ghost predicate Direct(b: Backend) {
    Honest(b) && forall target, jd {:trigger b.solcross(target, jd)} :: b.solcross(target, jd).Some?
  }

  ghost predicate Fallback(b: Backend) {
    Honest(b) && forall target, jd {:trigger b.solcross(target, jd)} :: b.solcross(target, jd).None?
  }

  lemma TimeInverts(s: Sun, jd: real)
    requires Moves(s)
    ensures s.time(s.lon(jd)) == jd
  {
    Reached(s, s.lon(jd));
    Rate(s, s.time(s.lon(jd)), jd);
  }

  /** Travelling takes between arc/1.1 and arc/0.9 days. */
  lemma TravelTime(s: Sun, x: real, y: real)
    requires Moves(s) && x <= y
    ensures (y - x) / FASTEST <= s.time(y) - s.time(x) <= (y - x) / SLOWEST
  {
    Reached(s, x);
    Reached(s, y);
    Rate(s, s.time(x), s.time(y));
  }

  /** NextCrossing is what its name says: the first time at or after jd at which the
      Sun stands in the target direction. */
  lemma NextCrossingIsFirst(s: Sun, target: real, jd: real)
    requires Moves(s)
    ensures jd <= NextCrossing(s, target, jd)
    ensures SameDirection(s.lon(NextCrossing(s, target, jd)), target)
    ensures forall t :: jd <= t < NextCrossing(s, target, jd) ==> !SameDirection(s.lon(t), target)
  {
    var c := NextCrossing(s, target, jd);
    TimeInverts(s, jd);
    TravelTime(s, s.lon(jd), s.lon(jd) + Ahead(s, target, jd));
    Reached(s, s.lon(jd) + Ahead(s, target, jd));
    ForwardArcIsLeast(s.lon(jd), s.lon(c), target);
    forall t | jd <= t < c ensures !SameDirection(s.lon(t), target) {
      Rate(s, jd, t);
      Rate(s, t, c);
      ForwardArcIsLeast(s.lon(jd), s.lon(t), target);
    }
  }
}
