/** Angles in degrees on exact reals: the wrap functions of the ephemeris and of
    the branch mapping, and the facts that identify their results. */
module Circle {

  function Abs(x: real): real {
    if x < 0.0 then -x else x
  }

  function Max(x: real, y: real): real {
    if x < y then y else x
  }

  function Min(x: real, y: real): real {
    if y < x then y else x
  }

  /** Python's int() on a float: truncation toward zero. */
  function Trunc(x: real): int {
    if x >= 0.0 then x.Floor else -((-x).Floor)
  }

  /** It drops the fraction and keeps the sign. */
  lemma TruncTowardZero(x: real)
    ensures x >= 0.0 ==> Trunc(x) as real <= x < Trunc(x) as real + 1.0
    ensures x <= 0.0 ==> Trunc(x) as real - 1.0 < x <= Trunc(x) as real
    ensures Trunc(-x) == -Trunc(x)
  {
  }

  /** Python's float remainder by 360, which takes the sign of the divisor. */
  function Mod360(x: real): (r: real)
    ensures 0.0 <= r < 360.0
  {
    x - 360.0 * (x / 360.0).Floor as real
  }

  /** Python's float remainder by 24. */
  function Mod24(x: real): (r: real)
    ensures 0.0 <= r < 24.0
  {
    x - 24.0 * (x / 24.0).Floor as real
  }

  function Norm360(deg: real): (r: real)
    ensures 0.0 <= r < 360.0
  {
    var x := Mod360(deg);
    if x < 0.0 then x + 360.0 else x
  }

  /** The ephemeris form: the result lies in [-180, 180). */
  function Wrap180(deg: real): (r: real)
    ensures -180.0 <= r < 180.0
  {
    Mod360(deg + 180.0) - 180.0
  }

  /** x and y name the same direction: they differ by whole turns. */
  ghost predicate SameDirection(x: real, y: real) {
    exists turns: int :: x == y + Turn(turns)
  }

  function Turn(turns: int): real {
    360.0 * turns as real
  }

  lemma Mod360Is(x: real, turns: int)
    requires 0.0 <= x - Turn(turns) < 360.0
    ensures Mod360(x) == Norm360(x) == x - Turn(turns)
  {
    assert (x / 360.0).Floor == turns;
  }

  lemma Mod24Is(x: real, days: int)
    requires 0.0 <= x - 24.0 * days as real < 24.0
    ensures Mod24(x) == x - 24.0 * days as real
  {
    assert (x / 24.0).Floor == days;
  }

  lemma Wrap180Is(x: real, turns: int)
    requires -180.0 <= x - Turn(turns) < 180.0
    ensures Wrap180(x) == x - Turn(turns)
  {
    Mod360Is(x + 180.0, turns);
  }

  /** Norm360 picks the one representative of a direction in [0, 360). */
  lemma Norm360Canonical(x: real, y: real)
    ensures SameDirection(x, Norm360(x))
    ensures SameDirection(x, y) <==> Norm360(x) == Norm360(y)
  {
    assert x == Norm360(x) + Turn((x / 360.0).Floor);
    assert y == Norm360(y) + Turn((y / 360.0).Floor);
    if SameDirection(x, y) {
      var turns: int :| x == y + Turn(turns);
      Mod360Is(x, (y / 360.0).Floor + turns);
    }
    if Norm360(x) == Norm360(y) {
      assert x == y + Turn((x / 360.0).Floor - (y / 360.0).Floor);
    }
  }

  /** Wrapping first does not change a difference of angles. */
  lemma Wrap180OfNorm(x: real, y: real)
    ensures Wrap180(Norm360(x) - y) == Wrap180(x - y)
  {
    var turns := (x / 360.0).Floor;
    var k := ((x - y + 180.0) / 360.0).Floor;
    Wrap180Is(x - y, k);
    Wrap180Is(Norm360(x) - y, k - turns);
  }

  /** Going forward from x, the first angle in the target direction is x + Norm360(target - x). */
  lemma ForwardArcIsLeast(x: real, y: real, target: real)
    requires x <= y
    ensures SameDirection(x + Norm360(target - x), target)
    ensures SameDirection(y, target) ==> x + Norm360(target - x) <= y
  {
    var turns := ((target - x) / 360.0).Floor;
    assert x + Norm360(target - x) == target + Turn(-turns);
    if SameDirection(y, target) {
      var k: int :| y == target + Turn(k);
      assert Turn(k + turns) == Turn(k) + Turn(turns);
      assert k + turns >= 0;
    }
  }
}
