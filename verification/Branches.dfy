/** The twelve branches as segments of the circle, in the two coordinate conventions, and the
    distance to the nearest segment boundary. */
module Branches {
  import opened Circle

  /** The mapping's own wrap, which sends -180 to 180. */
  function Wrap180Up(x: real): (r: real)
    ensures -180.0 < r <= 180.0
  {
    var y := Norm360(x + 180.0) - 180.0;
    if y <= -180.0 then 180.0 else y
  }

  /** Absolute angular difference. */
  function DeltaDeg(a: real, b: real): real {
    Abs(Wrap180Up(a - b))
  }

  /** The mapping's wrap differs from the ephemeris' wrap only at the opposite point, and the
      difference built on it is the shortest way around the circle. */
  lemma DeltaIsShortestArc(a: real, b: real)
    ensures Wrap180Up(a - b) == if Wrap180(a - b) == -180.0 then 180.0 else Wrap180(a - b)
    ensures 0.0 <= DeltaDeg(a, b) <= 180.0
    ensures exists turns: int :: DeltaDeg(a, b) == Abs(a - b - Turn(turns))
    ensures forall turns: int {:trigger Turn(turns)} :: DeltaDeg(a, b) <= Abs(a - b - Turn(turns))
  {
    var k := ((a - b + 180.0) / 360.0).Floor;
    assert Wrap180(a - b) == a - b - Turn(k);
    forall turns: int {:trigger Turn(turns)} ensures DeltaDeg(a, b) <= Abs(a - b - Turn(turns)) {
      assert turns == k || turns >= k + 1 || turns <= k - 1;
    }
    assert DeltaDeg(a, b) == Abs(a - b - Turn(k));
  }

  function BranchOriginDeg(ziApex: real, width: real): real {
    Norm360(ziApex - width / 2.0)
  }

  function ShiftBoundaries(angle: real, ziApex: real, width: real): int
    requires width != 0.0
  {
    var b0 := BranchOriginDeg(ziApex, width);
    (Norm360(angle - b0) / width).Floor % 12
  }

  function ShiftLongitudes(angle: real, ziApex: real, width: real, offset: real): int
    requires width != 0.0
  {
    var b0 := BranchOriginDeg(ziApex, width);
    var angleApex := Norm360(angle - offset);
    var b0Apex := Norm360(b0 - offset);
    (Norm360(angleApex - b0Apex) / width).Floor % 12
  }

  function ShiftLongitudesMisused(angle: real, ziApex: real, width: real, offset: real): int
    requires width != 0.0
  {
    var b0 := BranchOriginDeg(ziApex, width);
    var angleApex := Norm360(angle - offset);
    (Norm360(angleApex - b0) / width).Floor % 12
  }

  function NearestBoundaryDistanceDeg(angle: real, ziApex: real, width: real): real
    requires width != 0.0
  {
    var b0 := BranchOriginDeg(ziApex, width);
    var pos := Norm360(angle - b0) / width;
    var frac := pos - pos.Floor as real;
    Min(frac, 1.0 - frac) * width
  }

  /** The angle lies in the direction of the k-th multiple of the width from the apex, off by d, and
      within the turn that begins half a width before the apex. */
  ghost predicate PlacedAt(angle: real, ziApex: real, width: real, k: int, d: real) {
    && SameDirection(angle, ziApex + k as real * width + d)
    && -width / 2.0 <= d < width / 2.0
    && 0.0 <= k as real * width + d + width / 2.0 < 360.0
  }

  /** The first branch is centred on the apex and the k-th k widths further on: an angle off such a
      centre by less than half a width has that branch, and its distance is that to the nearer edge. */
  lemma BranchIsCentred(angle: real, ziApex: real, width: real, k: int, d: real)
    requires width > 0.0 && PlacedAt(angle, ziApex, width, k, d)
    ensures ShiftBoundaries(angle, ziApex, width) == k % 12
    ensures NearestBoundaryDistanceDeg(angle, ziApex, width) == width / 2.0 - Abs(d)
  {
    var turns: int :| angle == ziApex + k as real * width + d + Turn(turns);
    var p := k as real * width + d + width / 2.0;
    OriginToAngle(angle, ziApex, width, p, turns);
    SegmentIs(p, width, k);
    SegmentBounds(p, width);
  }

  lemma OriginToAngle(angle: real, ziApex: real, width: real, p: real, turns: int)
    requires 0.0 <= p < 360.0 && angle == ziApex - width / 2.0 + p + Turn(turns)
    ensures Norm360(angle - BranchOriginDeg(ziApex, width)) == p
  {
    var n := ((ziApex - width / 2.0) / 360.0).Floor;
    assert angle - BranchOriginDeg(ziApex, width) == p + Turn(turns + n);
    Mod360Is(p + Turn(turns + n), turns + n);
  }

  /** And every angle lies in just one such place. */
  lemma EveryAngleIsPlaced(angle: real, ziApex: real, width: real) returns (k: int, d: real)
    requires width > 0.0
    ensures k >= 0 && PlacedAt(angle, ziApex, width, k, d)
    ensures forall l, e :: PlacedAt(angle, ziApex, width, l, e) ==> l == k && e == d
  {
    var b := ziApex - width / 2.0;
    var p := Norm360(angle - b);
    SegmentBounds(p, width);
    NonNegativeSegment(p, width);
    k := (p / width).Floor;
    d := p - k as real * width - width / 2.0;
    assert angle == ziApex + k as real * width + d + Turn(((angle - b) / 360.0).Floor);
    forall l, e | PlacedAt(angle, ziApex, width, l, e) ensures l == k && e == d {
      var turns: int :| angle == ziApex + l as real * width + e + Turn(turns);
      var q := l as real * width + e + width / 2.0;
      Mod360Is(angle - b, turns);
      assert q == p;
      SegmentIs(q, width, l);
    }
  }

  function HourBranchIndexFromTlst(tlstHours: real): int {
    var x := Mod24(tlstHours + 1.0);
    (x / 2.0).Floor % 12
  }

  /** Distance to the odd hours 1, 3, ..., 23 around the dial, in minutes. */
  function NearestHourBoundaryDistanceMinutes(tlstHours: real): real {
    var t := Mod24(tlstHours);
    var lower := ((t - 1.0) / 2.0).Floor * 2 + 1;
    var upper := lower + 2;
    var d := Min(CircularHours(t, (lower % 24) as real), CircularHours(t, (upper % 24) as real));
    d * 60.0
  }

  function CircularHours(a: real, b: real): real {
    var d := Mod24(Abs(a - b));
    Min(d, 24.0 - d)
  }

  lemma NormOfDifference(x: real, y: real, z: real)
    ensures Norm360(Norm360(x - z) - Norm360(y - z)) == Norm360(x - y)
  {
    var i, j := ((x - z) / 360.0).Floor, ((y - z) / 360.0).Floor;
    var k := ((x - y) / 360.0).Floor;
    Mod360Is(Norm360(x - z) - Norm360(y - z), k - i + j);
  }

  lemma NormOfShifted(x: real, y: real, z: real)
    ensures Norm360(Norm360(x - z) - y) == Norm360(x - y - z)
  {
    var i := ((x - z) / 360.0).Floor;
    var n := ((x - y - z) / 360.0).Floor;
    Mod360Is(Norm360(x - z) - y, n - i);
  }

  /** Shifting the boundaries and shifting the longitudes classify every angle alike. */
  lemma ConventionsAgree(angle: real, ziApex: real, width: real, offset: real)
    requires width != 0.0
    ensures ShiftLongitudes(angle, ziApex, width, offset) == ShiftBoundaries(angle, ziApex, width)
  {
    NormOfDifference(angle, BranchOriginDeg(ziApex, width), offset);
  }

  /** The mixed convention classifies the angle as if it were shifted by the offset. */
  lemma MixedIsShifted(angle: real, ziApex: real, width: real, offset: real)
    requires width != 0.0
    ensures ShiftLongitudesMisused(angle, ziApex, width, offset) == ShiftBoundaries(angle - offset, ziApex, width)
  {
    var b0 := BranchOriginDeg(ziApex, width);
    NormOfShifted(angle, b0, offset);
    assert angle - b0 - offset == angle - offset - b0;
  }

  /** An angle that tells a shift by phi degrees. */
  lemma ShiftShows(ziApex: real, offset: real, phi: real, turns: int) returns (angle: real)
    requires 0.0 < phi < 360.0 && offset == phi + Turn(turns)
    ensures ShiftBoundaries(angle - offset, ziApex, 30.0) != ShiftBoundaries(angle, ziApex, 30.0)
  {
    var b0 := BranchOriginDeg(ziApex, 30.0);
    angle := if phi <= 330.0 then b0 else b0 + phi;
    Mod360Is(angle - b0, 0);
    Mod360Is(angle - offset - b0, if phi <= 330.0 then -turns - 1 else -turns);
  }

  /** Mixing the conventions goes unnoticed at every angle only if the offset is whole turns. */
  lemma MixedConventionDetected(ziApex: real, offset: real)
    ensures (forall angle ::
               ShiftLongitudesMisused(angle, ziApex, 30.0, offset) == ShiftBoundaries(angle, ziApex, 30.0))
       <==> SameDirection(offset, 0.0)
  {
    var b0 := BranchOriginDeg(ziApex, 30.0);
    Norm360Canonical(offset, 0.0);
    Mod360Is(0.0, 0);
    var phi := Norm360(offset);
    var turns: int :| offset == phi + Turn(turns);
    if phi == 0.0 {
      forall angle ensures ShiftLongitudesMisused(angle, ziApex, 30.0, offset) == ShiftBoundaries(angle, ziApex, 30.0) {
        MixedIsShifted(angle, ziApex, 30.0, offset);
        Mod360Is(angle - offset - b0, ((angle - b0) / 360.0).Floor - turns);
      }
    } else {
      var angle := ShiftShows(ziApex, offset, phi, turns);
      MixedIsShifted(angle, ziApex, 30.0, offset);
    }
  }

  // ---- what the boundary distance promises ----

  /** Every perturbation smaller than the reported distance leaves the branch unchanged. */
  ghost predicate DistanceIsSafe(ziApex: real, width: real)
    requires width != 0.0
  {
    forall angle, delta :: StepIsSafe(angle, delta, ziApex, width)
  }

  ghost predicate StepIsSafe(angle: real, delta: real, ziApex: real, width: real)
    requires width != 0.0
  {
    Abs(delta) < NearestBoundaryDistanceDeg(angle, ziApex, width) ==>
      ShiftBoundaries(angle + delta, ziApex, width) == ShiftBoundaries(angle, ziApex, width)
  }

  lemma ScaledOrder(a: real, b: real, w: real)
    requires w > 0.0
    ensures a <= b <==> a * w <= b * w
  {
    if a <= b {
      assert (b - a) * w >= 0.0;
    } else {
      assert (a - b) * w > 0.0;
    }
  }

  lemma Quotient(p: real, w: real) returns (q: real)
    requires w > 0.0
    ensures q == p / w && q * w == p
  {
    q := p / w;
  }

  /** k <= q < k + 1 for the quotient q of p, as bounds on p; the smaller distance scales along. */
  lemma QuotientBounds(q: real, k: real, p: real, w: real)
    requires w > 0.0 && q * w == p
    ensures k <= q <==> k * w <= p
    ensures q < k + 1.0 <==> p < k * w + w
    ensures Min(q - k, 1.0 - (q - k)) * w == Min(p - k * w, k * w + w - p)
  {
    ScaledOrder(k, q, w);
    Successor(k, q, p, w);
    Distances(k, q, p, w);
  }

  lemma Successor(k: real, q: real, p: real, w: real)
    requires w > 0.0 && q * w == p
    ensures q < k + 1.0 <==> p < k * w + w
  {
    var next := Sum(k, w);
    ProductOrder(next, q, w, k * w + w, p);
  }

  lemma ProductOrder(a: real, b: real, w: real, aw: real, bw: real)
    requires w > 0.0 && a * w == aw && b * w == bw
    ensures a <= b <==> aw <= bw
  {
    ScaledOrder(a, b, w);
  }

  lemma Sum(k: real, w: real) returns (next: real)
    ensures next == k + 1.0 && next * w == k * w + w
  {
    next := k + 1.0;
  }

  lemma Distances(k: real, q: real, p: real, w: real)
    requires w > 0.0 && q * w == p
    ensures Min(q - k, 1.0 - (q - k)) * w == Min(p - k * w, k * w + w - p)
  {
    var frac := Difference(q, k, w);
    var rest := Complement(frac, w);
    ProductOrder(frac, rest, w, p - k * w, w - (p - k * w));
    ProductOrder(rest, frac, w, w - (p - k * w), p - k * w);
  }

  lemma Difference(q: real, k: real, w: real) returns (d: real)
    ensures d == q - k && d * w == q * w - k * w
  {
    d := q - k;
  }

  lemma Complement(frac: real, w: real) returns (rest: real)
    ensures rest == 1.0 - frac && rest * w == w - frac * w
  {
    rest := 1.0 - frac;
  }

  /** floor(p / w) as bounds on p. */
  lemma SegmentBounds(p: real, w: real)
    requires w > 0.0
    ensures var k := (p / w).Floor; k as real * w <= p < k as real * w + w
    ensures NearestEdge(p, w) == Min(p - (p / w).Floor as real * w, (p / w).Floor as real * w + w - p)
  {
    var q := Quotient(p, w);
    QuotientBounds(q, q.Floor as real, p, w);
  }

  lemma SegmentIs(p: real, w: real, k: int)
    requires w > 0.0 && k as real * w <= p < k as real * w + w
    ensures (p / w).Floor == k
  {
    var q := Quotient(p, w);
    QuotientBounds(q, k as real, p, w);
  }

  function NearestEdge(p: real, w: real): real
    requires w > 0.0
  {
    var frac := p / w - (p / w).Floor as real;
    Min(frac, 1.0 - frac) * w
  }

  /** The turn is a whole number of branches. */
  predicate WidthDividesTurn(w: real)
    requires w != 0.0
  {
    (360.0 / w).Floor as real * w == 360.0
  }

  lemma StepStaysInside(p: real, delta: real, edge: real, w: real)
    requires Abs(delta) < Min(p - edge, edge + w - p)
    ensures edge < p + delta < edge + w
  {
  }

  /** A small step past the seam starts in the last segment, which the seam cuts off. */
  lemma LastSegment(p: real, delta: real, w: real)
    requires w > 0.0 && 0.0 <= p < 360.0 <= p + delta && delta < NearestEdge(p, w)
    ensures (p / w).Floor == (360.0 / w).Floor && !WidthDividesTurn(w)
    ensures 0.0 <= p + delta - 360.0 < w && p + delta < 720.0
  {
    SegmentBounds(p, w);
    NonNegativeSegment(p, w);
    SegmentIs(360.0, w, (p / w).Floor);
  }

  lemma SafeWithinCircle(p: real, delta: real, w: real)
    requires w > 0.0 && 0.0 <= p < 360.0 && Abs(delta) < NearestEdge(p, w)
    requires WidthDividesTurn(w) || (360.0 / w).Floor % 12 == 0
    ensures (Norm360(p + delta) / w).Floor % 12 == (p / w).Floor % 12
  {
    SameSegment(p, delta, w);
    if p + delta < 360.0 {
      Mod360Is(p + delta, 0);
    } else {
      LastSegment(p, delta, w);
      Mod360Is(p + delta, 1);
      FirstSegment(p + delta - 360.0, w);
    }
  }

  lemma SameSegment(p: real, delta: real, w: real)
    requires w > 0.0 && p >= 0.0 && Abs(delta) < NearestEdge(p, w)
    ensures (p / w).Floor == ((p + delta) / w).Floor && p + delta >= 0.0
  {
    var k := (p / w).Floor;
    SegmentBounds(p, w);
    NonNegativeSegment(p, w);
    var edge := k as real * w;
    StepStaysInside(p, delta, edge, w);
    SegmentIs(p + delta, w, k);
  }

  lemma FirstSegment(p: real, w: real)
    requires 0.0 <= p < w
    ensures (p / w).Floor == 0
  {
    SegmentIs(p, w, 0);
  }

  lemma NonNegativeSegment(p: real, w: real)
    requires w > 0.0 && p >= 0.0
    ensures (p / w).Floor >= 0 && (p / w).Floor as real * w >= 0.0
  {
    assert p / w >= 0.0;
  }

  lemma StepToSeam(edge: real, w: real) returns (p: real, delta: real)
    requires edge < 360.0 < edge + w
    ensures edge < p < 360.0 && p + delta == 360.0
    ensures Abs(delta) < Min(p - edge, edge + w - p)
  {
    delta := (360.0 - edge) / 4.0;
    p := 360.0 - delta;
  }

  /** A place just before the seam from which a safe-looking step crosses it. */
  lemma UnsafeAtSeam(w: real) returns (p: real, delta: real)
    requires w > 0.0 && !WidthDividesTurn(w) && (360.0 / w).Floor % 12 != 0
    ensures 0.0 <= p < 360.0 && p + delta == 360.0
    ensures Abs(delta) < NearestEdge(p, w)
    ensures (p / w).Floor % 12 != 0
  {
    var n, edge := LastEdge(w);
    p, delta := StepToSeam(edge, w);
    SegmentIs(p, w, n);
    SegmentBounds(p, w);
  }

  /** The lower edge of the last segment. */
  lemma LastEdge(w: real) returns (n: int, edge: real)
    requires w > 0.0 && !WidthDividesTurn(w)
    ensures n == (360.0 / w).Floor && edge == n as real * w && 0.0 <= edge < 360.0 < edge + w
  {
    n := (360.0 / w).Floor;
    edge := n as real * w;
    SegmentBounds(360.0, w);
    NonNegativeSegment(360.0, w);
  }

  lemma ClassifiedByPosition(angle: real, delta: real, ziApex: real, width: real)
    requires width > 0.0
    ensures var p := Norm360(angle - BranchOriginDeg(ziApex, width));
            && NearestBoundaryDistanceDeg(angle, ziApex, width) == NearestEdge(p, width)
            && ShiftBoundaries(angle, ziApex, width) == (p / width).Floor % 12
            && ShiftBoundaries(angle + delta, ziApex, width) == (Norm360(p + delta) / width).Floor % 12
  {
    PositionOfSum(angle, delta, BranchOriginDeg(ziApex, width));
  }

  lemma WholeBranchesAreSafe(angle: real, delta: real, ziApex: real, width: real)
    requires width > 0.0 && (WidthDividesTurn(width) || (360.0 / width).Floor % 12 == 0)
    ensures StepIsSafe(angle, delta, ziApex, width)
  {
    ClassifiedByPosition(angle, delta, ziApex, width);
    if Abs(delta) < NearestBoundaryDistanceDeg(angle, ziApex, width) {
      SafeWithinCircle(Norm360(angle - BranchOriginDeg(ziApex, width)), delta, width);
    }
  }

  /** With a negative width no distance is positive, so every angle counts as unstable. */
  lemma NegativeWidth(angle: real, ziApex: real, width: real)
    requires width < 0.0
    ensures NearestBoundaryDistanceDeg(angle, ziApex, width) <= 0.0
  {
    var pos := Norm360(angle - BranchOriginDeg(ziApex, width)) / width;
    var frac := pos - pos.Floor as real;
    assert 0.0 <= Min(frac, 1.0 - frac);
    assert Min(frac, 1.0 - frac) * -width >= 0.0;
  }

  /** The reported distance is safe at every angle exactly when the turn is a whole number of
      branches, or the last, cut-off branch carries the index of the first, or the width is
      negative and no distance is positive. */
  lemma DistanceSafeIff(ziApex: real, width: real)
    requires width != 0.0
    ensures DistanceIsSafe(ziApex, width) <==>
              width < 0.0 || WidthDividesTurn(width) || (360.0 / width).Floor % 12 == 0
  {
    if width < 0.0 {
      forall angle, delta ensures StepIsSafe(angle, delta, ziApex, width) {
        NegativeWidth(angle, ziApex, width);
      }
    } else if WidthDividesTurn(width) || (360.0 / width).Floor % 12 == 0 {
      forall angle, delta ensures StepIsSafe(angle, delta, ziApex, width) {
        WholeBranchesAreSafe(angle, delta, ziApex, width);
      }
    } else {
      DistanceUnsafe(ziApex, width);
    }
  }

  lemma DistanceUnsafe(ziApex: real, width: real)
    requires width > 0.0 && !WidthDividesTurn(width) && (360.0 / width).Floor % 12 != 0
    ensures !DistanceIsSafe(ziApex, width)
  {
    var p, delta := UnsafeAtSeam(width);
    var angle := p + BranchOriginDeg(ziApex, width);
    assert angle - BranchOriginDeg(ziApex, width) == p;
    Mod360Is(p, 0);
    Mod360Is(p + delta, 1);
    ClassifiedByPosition(angle, delta, ziApex, width);
    SegmentIs(0.0, width, 0);
    assert !StepIsSafe(angle, delta, ziApex, width);
  }

  /** Eight branches of which the last has 10 degrees: one degree before the seam the reported
      distance is nine degrees, yet two degrees on the branch is another one. */
  lemma UnsafeWidthFifty()
    ensures var angle := 359.0 + BranchOriginDeg(270.0, 50.0);
            && NearestBoundaryDistanceDeg(angle, 270.0, 50.0) == 9.0
            && ShiftBoundaries(angle, 270.0, 50.0) == 7
            && ShiftBoundaries(angle + 2.0, 270.0, 50.0) == 0
  {
    var b0 := BranchOriginDeg(270.0, 50.0);
    Mod360Is(245.0, 0);
    assert b0 == 245.0;
    Mod360Is(359.0, 0);
    Mod360Is(361.0, 1);
    assert (359.0 / 50.0).Floor == 7 && (1.0 / 50.0).Floor == 0;
  }

  lemma PositionOfSum(angle: real, delta: real, b0: real)
    ensures Norm360(angle + delta - b0) == Norm360(Norm360(angle - b0) + delta)
  {
    var i := ((angle - b0) / 360.0).Floor;
    var k := ((angle + delta - b0) / 360.0).Floor;
    Mod360Is(Norm360(angle - b0) + delta, k - i);
  }

  /** With branches of 30 degrees the distance is also tight: steps arbitrarily little longer
      than it change the branch. */
  lemma DistanceIsTight(angle: real, ziApex: real, epsilon: real) returns (delta: real)
    requires epsilon > 0.0
    ensures Abs(delta) < NearestBoundaryDistanceDeg(angle, ziApex, 30.0) + epsilon
    ensures ShiftBoundaries(angle + delta, ziApex, 30.0) != ShiftBoundaries(angle, ziApex, 30.0)
  {
    var p := Norm360(angle - BranchOriginDeg(ziApex, 30.0));
    delta := StepOut(p, epsilon);
    ClassifiedByPosition(angle, delta, ziApex, 30.0);
  }

  /** A step out of the segment of p, to the nearer side. */
  lemma StepOut(p: real, epsilon: real) returns (delta: real)
    requires 0.0 <= p < 360.0 && epsilon > 0.0
    ensures Abs(delta) < NearestEdge(p, 30.0) + epsilon
    ensures (Norm360(p + delta) / 30.0).Floor % 12 != (p / 30.0).Floor % 12
  {
    var k := (p / 30.0).Floor;
    SegmentBounds(p, 30.0);
    var back, ahead := p - 30.0 * k as real, 30.0 * (k + 1) as real - p;
    if ahead <= back {
      delta := ahead;
      SegmentAfter(p + delta, k + 1);
    } else {
      delta := -back - Min(epsilon / 2.0, 1.0);
      SegmentAfter(p + delta, k - 1);
    }
  }

  lemma SegmentAfter(x: real, k: int)
    requires -1 <= k <= 12 && 30.0 * k as real <= x < 30.0 * (k + 1) as real
    ensures (Norm360(x) / 30.0).Floor % 12 == k % 12
  {
    var turn := if k < 0 then -1 else if k == 12 then 1 else 0;
    Mod360Is(x, turn);
    assert (Norm360(x) / 30.0).Floor == k - 12 * turn;
  }

  /** The hour-boundary distance is what it says on the dial, measured in minutes. */
  lemma HourDistance(tlstHours: real) returns (k: int)
    ensures var t := Mod24(tlstHours);
            && 0 <= k <= 12 && 2.0 * k as real <= t + 1.0 < 2.0 * (k + 1) as real
            && HourBranchIndexFromTlst(tlstHours) == k % 12
            && NearestHourBoundaryDistanceMinutes(tlstHours)
               == 60.0 * Min(t + 1.0 - 2.0 * k as real, 2.0 * (k + 1) as real - t - 1.0)
  {
    var t := Mod24(tlstHours);
    k := ((t + 1.0) / 2.0).Floor;
    assert ((t - 1.0) / 2.0).Floor == k - 1;
    HourBranchAt(tlstHours, k, (tlstHours / 24.0).Floor);
    CircularEdge(t, 2 * k - 1);
    CircularEdge(t, 2 * k + 1);
  }

  lemma CircularEdge(t: real, edge: int)
    requires 0.0 <= t < 24.0 && -1 <= edge <= 25 && edge as real - 2.0 <= t <= edge as real + 2.0
    ensures CircularHours(t, (edge % 24) as real) == Abs(t - edge as real)
  {
    Mod24Is(Abs(t - (edge % 24) as real), 0);
  }

  /** Any shift of fewer minutes than the reported distance keeps the hour branch, and shifts
      arbitrarily little longer change it. */
  lemma HourDistanceIsSafe(tlstHours: real, minutes: real)
    requires Abs(minutes) < NearestHourBoundaryDistanceMinutes(tlstHours)
    ensures HourBranchIndexFromTlst(tlstHours + minutes / 60.0) == HourBranchIndexFromTlst(tlstHours)
  {
    var k := HourDistance(tlstHours);
    HourBranchAt(tlstHours + minutes / 60.0, k, (tlstHours / 24.0).Floor);
  }

  lemma HourDistanceIsTight(tlstHours: real, epsilon: real) returns (minutes: real)
    requires epsilon > 0.0
    ensures Abs(minutes) < NearestHourBoundaryDistanceMinutes(tlstHours) + epsilon
    ensures HourBranchIndexFromTlst(tlstHours + minutes / 60.0) != HourBranchIndexFromTlst(tlstHours)
  {
    var k := HourDistance(tlstHours);
    var t := Mod24(tlstHours);
    var days := (tlstHours / 24.0).Floor;
    var back, ahead := t + 1.0 - 2.0 * k as real, 2.0 * (k + 1) as real - t - 1.0;
    if ahead <= back {
      minutes := 60.0 * ahead;
      HourBranchAt(tlstHours + ahead, k + 1, days);
    } else {
      minutes := -60.0 * back - Min(epsilon / 2.0, 1.0);
      HourBranchAt(tlstHours + minutes / 60.0, k - 1, days);
    }
  }

  /** The k-th two-hour stretch, counted from 23:00 before day `days`, has branch k mod 12. */
  lemma HourBranchAt(hours: real, k: int, days: int)
    requires -1 <= k <= 13
    requires 2.0 * k as real <= hours + 1.0 - 24.0 * days as real < 2.0 * (k + 1) as real
    ensures HourBranchIndexFromTlst(hours) == k % 12
  {
    var turn := if k < 0 then -1 else if k >= 12 then 1 else 0;
    Mod24Is(hours + 1.0, days + turn);
    assert (Mod24(hours + 1.0) / 2.0).Floor == k - 12 * turn;
  }
}
