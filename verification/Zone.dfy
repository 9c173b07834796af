/** A time zone as a list of offset changes, with the fold rule of PEP 495, and the exact
    classification of wall times by their number of UTC preimages. */
module Zone {
  datatype Transition = Transition(at: int, offset: int)

  datatype Zone = Zone(initial: int, transitions: seq<Transition>)

  datatype Fold = First | Second

  /** The offset in force after the first k transitions. */
  function OffsetAfter(z: Zone, k: nat): int
    requires k <= |z.transitions|
  {
    if k == 0 then z.initial else z.transitions[k - 1].offset
  }

  /** Wall time skipped or repeated by transition j: [WindowStart, WindowEnd). */
  function WindowStart(z: Zone, j: nat): int
    requires j < |z.transitions|
  {
    z.transitions[j].at + if OffsetAfter(z, j) < OffsetAfter(z, j + 1) then OffsetAfter(z, j) else OffsetAfter(z, j + 1)
  }

  function WindowEnd(z: Zone, j: nat): int
    requires j < |z.transitions|
  {
    z.transitions[j].at + if OffsetAfter(z, j) < OffsetAfter(z, j + 1) then OffsetAfter(z, j + 1) else OffsetAfter(z, j)
  }

  /** bisect.bisect_right on a sorted list */
  function BisectRight(marks: seq<int>, x: int): (k: nat)
    ensures k <= |marks|
  {
    if marks == [] then 0
    else if marks[|marks| - 1] <= x then |marks|
    else BisectRight(marks[..|marks| - 1], x)
  }

  function UtcMarks(z: Zone): seq<int> {
    seq(|z.transitions|, j requires 0 <= j < |z.transitions| => z.transitions[j].at)
  }

  /** A wall time with fold 0 keeps the old offset through the window, with fold 1 it
      takes the new one at once. */
  function WallMarks(z: Zone, fold: Fold): seq<int> {
    seq(|z.transitions|, j requires 0 <= j < |z.transitions| =>
      if fold == First then WindowEnd(z, j) else WindowStart(z, j))
  }

  /** datetime.utcoffset() of a wall time */
  function UtcOffset(z: Zone, wall: int, fold: Fold): int {
    OffsetAfter(z, BisectRight(WallMarks(z, fold), wall))
  }

  function ToUtc(z: Zone, wall: int, fold: Fold): int {
    wall - UtcOffset(z, wall, fold)
  }

  /** datetime.astimezone() from UTC */
  function ToLocal(z: Zone, utc: int): int {
    utc + OffsetAfter(z, BisectRight(UtcMarks(z), utc))
  }

  /** Transitions are in order, and each window ends at least `pause` before the next starts. */
  ghost predicate Separated(z: Zone, pause: int) {
    && (forall i, j {:trigger z.transitions[i], z.transitions[j]} ::
          0 <= i < j < |z.transitions| ==> z.transitions[i].at <= z.transitions[j].at)
    && (forall i, j {:trigger WindowEnd(z, i), WindowStart(z, j)} ::
          0 <= i < j < |z.transitions| ==> WindowEnd(z, i) + pause <= WindowStart(z, j))
  }

  ghost predicate Sorted(marks: seq<int>) {
    forall i, j :: 0 <= i < j < |marks| ==> marks[i] <= marks[j]
  }

  lemma {:induction false} BisectIs(marks: seq<int>, x: int, k: nat)
    requires Sorted(marks) && k <= |marks|
    ensures BisectRight(marks, x) == k <==> (k == 0 || marks[k - 1] <= x) && (k == |marks| || x < marks[k])
  {
    if marks != [] {
      var front := marks[..|marks| - 1];
      if marks[|marks| - 1] <= x {
      } else if k < |marks| {
        BisectIs(front, x, k);
      }
    }
  }

  ghost predicate IsPreimage(z: Zone, wall: int, utc: int) {
    ToLocal(z, utc) == wall
  }

  /** The readings of a wall time in the segments up to the k-th. */
  ghost function ReadingsUpTo(z: Zone, wall: int, k: nat): set<int>
    requires k <= |z.transitions|
  {
    (if k == 0 then {} else ReadingsUpTo(z, wall, k - 1))
    + if IsPreimage(z, wall, wall - OffsetAfter(z, k)) then {wall - OffsetAfter(z, k)} else {}
  }

  /** All instants that read as the given wall time. */
  ghost function Preimages(z: Zone, wall: int): set<int> {
    ReadingsUpTo(z, wall, |z.transitions|)
  }

  lemma {:induction false} ReadingsComplete(z: Zone, wall: int, utc: int, k: nat)
    requires k <= |z.transitions|
    ensures utc in ReadingsUpTo(z, wall, k) ==> ToLocal(z, utc) == wall
    ensures ToLocal(z, utc) == wall && BisectRight(UtcMarks(z), utc) <= k ==> utc in ReadingsUpTo(z, wall, k)
  {
    if k > 0 {
      ReadingsComplete(z, wall, utc, k - 1);
    }
  }

  lemma PreimagesComplete(z: Zone, wall: int, utc: int)
    ensures utc in Preimages(z, wall) <==> ToLocal(z, utc) == wall
  {
    ReadingsComplete(z, wall, utc, |z.transitions|);
  }

  ghost predicate InWindow(z: Zone, wall: int, j: nat) {
    j < |z.transitions| && WindowStart(z, j) <= wall < WindowEnd(z, j)
  }

  ghost predicate InGap(z: Zone, wall: int, j: nat) {
    InWindow(z, wall, j) && OffsetAfter(z, j) < OffsetAfter(z, j + 1)
  }

  lemma MarksSorted(z: Zone, fold: Fold)
    requires Separated(z, 0)
    ensures Sorted(UtcMarks(z)) && Sorted(WallMarks(z, fold))
  {
    forall i, j | 0 <= i < j < |z.transitions|
      ensures WindowEnd(z, i) <= WindowEnd(z, j) && WindowStart(z, i) <= WindowStart(z, j)
    {
      assert WindowEnd(z, i) <= WindowStart(z, j);
    }
  }

  /** An instant of segment k reads as a wall time between the window starts around it. */
  lemma PreimageSegment(z: Zone, wall: int, utc: int, k: nat)
    requires Separated(z, 0) && ToLocal(z, utc) == wall && k == BisectRight(UtcMarks(z), utc)
    ensures forall j :: 0 <= j < k ==> WindowStart(z, j) <= wall
    ensures forall j :: k <= j < |z.transitions| ==> wall < WindowEnd(z, j)
  {
    MarksSorted(z, First);
    BisectIs(UtcMarks(z), utc, k);
    if k > 0 {
      assert UtcMarks(z)[k - 1] == z.transitions[k - 1].at;
      assert WindowStart(z, k - 1) <= wall;
      forall j | 0 <= j < k ensures WindowStart(z, j) <= wall {
        assert j < k - 1 ==> WindowEnd(z, j) <= WindowStart(z, k - 1);
      }
    }
    if k < |z.transitions| {
      assert wall < WindowEnd(z, k);
      forall j | k <= j < |z.transitions| ensures wall < WindowEnd(z, j) {
        assert k < j ==> WindowEnd(z, k) <= WindowStart(z, j);
      }
    }
  }

  /** The wall time lies after the windows of the first k transitions and before all others. */
  ghost predicate Between(z: Zone, wall: int, k: nat) {
    && k <= |z.transitions|
    && (forall j :: 0 <= j < k ==> WindowEnd(z, j) <= wall)
    && (forall j :: k <= j < |z.transitions| ==> wall < WindowStart(z, j))
  }

  lemma BetweenFolds(z: Zone, wall: int, k: nat)
    requires Separated(z, 0) && Between(z, wall, k)
    ensures BisectRight(WallMarks(z, First), wall) == BisectRight(WallMarks(z, Second), wall) == k
    ensures BisectRight(UtcMarks(z), wall - OffsetAfter(z, k)) == k
  {
    MarkedBetween(z, wall, k, First);
    MarkedBetween(z, wall, k, Second);
    MarksSorted(z, First);
    if k > 0 {
      assert WindowEnd(z, k - 1) <= wall;
    }
    if k < |z.transitions| {
      assert wall < WindowStart(z, k);
    }
    BisectIs(UtcMarks(z), wall - OffsetAfter(z, k), k);
  }

  lemma MarkedBetween(z: Zone, wall: int, k: nat, fold: Fold)
    requires Separated(z, 0) && Between(z, wall, k)
    ensures BisectRight(WallMarks(z, fold), wall) == k
  {
    MarksSorted(z, fold);
    if k > 0 {
      assert WindowEnd(z, k - 1) <= wall;
    }
    if k < |z.transitions| {
      assert wall < WindowStart(z, k);
    }
    BisectIs(WallMarks(z, fold), wall, k);
  }

  lemma OutsideIsBetween(z: Zone, wall: int)
    requires Separated(z, 0) && forall j: nat :: !InWindow(z, wall, j)
    ensures Between(z, wall, BisectRight(WallMarks(z, First), wall))
  {
    MarksSorted(z, First);
    var marks := WallMarks(z, First);
    var k := BisectRight(marks, wall);
    BisectIs(marks, wall, k);
    forall j | 0 <= j < k ensures WindowEnd(z, j) <= wall {
      assert marks[j] <= marks[k - 1];
    }
    forall j | k <= j < |z.transitions| ensures wall < WindowStart(z, j) {
      assert marks[k] <= marks[j];
      assert !InWindow(z, wall, j);
    }
  }

  /** Outside all windows a wall time has exactly one reading, whatever the fold. */
  lemma OutsideWindows(z: Zone, wall: int)
    requires Separated(z, 0) && forall j: nat :: !InWindow(z, wall, j)
    ensures UtcOffset(z, wall, First) == UtcOffset(z, wall, Second)
    ensures Preimages(z, wall) == {ToUtc(z, wall, First)}
  {
    OutsideIsBetween(z, wall);
    var k := BisectRight(WallMarks(z, First), wall);
    BetweenFolds(z, wall, k);
    PreimagesComplete(z, wall, ToUtc(z, wall, First));
    forall u | u in Preimages(z, wall) ensures u == ToUtc(z, wall, First) {
      PreimagesComplete(z, wall, u);
      BetweenPreimage(z, wall, k, u);
    }
  }

  lemma BetweenPreimage(z: Zone, wall: int, k: nat, utc: int)
    requires Separated(z, 0) && Between(z, wall, k) && ToLocal(z, utc) == wall
    ensures utc == wall - OffsetAfter(z, k)
  {
    var n := BisectRight(UtcMarks(z), utc);
    PreimageSegment(z, wall, utc, n);
    if n < |z.transitions| {
      assert wall < WindowEnd(z, n);
    }
    if k < |z.transitions| {
      assert wall < WindowStart(z, k);
    }
    assert n == k;
  }

  lemma WindowsApart(z: Zone, i: nat, j: nat)
    requires Separated(z, 0) && i < |z.transitions| && j < |z.transitions|
    ensures i < j ==> WindowEnd(z, i) <= WindowStart(z, j)
    ensures j < i ==> WindowEnd(z, j) <= WindowStart(z, i)
  {
  }

  lemma WindowFolds(z: Zone, wall: int, j: nat)
    requires Separated(z, 0) && InWindow(z, wall, j)
    ensures UtcOffset(z, wall, First) == OffsetAfter(z, j)
    ensures UtcOffset(z, wall, Second) == OffsetAfter(z, j + 1)
    ensures forall i: nat :: InWindow(z, wall, i) ==> i == j
  {
    MarksSorted(z, First);
    MarksSorted(z, Second);
    if j > 0 {
      WindowsApart(z, j - 1, j);
    }
    if j + 1 < |z.transitions| {
      WindowsApart(z, j, j + 1);
    }
    BisectIs(WallMarks(z, First), wall, j);
    BisectIs(WallMarks(z, Second), wall, j + 1);
    forall i: nat | InWindow(z, wall, i) ensures i == j {
      WindowsApart(z, i, j);
    }
  }

  /** A reading of a wall time inside window j lies in one of the two segments around it. */
  lemma WindowPreimage(z: Zone, wall: int, j: nat, utc: int)
    requires Separated(z, 0) && InWindow(z, wall, j) && ToLocal(z, utc) == wall
    ensures !InGap(z, wall, j)
    ensures utc == wall - OffsetAfter(z, j) || utc == wall - OffsetAfter(z, j + 1)
  {
    var n := BisectRight(UtcMarks(z), utc);
    PreimageSegment(z, wall, utc, n);
    MarksSorted(z, First);
    BisectIs(UtcMarks(z), utc, n);
    if n < |z.transitions| {
      WindowsApart(z, n, j);
    }
    if n > 0 {
      WindowsApart(z, j, n - 1);
    }
    assert n == j || n == j + 1;
    if n == j {
      assert utc < z.transitions[j].at;
    } else {
      assert z.transitions[j].at <= utc;
    }
  }

  lemma WindowEdges(z: Zone, wall: int, j: nat)
    requires Separated(z, 0) && InWindow(z, wall, j) && !InGap(z, wall, j)
    ensures ToLocal(z, wall - OffsetAfter(z, j)) == wall
    ensures ToLocal(z, wall - OffsetAfter(z, j + 1)) == wall
  {
    MarksSorted(z, First);
    var early, late := wall - OffsetAfter(z, j), wall - OffsetAfter(z, j + 1);
    if j > 0 {
      WindowsApart(z, j - 1, j);
    }
    if j + 1 < |z.transitions| {
      WindowsApart(z, j, j + 1);
    }
    BisectIs(UtcMarks(z), early, j);
    BisectIs(UtcMarks(z), late, j + 1);
  }

  /** Inside a window both or none of the two offsets give a reading. */
  lemma InsideWindow(z: Zone, wall: int, j: nat)
    requires Separated(z, 0) && InWindow(z, wall, j)
    ensures InGap(z, wall, j) ==> Preimages(z, wall) == {}
    ensures !InGap(z, wall, j) ==>
              Preimages(z, wall) == {wall - OffsetAfter(z, j), wall - OffsetAfter(z, j + 1)}
  {
    var early, late := wall - OffsetAfter(z, j), wall - OffsetAfter(z, j + 1);
    forall u | u in Preimages(z, wall) ensures !InGap(z, wall, j) && (u == early || u == late) {
      PreimagesComplete(z, wall, u);
      WindowPreimage(z, wall, j, u);
    }
    if !InGap(z, wall, j) {
      WindowEdges(z, wall, j);
      PreimagesComplete(z, wall, early);
      PreimagesComplete(z, wall, late);
    }
  }

  // ---- the order of wall readings ----

  ghost predicate InOverlap(z: Zone, wall: int, j: nat) {
    InWindow(z, wall, j) && OffsetAfter(z, j + 1) < OffsetAfter(z, j)
  }

  /** Two instants on both sides of an overlap's transition, both read inside that overlap. */
  ghost predicate AcrossOverlap(z: Zone, early: int, late: int, j: nat) {
    && InOverlap(z, ToLocal(z, early), j) && InOverlap(z, ToLocal(z, late), j)
    && early < z.transitions[j].at <= late
  }

  /** Wall readings follow the instants, except across an overlap. */
  lemma ReadingsReversed(z: Zone, early: int, late: int) returns (j: nat)
    requires Separated(z, 0) && early < late && ToLocal(z, late) <= ToLocal(z, early)
    ensures AcrossOverlap(z, early, late, j)
  {
    j := BisectRight(UtcMarks(z), early);
    OneTransition(z, early, late, j, BisectRight(UtcMarks(z), late));
  }

  lemma SegmentsInOrder(z: Zone, early: int, late: int, m: nat, n: nat)
    requires Separated(z, 0) && early < late
    requires m == BisectRight(UtcMarks(z), early) && n == BisectRight(UtcMarks(z), late)
    ensures m <= n
    ensures m < n ==> early < z.transitions[m].at <= z.transitions[n - 1].at <= late
  {
    MarksSorted(z, First);
    var marks := UtcMarks(z);
    BisectIs(marks, early, m);
    BisectIs(marks, late, n);
    if m < n {
      assert marks[m] == z.transitions[m].at && marks[n - 1] == z.transitions[n - 1].at;
      assert marks[m] <= marks[n - 1];
    }
  }

  lemma OneTransition(z: Zone, early: int, late: int, m: nat, n: nat)
    requires Separated(z, 0) && early < late && ToLocal(z, late) <= ToLocal(z, early)
    requires m == BisectRight(UtcMarks(z), early) && n == BisectRight(UtcMarks(z), late)
    ensures AcrossOverlap(z, early, late, m)
  {
    SegmentsInOrder(z, early, late, m, n);
    PreimageSegment(z, ToLocal(z, early), early, m);
    PreimageSegment(z, ToLocal(z, late), late, n);
    assert m < n;
    if m < n - 1 {
      WindowsApart(z, m, n - 1);
    }
  }
}
