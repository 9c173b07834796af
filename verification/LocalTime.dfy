/** The engine's resolvers of local wall times. */
module LocalTime {
  import opened Outcome
  import opened Clock
  import opened Zone

  datatype AmbiguousChoice = ChooseEarlier | ChooseLater
  datatype NonexistentPolicy = RaiseError | ShiftForward
  datatype Status = IsOk | IsAmbiguous | IsShifted

  datatype Resolution = Resolution(wall: int, fold: Fold, status: Status, adjustedMinutes: int)

  const SHIFT_FORWARD_MAX_MINUTES := 48 * 60

  function RoundtripOk(z: Zone, wall: int, fold: Fold): bool {
    ToLocal(z, ToUtc(z, wall, fold)) == wall
  }

  predicate Nonexistent(z: Zone, wall: int) {
    !RoundtripOk(z, wall, First) && !RoundtripOk(z, wall, Second)
  }

  predicate Ambiguous(z: Zone, wall: int) {
    && RoundtripOk(z, wall, First) && RoundtripOk(z, wall, Second)
    && UtcOffset(z, wall, First) != UtcOffset(z, wall, Second)
  }

  function Instant(z: Zone, r: Resolution): int {
    ToUtc(z, r.wall, r.fold)
  }

  /** The round-trip tests count readings: none, one or two. Both folds pass or both fail, and
      the folds of an ambiguous time are its earlier and its later reading. */
  lemma ClassificationIsExact(z: Zone, wall: int)
    requires Separated(z, 0)
    ensures RoundtripOk(z, wall, First) <==> RoundtripOk(z, wall, Second)
    ensures Nonexistent(z, wall) <==> Preimages(z, wall) == {}
    ensures Ambiguous(z, wall) <==> |Preimages(z, wall)| == 2
    ensures |Preimages(z, wall)| <= 2
    ensures Preimages(z, wall) != {} ==> Preimages(z, wall) == {ToUtc(z, wall, First), ToUtc(z, wall, Second)}
    ensures Ambiguous(z, wall) ==> ToUtc(z, wall, First) < ToUtc(z, wall, Second)
  {
    PreimagesComplete(z, wall, ToUtc(z, wall, First));
    PreimagesComplete(z, wall, ToUtc(z, wall, Second));
    if j: nat :| InWindow(z, wall, j) {
      WindowFolds(z, wall, j);
      InsideWindow(z, wall, j);
    } else {
      OutsideWindows(z, wall);
    }
  }

  /** Inside an overlap a wall time is ambiguous. */
  lemma OverlapIsAmbiguous(z: Zone, wall: int, j: nat)
    requires Separated(z, 0) && InOverlap(z, wall, j)
    ensures Ambiguous(z, wall)
  {
    InsideWindow(z, wall, j);
    ClassificationIsExact(z, wall);
  }

  /** m whole minutes lead from a nonexistent wall time to the first one that exists. */
  ghost predicate LeastShift(z: Zone, wall: int, m: int) {
    && 1 <= m
    && !Nonexistent(z, wall + m * MINUTE)
    && forall n :: 1 <= n < m ==> Nonexistent(z, Shifted(wall, n))
  }

  function Shifted(wall: int, minutes: int): int {
    wall + minutes * MINUTE
  }

  lemma LeastShiftIsUnique(z: Zone, wall: int, m: int, n: int)
    requires LeastShift(z, wall, m) && LeastShift(z, wall, n)
    ensures m == n
  {
    assert !Nonexistent(z, Shifted(wall, m)) && !Nonexistent(z, Shifted(wall, n));
  }

  method ResolveLocalIso(z: Zone, naive: int, ambiguous: AmbiguousChoice := ChooseEarlier,
                         nonexistent: NonexistentPolicy := RaiseError)
    returns (r: Result<Resolution>)
    ensures !Nonexistent(z, naive) ==>
              r == Ok(Resolution(naive, if ambiguous == ChooseEarlier then First else Second,
                                 if Ambiguous(z, naive) then IsAmbiguous else IsOk, 0))
    ensures Nonexistent(z, naive) && nonexistent == RaiseError ==> r == Err(LocalTimeError)
    ensures Nonexistent(z, naive) && nonexistent == ShiftForward ==>
              match r
              case Ok(x) =>
                && LeastShift(z, naive, x.adjustedMinutes) && x.adjustedMinutes <= 2880
                && x == Resolution(Shifted(naive, x.adjustedMinutes), First, IsShifted, x.adjustedMinutes)
              case Err(e) =>
                && e == LocalTimeError
                && forall n :: 1 <= n <= 2880 ==> Nonexistent(z, Shifted(naive, n))
  {
    var ok0 := RoundtripOk(z, naive, First);
    var ok1 := RoundtripOk(z, naive, Second);
    var isAmbiguous := ok0 && ok1 && UtcOffset(z, naive, First) != UtcOffset(z, naive, Second);
    var isNonexistent := !ok0 && !ok1;
    var chosenFold := if ambiguous == ChooseEarlier then First else Second;
    if isNonexistent {
      if nonexistent == RaiseError {
        return Err(LocalTimeError);
      }
      for minutes := 1 to SHIFT_FORWARD_MAX_MINUTES + 1
        invariant forall n :: 1 <= n < minutes ==> Nonexistent(z, Shifted(naive, n))
      {
        var candidate := Shifted(naive, minutes);
        if RoundtripOk(z, candidate, First) || RoundtripOk(z, candidate, Second) {
          return Ok(Resolution(candidate, First, IsShifted, minutes));
        }
      }
      return Err(LocalTimeError);
    }
    r := Ok(Resolution(naive, chosenFold, if isAmbiguous then IsAmbiguous else IsOk, 0));
  }

  /** Where a wall time exists, the choice picks the least or the greatest of its readings. */
  lemma ChoiceIsExtreme(z: Zone, wall: int, fold: Fold, utc: int)
    requires Separated(z, 0) && utc in Preimages(z, wall)
    ensures ToUtc(z, wall, fold) in Preimages(z, wall)
    ensures ToUtc(z, wall, First) <= utc <= ToUtc(z, wall, Second)
  {
    ClassificationIsExact(z, wall);
    if !Ambiguous(z, wall) {
      assert UtcOffset(z, wall, First) == UtcOffset(z, wall, Second);
    }
  }

  /** Minutes from inside window j to the first whole minute at or past its end. */
  function MinutesToEnd(z: Zone, wall: int, j: nat): int
    requires j < |z.transitions|
  {
    (WindowEnd(z, j) - wall + MINUTE - 1) / MINUTE
  }

  lemma StillInGap(z: Zone, wall: int, j: nat, later: int)
    requires Separated(z, 0) && InGap(z, wall, j) && wall <= later < WindowEnd(z, j)
    ensures Nonexistent(z, later)
  {
    ClassificationIsExact(z, later);
    InsideWindow(z, later, j);
  }

  /** A wall time in the pause before or after window j is in no window. */
  lemma InPause(z: Zone, j: nat, wall: int, pause: int, i: nat)
    requires pause >= 0 && Separated(z, pause) && j < |z.transitions|
    requires WindowStart(z, j) - pause <= wall < WindowStart(z, j)
             || WindowEnd(z, j) <= wall < WindowEnd(z, j) + pause
    ensures !InWindow(z, wall, i)
  {
    if i < |z.transitions| && i != j {
      assert i < j ==> WindowEnd(z, i) + pause <= WindowStart(z, j);
      assert j < i ==> WindowEnd(z, j) + pause <= WindowStart(z, i);
    }
  }

  lemma PlainTime(z: Zone, wall: int)
    requires Separated(z, 0) && forall i: nat :: !InWindow(z, wall, i)
    ensures !Nonexistent(z, wall) && !Ambiguous(z, wall)
  {
    OutsideWindows(z, wall);
    ClassificationIsExact(z, wall);
  }

  lemma PastGap(z: Zone, j: nat, later: int, pause: int)
    requires pause >= 0 && Separated(z, pause) && j < |z.transitions|
    requires WindowEnd(z, j) <= later < WindowEnd(z, j) + pause
    ensures !Nonexistent(z, later) && !Ambiguous(z, later)
  {
    SeparatedIsMonotone(z, pause);
    forall i: nat ensures !InWindow(z, later, i) {
      InPause(z, j, later, pause, i);
    }
    PlainTime(z, later);
  }

  lemma BeforeGap(z: Zone, j: nat, earlier: int, pause: int)
    requires pause >= 0 && Separated(z, pause) && j < |z.transitions|
    requires WindowStart(z, j) - pause <= earlier < WindowStart(z, j)
    ensures !Nonexistent(z, earlier) && !Ambiguous(z, earlier)
  {
    SeparatedIsMonotone(z, pause);
    forall i: nat ensures !InWindow(z, earlier, i) {
      InPause(z, j, earlier, pause, i);
    }
    PlainTime(z, earlier);
  }

  lemma SeparatedIsMonotone(z: Zone, pause: int)
    requires pause >= 0 && Separated(z, pause)
    ensures Separated(z, 0)
  {
    forall i, j {:trigger WindowEnd(z, i), WindowStart(z, j)} | 0 <= i < j < |z.transitions|
      ensures WindowEnd(z, i) <= WindowStart(z, j)
    {
      assert WindowEnd(z, i) + pause <= WindowStart(z, j);
    }
  }

  /** Spring-gap repair: in a gap of at most 48 hours, with windows at least a minute apart, the
      least shift is the number of minutes to the end of the gap, it is within the search bound,
      and the shifted time exists once, so resolving it again changes nothing. */
  lemma GapRepair(z: Zone, wall: int, j: nat)
    requires Separated(z, MINUTE) && InGap(z, wall, j)
    requires WindowEnd(z, j) - WindowStart(z, j) <= 48 * HOUR
    ensures Nonexistent(z, wall)
    ensures var m := MinutesToEnd(z, wall, j);
            && 1 <= m <= 2880
            && !Nonexistent(z, Shifted(wall, m)) && !Ambiguous(z, Shifted(wall, m))
            && LeastShift(z, wall, m)
  {
    SeparatedIsMonotone(z, MINUTE);
    StillInGap(z, wall, j, wall);
    ShiftPastGap(wall, WindowEnd(z, j), MinutesToEnd(z, wall, j));
    PastGap(z, j, Shifted(wall, MinutesToEnd(z, wall, j)), MINUTE);
    forall n | 1 <= n < MinutesToEnd(z, wall, j) ensures Nonexistent(z, Shifted(wall, n)) {
      StillInGap(z, wall, j, Shifted(wall, n));
    }
  }

  lemma ShiftPastGap(wall: int, end: int, minutes: int)
    requires wall < end <= wall + 48 * HOUR && minutes == (end - wall + MINUTE - 1) / MINUTE
    ensures 1 <= minutes <= 2880
    ensures end <= Shifted(wall, minutes) < end + MINUTE
    ensures forall n :: 1 <= n < minutes ==> wall <= Shifted(wall, n) < end
  {
  }

  /** parse_local_iso: in strict mode the given fold must round-trip. */
  function ParseLocalIso(z: Zone, naive: int, strict: bool, fold: Fold): Result<(int, Fold)> {
    if strict && !RoundtripOk(z, naive, fold) then Err(LocalTimeError) else Ok((naive, fold))
  }

  /** Handing a resolved time on as a bare wall time with the policy's fold is accepted by strict
      parsing, and keeps the instant except for one case: a time shifted onto an ambiguous one, which
      the resolver reads as the earlier instant, is read as the later one under the later policy. */
  lemma ReparsingKeepsInstant(z: Zone, naive: int, ambiguous: AmbiguousChoice, x: Resolution)
    requires Separated(z, 0)
    requires !Nonexistent(z, x.wall)
    requires if Nonexistent(z, naive) then x.fold == First
             else x.wall == naive && x.fold == (if ambiguous == ChooseEarlier then First else Second)
    ensures var fold := if ambiguous == ChooseEarlier then First else Second;
            && ParseLocalIso(z, x.wall, true, fold) == Ok((x.wall, fold))
            && (ToUtc(z, x.wall, fold) == Instant(z, x)
                <==> !(Nonexistent(z, naive) && Ambiguous(z, x.wall) && ambiguous == ChooseLater))
            && Instant(z, x) <= ToUtc(z, x.wall, fold)
  {
    ClassificationIsExact(z, x.wall);
  }

  /** A zone that reaches the exception: an hour is skipped and the next one repeated. Half past the
      skipped hour is shifted to the start of the repeated one; read again under the later policy, that
      is an hour later. */
  method GapBeforeOverlap() returns (x: Resolution)
    ensures var z := Zone(0, [Transition(0, HOUR), Transition(HOUR, 0)]);
            && Nonexistent(z, 30 * MINUTE)
            && x == Resolution(HOUR, First, IsShifted, 30) && Ambiguous(z, x.wall)
            && ToUtc(z, x.wall, Second) == Instant(z, x) + HOUR
  {
    var z := Zone(0, [Transition(0, HOUR), Transition(HOUR, 0)]);
    ghost var start := 30 * MINUTE;
    assert WindowStart(z, 0) == 0 && WindowEnd(z, 0) == HOUR;
    assert WindowStart(z, 1) == HOUR && WindowEnd(z, 1) == 2 * HOUR;
    assert Separated(z, 0);
    WindowFolds(z, HOUR, 1);
    OverlapIsAmbiguous(z, HOUR, 1);
    forall n | 0 <= n < 30 ensures Nonexistent(z, Shifted(start, n)) {
      StillInGap(z, start, 0, Shifted(start, n));
    }
    assert Nonexistent(z, Shifted(start, 0));
    var r := ResolveLocalIso(z, 30 * MINUTE, ChooseLater, ShiftForward);
    assert !Nonexistent(z, Shifted(start, 30));
    x := r.value;
    LeastShiftIsUnique(z, start, x.adjustedMinutes, 30);
  }

  /** Strict parsing accepts exactly the wall times that exist. */
  lemma StrictAcceptsExisting(z: Zone, naive: int, fold: Fold)
    requires Separated(z, 0)
    ensures ParseLocalIso(z, naive, true, fold).Ok? <==> Preimages(z, naive) != {}
    ensures ParseLocalIso(z, naive, true, fold)
         == if Preimages(z, naive) != {} then Ok((naive, fold)) else Err(LocalTimeError)
  {
    ClassificationIsExact(z, naive);
  }

  /** Lenient parsing refuses nothing. A skipped time is read under the offset before the gap or, with
      fold 1, under the one behind it: as long after the clock change as the time is into the gap, or as
      long before it as the time is from the end. Shown again, it has moved across the gap. */
  lemma LenientReadsSkipped(z: Zone, naive: int, j: nat)
    requires Separated(z, 0) && InGap(z, naive, j)
    ensures forall fold :: ParseLocalIso(z, naive, false, fold) == Ok((naive, fold))
    ensures ToUtc(z, naive, First) - z.transitions[j].at == naive - WindowStart(z, j)
    ensures z.transitions[j].at - ToUtc(z, naive, Second) == WindowEnd(z, j) - naive
    ensures var length := WindowEnd(z, j) - WindowStart(z, j);
            Separated(z, length) ==>
              && ToLocal(z, ToUtc(z, naive, First)) == naive + length
              && ToLocal(z, ToUtc(z, naive, Second)) == naive - length
  {
    WindowFolds(z, naive, j);
    var length := WindowEnd(z, j) - WindowStart(z, j);
    if Separated(z, length) {
      MovedAcross(z, j, naive + length, j + 1, length);
      MovedAcross(z, j, naive - length, j, length);
    }
  }

  lemma MovedAcross(z: Zone, j: nat, wall: int, k: nat, length: int)
    requires length >= 0 && Separated(z, length) && j < |z.transitions|
    requires if k == j + 1 then WindowEnd(z, j) <= wall < WindowEnd(z, j) + length
             else k == j && WindowStart(z, j) - length <= wall < WindowStart(z, j)
    ensures ToLocal(z, wall - OffsetAfter(z, k)) == wall
  {
    SeparatedIsMonotone(z, length);
    forall i | 0 <= i < k ensures WindowEnd(z, i) <= wall {
      assert i < j ==> WindowEnd(z, i) + length <= WindowStart(z, j);
    }
    forall i | k <= i < |z.transitions| ensures wall < WindowStart(z, i) {
      assert i > j ==> WindowEnd(z, j) + length <= WindowStart(z, i);
    }
    BetweenFolds(z, wall, k);
  }

  // ---- the validator's own resolver ----

  datatype DetectedStatus = DetectedOk | DetectedAmbiguous | DetectedNonexistent

  datatype DstPolicy = PolicyError | PolicyEarlier | PolicyLater

  method DetectLocalTimeStatus(z: Zone, naive: int) returns (status: DetectedStatus, fold: Option<Fold>)
    ensures status == DetectedNonexistent <==> Nonexistent(z, naive)
    ensures status == DetectedAmbiguous <==> Ambiguous(z, naive)
    ensures fold.None? <==> status == DetectedNonexistent
    ensures fold.Some? ==> fold == Some(if RoundtripOk(z, naive, First) then First else Second)
  {
    var okFolds: seq<Fold> := [];
    var offsets: seq<int> := [];
    var folds := [First, Second];
    for i := 0 to 2
      invariant |okFolds| == |offsets|
      invariant i == 0 ==> okFolds == []
      invariant i == 1 ==> okFolds == (if RoundtripOk(z, naive, First) then [First] else [])
      invariant i == 2 ==> okFolds == (if RoundtripOk(z, naive, First) then [First] else [])
                                      + if RoundtripOk(z, naive, Second) then [Second] else []
      invariant forall k :: 0 <= k < |okFolds| ==> offsets[k] == UtcOffset(z, naive, okFolds[k])
    {
      var utc := ToUtc(z, naive, folds[i]);
      var back := ToLocal(z, utc);
      if back == naive {
        okFolds := okFolds + [folds[i]];
        offsets := offsets + [UtcOffset(z, naive, folds[i])];
      }
    }
    if |okFolds| == 0 {
      return DetectedNonexistent, None;
    }
    if |okFolds| == 2 {
      if offsets[0] != offsets[1] {
        return DetectedAmbiguous, Some(First);
      }
      return DetectedOk, Some(okFolds[0]);
    }
    return DetectedOk, Some(okFolds[0]);
  }

  method ResolveLocalTime(z: Zone, naive: int, policy: DstPolicy) returns (r: Result<(int, Fold)>)
    ensures Nonexistent(z, naive) ==>
              r == if policy == PolicyError then Err(LocalTimeError)
                   else var nudged := if policy == PolicyLater then naive + HOUR else naive - HOUR;
                        if Nonexistent(z, nudged) || Ambiguous(z, nudged) then Err(LocalTimeError)
                        else Ok((nudged, if RoundtripOk(z, nudged, First) then First else Second))
    ensures Ambiguous(z, naive) ==>
              r == if policy == PolicyError then Err(LocalTimeError)
                   else Ok((naive, if policy == PolicyEarlier then First else Second))
    ensures !Nonexistent(z, naive) && !Ambiguous(z, naive) ==>
              r == Ok((naive, if RoundtripOk(z, naive, First) then First else Second))
  {
    var status, foldSuggested := DetectLocalTimeStatus(z, naive);
    if status == DetectedOk {
      var fold := if foldSuggested.None? then First else foldSuggested.value;
      return Ok((naive, fold));
    }
    if status == DetectedAmbiguous {
      if policy == PolicyError {
        return Err(LocalTimeError);
      }
      return Ok((naive, if policy == PolicyEarlier then First else Second));
    }
    if policy == PolicyError {
      return Err(LocalTimeError);
    }
    var delta := if policy == PolicyLater then HOUR else -HOUR;
    var nudged := naive + delta;
    var status2, fold2 := DetectLocalTimeStatus(z, nudged);
    if status2 != DetectedOk {
      return Err(LocalTimeError);
    }
    var fold := if fold2.None? then First else fold2.value;
    r := Ok((nudged, fold));
  }

  /** Both resolvers under matching policies give the same instant for every wall time that
      exists; this method runs them side by side. */
  method ResolversAgree(z: Zone, naive: int, later: bool) returns (instant: int)
    requires Separated(z, 0) && Preimages(z, naive) != {}
    ensures instant in Preimages(z, naive)
    ensures forall u :: u in Preimages(z, naive) ==> if later then u <= instant else instant <= u
  {
    ClassificationIsExact(z, naive);
    var a := ResolveLocalIso(z, naive, if later then ChooseLater else ChooseEarlier);
    var b := ResolveLocalTime(z, naive, if later then PolicyLater else PolicyEarlier);
    instant := Instant(z, a.value);
    assert instant == ToUtc(z, b.value.0, b.value.1);
    forall u | u in Preimages(z, naive) ensures if later then u <= instant else instant <= u {
      ChoiceIsExtreme(z, naive, First, u);
    }
  }

  /** The validator's one-hour nudge out of an isolated gap succeeds exactly when the gap ends
      (or starts) within that hour, and lands on the time shift_forward chooses exactly when the
      end is in the sixtieth minute. */
  lemma NudgeSucceedsWithinTheHour(z: Zone, wall: int, j: nat)
    requires Separated(z, HOUR + 1) && InGap(z, wall, j)
    ensures !Nonexistent(z, wall + HOUR) && !Ambiguous(z, wall + HOUR) <==> WindowEnd(z, j) - wall <= HOUR
    ensures !Nonexistent(z, wall - HOUR) && !Ambiguous(z, wall - HOUR) <==> wall - WindowStart(z, j) < HOUR
    ensures Shifted(wall, MinutesToEnd(z, wall, j)) == wall + HOUR <==>
              59 * MINUTE < WindowEnd(z, j) - wall <= HOUR
  {
    SeparatedIsMonotone(z, HOUR + 1);
    NudgeLater(z, wall, j);
    NudgeEarlier(z, wall, j);
    SixtiethMinute(WindowEnd(z, j) - wall);
  }

  lemma NudgeLater(z: Zone, wall: int, j: nat)
    requires Separated(z, HOUR + 1) && InGap(z, wall, j)
    ensures !Nonexistent(z, wall + HOUR) && !Ambiguous(z, wall + HOUR) <==> WindowEnd(z, j) - wall <= HOUR
  {
    var nudged := wall + HOUR;
    if WindowEnd(z, j) <= nudged {
      PastGap(z, j, nudged, HOUR + 1);
    } else {
      SeparatedIsMonotone(z, HOUR + 1);
      StillInGap(z, wall, j, nudged);
    }
  }

  lemma NudgeEarlier(z: Zone, wall: int, j: nat)
    requires Separated(z, HOUR + 1) && InGap(z, wall, j)
    ensures !Nonexistent(z, wall - HOUR) && !Ambiguous(z, wall - HOUR) <==> wall - WindowStart(z, j) < HOUR
  {
    var nudged := wall - HOUR;
    if nudged < WindowStart(z, j) {
      BeforeGap(z, j, nudged, HOUR + 1);
    } else {
      SeparatedIsMonotone(z, HOUR + 1);
      EarlierInGap(z, wall, j, nudged);
    }
  }

  lemma EarlierInGap(z: Zone, wall: int, j: nat, earlier: int)
    requires Separated(z, 0) && InGap(z, wall, j) && WindowStart(z, j) <= earlier <= wall
    ensures Nonexistent(z, earlier)
  {
    StillInGap(z, earlier, j, earlier);
  }

  lemma SixtiethMinute(toEnd: int)
    ensures (toEnd + MINUTE - 1) / MINUTE == 60 <==> 59 * MINUTE < toEnd <= HOUR
  {
  }
}
