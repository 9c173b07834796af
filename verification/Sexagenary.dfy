/** Pillars as positions of the 60-cycle, and the rules that derive them. */
module Sexagenary {
  import opened Outcome
  import opened Gregorian

  datatype Pillar = Pillar(stem: int, branch: int)

  function PillarFromIndex60(idx60: int): Pillar {
    Pillar(idx60 % 10, idx60 % 12)
  }

  /** The position recovered from stem and branch in closed form. */
  function Index60(stem: int, branch: int): int {
    (6 * stem - 5 * branch) % 60
  }

  /** Stem and branch determine the position, and the closed form recovers it. */
  lemma PillarDeterminesIndex(i: int, j: int)
    ensures Index60(i % 10, i % 12) == i % 60
    ensures PillarFromIndex60(i) == PillarFromIndex60(j) <==> i % 60 == j % 60
    ensures PillarFromIndex60(i % 60) == PillarFromIndex60(i)
  {
    Crt(i);
    Crt(j);
  }

  lemma Crt(i: int)
    ensures Index60(i % 10, i % 12) == i % 60
    ensures i % 60 % 10 == i % 10 && i % 60 % 12 == i % 12
  {
    assert 6 * (i % 10) - 5 * (i % 12) == i + 60 * (i / 12 - i / 10) by {
      assert i % 10 == i - 10 * (i / 10);
      assert i % 12 == i - 12 * (i / 12);
    }
    MultipleOf60(i, i / 12 - i / 10);
    Residues(i);
  }

  lemma Residues(i: int)
    ensures i % 60 % 10 == i % 10 && i % 60 % 12 == i % 12
  {
    var q, r := i / 60, i % 60;
    Multiple(r, 6 * q, 10);
    Multiple(r, 5 * q, 12);
  }

  lemma Multiple(r: int, k: int, m: int)
    requires m == 10 || m == 12
    ensures (r + m * k) % m == r % m
  {
    assert r + m * k == m * (r / m + k) + r % m;
  }

  lemma MultipleOf60(i: int, k: int)
    ensures (i + 60 * k) % 60 == i % 60
  {
    var q, r := i / 60, i % 60;
    assert i + 60 * k == 60 * (q + k) + r;
  }

  /** A pillar some steps on in the cycle. */
  function Advanced(p: Pillar, steps: int): Pillar {
    PillarFromIndex60(Index60(p.stem, p.branch) + steps)
  }

  lemma AdvancedIs(i: int, steps: int)
    ensures Advanced(PillarFromIndex60(i), steps) == PillarFromIndex60(i + steps)
  {
    Crt(i);
    MultipleOf60(i % 60 + steps, i / 60);
    PillarDeterminesIndex(i % 60 + steps, i + steps);
  }

  // ---- the ruleset tables ----

  datatype Group = Group(stems: seq<int>, table: seq<int>)

  /** A JSON value of the anchor block: an integer, a float, or anything else. */
  datatype Field = IntField(n: int) | FloatField(x: real) | OtherField

  datatype DayAnchor = NoAnchor | NotADict | DayAnchor(kind: string, jdn: Field, index: Field)

  /** The parts of a ruleset the pillars read. */
  datatype Ruleset = Ruleset(
    monthGroups: seq<Group>, hourGroups: seq<Group>, anchor: DayAnchor, ziStartHour: Option<real>)

  function FindGroup(groups: seq<Group>, stem: int): Result<Group> {
    if groups == [] then Err(KeyError)
    else if stem in groups[0].stems then Ok(groups[0])
    else FindGroup(groups[1..], stem)
  }

  function LookUp(groups: seq<Group>, stem: int, index: nat): Result<int> {
    match FindGroup(groups, stem)
    case Err(e) => Err(e)
    case Ok(g) => if index < |g.table| then Ok(g.table[index]) else Err(IndexError)
  }

  /** Group k is the first one for the stem. */
  predicate IsFirstGroup(groups: seq<Group>, stem: int, k: nat) {
    k < |groups| && stem in groups[k].stems && forall j :: 0 <= j < k ==> stem !in groups[j].stems
  }

  /** A stem is looked up in the first group that lists it, whatever follows; a stem that no group
      lists is a KeyError, a row that is too short an IndexError. */
  lemma {:induction false} LookUpInFirstGroup(groups: seq<Group>, stem: int, index: nat)
    ensures forall k: nat :: IsFirstGroup(groups, stem, k) ==>
              LookUp(groups, stem, index)
              == if index < |groups[k].table| then Ok(groups[k].table[index]) else Err(IndexError)
    ensures (forall k: nat :: !IsFirstGroup(groups, stem, k)) <==> LookUp(groups, stem, index) == Err(KeyError)
  {
    if groups != [] && stem !in groups[0].stems {
      LookUpInFirstGroup(groups[1..], stem, index);
      forall k: nat ensures IsFirstGroup(groups, stem, k) <==> k > 0 && IsFirstGroup(groups[1..], stem, k - 1) {
        FirstInRest(groups, stem, k);
      }
      forall k: nat | IsFirstGroup(groups[1..], stem, k) ensures IsFirstGroup(groups, stem, k + 1) {
        FirstInRest(groups, stem, k + 1);
      }
    } else if groups != [] {
      assert IsFirstGroup(groups, stem, 0);
    }
  }

  lemma FirstInRest(groups: seq<Group>, stem: int, k: nat)
    requires groups != [] && stem !in groups[0].stems
    ensures IsFirstGroup(groups, stem, k) <==> k > 0 && IsFirstGroup(groups[1..], stem, k - 1)
  {
    if k > 0 && IsFirstGroup(groups[1..], stem, k - 1) {
      forall j | 0 <= j < k ensures stem !in groups[j].stems {
        assert j > 0 ==> groups[1..][j - 1] == groups[j];
      }
    }
    if k > 0 && IsFirstGroup(groups, stem, k) {
      forall j | 0 <= j < k - 1 ensures stem !in groups[1..][j].stems {
        assert groups[1..][j] == groups[j + 1];
      }
    }
  }

  function MonthStem(ruleset: Option<Ruleset>, yearStem: int, monthIndex: nat): Result<int> {
    match ruleset
    case Some(r) => LookUp(r.monthGroups, yearStem, monthIndex)
    case None => Ok((yearStem * 2 + 2 + monthIndex) % 10)
  }

  function HourStem(ruleset: Option<Ruleset>, dayStem: int, hourBranch: nat): Result<int> {
    match ruleset
    case Some(r) => LookUp(r.hourGroups, dayStem, hourBranch)
    case None => Ok((dayStem * 2 + hourBranch) % 10)
  }

  /** The tables of a ruleset agree with the formulas used without one. */
  predicate Conforms(ruleset: Option<Ruleset>) {
    && (forall stem, index :: 0 <= stem < 10 && 0 <= index < 12 ==>
          MonthStem(ruleset, stem, index) == MonthStem(None, stem, index))
    && (forall stem, index :: 0 <= stem < 10 && 0 <= index < 12 ==>
          HourStem(ruleset, stem, index) == HourStem(None, stem, index))
  }

  function Ramp(first: int): seq<int> {
    seq(12, i => (first + i) % 10)
  }

  /** The five groups of the shipped tables, each a row of consecutive stems. */
  const STANDARD_BAZI_2026 := Ruleset(
    [Group([0, 5], [2, 3, 4, 5, 6, 7, 8, 9, 0, 1, 2, 3]), Group([1, 6], [4, 5, 6, 7, 8, 9, 0, 1, 2, 3, 4, 5]),
     Group([2, 7], [6, 7, 8, 9, 0, 1, 2, 3, 4, 5, 6, 7]), Group([3, 8], [8, 9, 0, 1, 2, 3, 4, 5, 6, 7, 8, 9]),
     Group([4, 9], [0, 1, 2, 3, 4, 5, 6, 7, 8, 9, 0, 1])],
    [Group([0, 5], [0, 1, 2, 3, 4, 5, 6, 7, 8, 9, 0, 1]), Group([1, 6], [2, 3, 4, 5, 6, 7, 8, 9, 0, 1, 2, 3]),
     Group([2, 7], [4, 5, 6, 7, 8, 9, 0, 1, 2, 3, 4, 5]), Group([3, 8], [6, 7, 8, 9, 0, 1, 2, 3, 4, 5, 6, 7]),
     Group([4, 9], [8, 9, 0, 1, 2, 3, 4, 5, 6, 7, 8, 9])],
    DayAnchor("JDN", IntField(2419451), IntField(0)), Some(23.0))

  /** Group k serves the stems k and k + 5 with a row of consecutive stems. */
  predicate FiveRows(groups: seq<Group>, base: int) {
    |groups| == 5 && forall k :: 0 <= k < 5 ==> groups[k] == Group([k, k + 5], Ramp(2 * k + base))
  }

  lemma {:induction false} FindFrom(groups: seq<Group>, base: int, stem: int, k: nat)
    requires FiveRows(groups, base) && 0 <= stem < 10 && k <= stem % 5
    ensures FindGroup(groups[k..], stem) == Ok(groups[stem % 5])
    decreases 5 - k
  {
    assert groups[k..][0] == groups[k] && groups[k..][1..] == groups[k + 1..];
    if k < stem % 5 {
      FindFrom(groups, base, stem, k + 1);
    }
  }

  lemma RowsFollowFormula(groups: seq<Group>, base: int, stem: int, index: nat)
    requires FiveRows(groups, base) && 0 <= stem < 10 && index < 12
    ensures LookUp(groups, stem, index) == Ok((stem * 2 + base + index) % 10)
  {
    FindFrom(groups, base, stem, 0);
    assert groups[0..] == groups;
    var g := Group([stem % 5, stem % 5 + 5], Ramp(2 * (stem % 5) + base));
    assert FindGroup(groups, stem) == Ok(g);
    assert g.table[index] == (2 * (stem % 5) + base + index) % 10;
    TwiceMod5(stem, base + index);
  }

  lemma TwiceMod5(stem: int, n: int)
    requires 0 <= stem < 10
    ensures (2 * (stem % 5) + n) % 10 == (stem * 2 + n) % 10
  {
    if stem >= 5 {
      assert stem % 5 == stem - 5;
      Multiple(2 * (stem % 5) + n, 1, 10);
    }
  }

  lemma FiveRowsFromList(groups: seq<Group>, base: int)
    requires |groups| == 5
    requires groups[0] == Group([0, 5], Ramp(base)) && groups[1] == Group([1, 6], Ramp(base + 2))
    requires groups[2] == Group([2, 7], Ramp(base + 4)) && groups[3] == Group([3, 8], Ramp(base + 6))
    requires groups[4] == Group([4, 9], Ramp(base + 8))
    ensures FiveRows(groups, base)
  {
    forall k | 0 <= k < 5 ensures groups[k] == Group([k, k + 5], Ramp(2 * k + base)) {
      if k == 0 { } else if k == 1 { } else if k == 2 { } else if k == 3 { } else { }
    }
  }

  lemma RampIs(first: int, row: seq<int>)
    requires |row| == 12 && forall i :: 0 <= i < 12 ==> row[i] == (first + i) % 10
    ensures Ramp(first) == row
  {
  }

  lemma EvenRamps()
    ensures Ramp(2) == [2, 3, 4, 5, 6, 7, 8, 9, 0, 1, 2, 3]
    ensures Ramp(4) == [4, 5, 6, 7, 8, 9, 0, 1, 2, 3, 4, 5]
  {
    RampIs(2, [2, 3, 4, 5, 6, 7, 8, 9, 0, 1, 2, 3]);
    RampIs(4, [4, 5, 6, 7, 8, 9, 0, 1, 2, 3, 4, 5]);
  }

  lemma HighRamps()
    ensures Ramp(6) == [6, 7, 8, 9, 0, 1, 2, 3, 4, 5, 6, 7]
    ensures Ramp(8) == [8, 9, 0, 1, 2, 3, 4, 5, 6, 7, 8, 9]
  {
    RampIs(6, [6, 7, 8, 9, 0, 1, 2, 3, 4, 5, 6, 7]);
    RampIs(8, [8, 9, 0, 1, 2, 3, 4, 5, 6, 7, 8, 9]);
  }

  lemma RoundRamps()
    ensures Ramp(0) == [0, 1, 2, 3, 4, 5, 6, 7, 8, 9, 0, 1]
    ensures Ramp(10) == [0, 1, 2, 3, 4, 5, 6, 7, 8, 9, 0, 1]
  {
    RampIs(0, [0, 1, 2, 3, 4, 5, 6, 7, 8, 9, 0, 1]);
    RampIs(10, [0, 1, 2, 3, 4, 5, 6, 7, 8, 9, 0, 1]);
  }

  lemma StandardRows()
    ensures FiveRows(STANDARD_BAZI_2026.monthGroups, 2)
    ensures FiveRows(STANDARD_BAZI_2026.hourGroups, 0)
  {
    EvenRamps();
    HighRamps();
    RoundRamps();
    FiveRowsFromList(STANDARD_BAZI_2026.monthGroups, 2);
    FiveRowsFromList(STANDARD_BAZI_2026.hourGroups, 0);
  }

  /** What conforming means for one stem and one index. */
  lemma ConformingStems(ruleset: Option<Ruleset>, stem: int, index: nat)
    requires Conforms(ruleset) && 0 <= stem < 10 && index < 12
    ensures MonthStem(ruleset, stem, index) == Ok((stem * 2 + 2 + index) % 10)
    ensures HourStem(ruleset, stem, index) == Ok((stem * 2 + index) % 10)
  {
    assert MonthStem(ruleset, stem, index) == MonthStem(None, stem, index);
    assert HourStem(ruleset, stem, index) == HourStem(None, stem, index);
  }

  lemma RowsConform(r: Ruleset)
    requires FiveRows(r.monthGroups, 2) && FiveRows(r.hourGroups, 0)
    ensures Conforms(Some(r))
  {
    forall stem, index: nat | 0 <= stem < 10 && 0 <= index < 12
      ensures MonthStem(Some(r), stem, index) == MonthStem(None, stem, index)
      ensures HourStem(Some(r), stem, index) == HourStem(None, stem, index)
    {
      RowsFollowFormula(r.monthGroups, 2, stem, index);
      RowsFollowFormula(r.hourGroups, 0, stem, index);
    }
  }

  /** The shipped tables say what the formulas say. */
  lemma StandardRulesetConforms()
    ensures Conforms(Some(STANDARD_BAZI_2026))
  {
    StandardRows();
    RowsConform(STANDARD_BAZI_2026);
  }

  // ---- the four pillars ----

  /** The 60-cycle starts anew in 1984. */
  const CYCLE_YEAR := 1984

  function YearPillar(solarYear: int): Pillar {
    PillarFromIndex60((solarYear - CYCLE_YEAR) % 60)
  }

  function MonthPillar(yearStem: int, monthIndex: nat, ruleset: Option<Ruleset>): Result<Pillar> {
    match MonthStem(ruleset, yearStem, monthIndex)
    case Ok(stem) => Ok(Pillar(stem, (2 + monthIndex) % 12))
    case Err(e) => Err(e)
  }

  function HourPillar(dayStem: int, hourBranch: nat, ruleset: Option<Ruleset>): Result<Pillar> {
    match HourStem(ruleset, dayStem, hourBranch)
    case Ok(stem) => Ok(Pillar(stem, hourBranch))
    case Err(e) => Err(e)
  }

  function DayIndex(d: Date, offset: int): int {
    (Jdn(d) + offset) % 60
  }

  /** Twelve steps a year move the stem by two and leave the branch. */
  lemma Doubling(years: int, steps: int)
    ensures (years % 10 * 2 + steps) % 10 == (12 * years + steps) % 10
    ensures (12 * years + steps) % 12 == steps % 12
  {
    Multiple(years % 10 * 2 + steps, years + 2 * (years / 10), 10);
    Multiple(steps, years, 12);
    assert 12 * years + steps == years % 10 * 2 + steps + 10 * (years + 2 * (years / 10));
  }

  lemma ShiftedMod60(a: int, b: int, offset: int)
    ensures (a + 1 + offset) % 60 == ((a + offset) % 60 + 1) % 60
    ensures (a + offset) % 60 % 60 == (b + offset) % 60 % 60 <==> (a - b) % 60 == 0
  {
    Successor60(a + offset);
    SameMod60(a + offset, b + offset);
  }

  lemma Successor60(n: int)
    ensures (n + 1) % 60 == (n % 60 + 1) % 60
  {
    MultipleOf60(n % 60 + 1, n / 60);
  }

  lemma SameMod60(m: int, n: int)
    ensures m % 60 == n % 60 <==> (m - n) % 60 == 0
  {
    MultipleOf60(m % 60 - n % 60, m / 60 - n / 60);
  }

  /** Counted from the year 4 of the calendar, stems run through ten years and branches through twelve;
      1984 is jia zi, the first of both. */
  lemma YearPillarOf(solarYear: int)
    ensures YearPillar(solarYear) == Pillar((solarYear - 4) % 10, (solarYear - 4) % 12)
    ensures YearPillar(1984) == Pillar(0, 0)
  {
    Residues(solarYear - CYCLE_YEAR);
    Multiple(solarYear - CYCLE_YEAR, 198, 10);
    Multiple(solarYear - CYCLE_YEAR, 165, 12);
  }

  /** The month pillar is the 60-cycle position of the running month number, through year ends. */
  lemma MonthPillarWalksCycle(solarYear: int, monthIndex: nat, ruleset: Option<Ruleset>)
    requires monthIndex < 12 && Conforms(ruleset)
    ensures MonthPillar(YearPillar(solarYear).stem, monthIndex, ruleset)
         == Ok(PillarFromIndex60(12 * (solarYear - 1984) + monthIndex + 2))
  {
    var years := solarYear - CYCLE_YEAR;
    YearStem(solarYear);
    ConformingStems(ruleset, years % 10, monthIndex);
    PositionParts(years, monthIndex + 2);
    assert years % 10 * 2 + 2 + monthIndex == years % 10 * 2 + (monthIndex + 2);
    assert 12 * years + (monthIndex + 2) == 12 * (solarYear - CYCLE_YEAR) + monthIndex + 2;
  }

  lemma YearStem(solarYear: int)
    ensures YearPillar(solarYear).stem == (solarYear - CYCLE_YEAR) % 10
  {
    Residues(solarYear - CYCLE_YEAR);
  }

  /** Stem and branch of a position twelve times some years and some steps on. */
  lemma PositionParts(years: int, steps: int)
    ensures PillarFromIndex60(12 * years + steps) == Pillar((years % 10 * 2 + steps) % 10, steps % 12)
  {
    Doubling(years, steps);
  }

  /** Given the day's position, the hour pillar is the 60-cycle position of the double hour. */
  lemma HourPillarWalksCycle(dayIdx: int, hourBranch: nat, ruleset: Option<Ruleset>)
    requires hourBranch < 12 && Conforms(ruleset)
    ensures HourPillar(PillarFromIndex60(dayIdx).stem, hourBranch, ruleset)
         == Ok(PillarFromIndex60(12 * dayIdx + hourBranch))
  {
    ConformingStems(ruleset, dayIdx % 10, hourBranch);
    PositionParts(dayIdx, hourBranch);
  }

  /** The day pillar moves one step each calendar day. */
  lemma DayPillarWalksCycle(d: Date, offset: int)
    requires ValidDate(d)
    ensures DayIndex(NextDay(d), offset) == (DayIndex(d, offset) + 1) % 60
  {
    JdnOfNextDay(d);
    ShiftedMod60(Jdn(d), Jdn(d), offset);
  }

  /** Two dates share their pillar exactly when they are whole 60-day cycles apart. */
  lemma DayPillarRepeats(a: Date, b: Date, offset: int)
    requires ValidDate(a) && ValidDate(b)
    ensures PillarFromIndex60(DayIndex(a, offset)) == PillarFromIndex60(DayIndex(b, offset))
       <==> (Jdn(a) - Jdn(b)) % 60 == 0
  {
    PillarDeterminesIndex(DayIndex(a, offset), DayIndex(b, offset));
    ShiftedMod60(Jdn(a), Jdn(b), offset);
  }

  // ---- where the day offset comes from ----

  const DAY_OFFSET := 49

  function Narrow(f: Field): Option<int> {
    match f
    case IntField(n) => Some(n)
    case FloatField(x) => if x == x.Floor as real then Some(x.Floor) else None
    case OtherField => None
  }

  function DayOffsetFromRuleset(anchor: DayAnchor): Result<int> {
    match anchor
    case NoAnchor => Err(KeyError)
    case NotADict => Err(ValueError)
    case DayAnchor(kind, jdn, index) =>
      if kind != "JDN" then Err(ValueError)
      else match (Narrow(jdn), Narrow(index))
        case (Some(j), Some(i)) => Ok((i - j) % 60)
        case _ => Err(ValueError)
  }

  /** A request may bring its own anchor date; then the ruleset's anchor is not read. */
  function DayOffsetForInput(anchorDate: Option<Date>, anchorIndex: Option<int>,
                             ruleset: Option<Ruleset>): Result<int> {
    if anchorDate.Some? && anchorIndex.Some? then Ok((anchorIndex.value - Jdn(anchorDate.value)) % 60)
    else if ruleset.None? then Ok(DAY_OFFSET)
    else DayOffsetFromRuleset(ruleset.value.anchor)
  }

  /** A number without a fractional part, given as an integer or as a float. */
  ghost predicate IsWholeNumber(f: Field, n: int) {
    f == IntField(n) || f == FloatField(n as real)
  }

  /** A ruleset gives an offset exactly if its anchor is of the type JDN and both fields are whole
      numbers, and then the one under which the anchor day has the declared position; a missing anchor
      is a KeyError, everything else a ValueError. */
  lemma AnchorAcceptedIff(anchor: DayAnchor)
    ensures DayOffsetFromRuleset(anchor).Ok? <==>
              anchor.DayAnchor? && anchor.kind == "JDN"
              && (exists j :: IsWholeNumber(anchor.jdn, j)) && (exists i :: IsWholeNumber(anchor.index, i))
    ensures forall j, i :: anchor.DayAnchor? && anchor.kind == "JDN"
                           && IsWholeNumber(anchor.jdn, j) && IsWholeNumber(anchor.index, i) ==>
              DayOffsetFromRuleset(anchor).Ok? && 0 <= DayOffsetFromRuleset(anchor).value < 60
              && (j + DayOffsetFromRuleset(anchor).value) % 60 == i % 60
    ensures DayOffsetFromRuleset(anchor) == Err(KeyError) <==> anchor.NoAnchor?
    ensures DayOffsetFromRuleset(anchor).Err? && !anchor.NoAnchor? ==> DayOffsetFromRuleset(anchor) == Err(ValueError)
  {
    if anchor.DayAnchor? {
      NarrowIsWhole(anchor.jdn);
      NarrowIsWhole(anchor.index);
      forall j, i | IsWholeNumber(anchor.jdn, j) && IsWholeNumber(anchor.index, i)
        ensures (j + (i - j) % 60) % 60 == i % 60
      {
        MultipleOf60(i, -((i - j) / 60));
      }
    }
  }

  lemma NarrowIsWhole(f: Field)
    ensures Narrow(f).Some? <==> exists n :: IsWholeNumber(f, n)
    ensures forall n :: IsWholeNumber(f, n) ==> Narrow(f) == Some(n)
  {
    if Narrow(f).Some? {
      assert IsWholeNumber(f, Narrow(f).value);
    }
  }

  /** Half an anchor in the request is none. */
  lemma HalfAnchorIsNone(d: Option<Date>, index: Option<int>, ruleset: Option<Ruleset>)
    requires d.None? || index.None?
    ensures DayOffsetForInput(d, index, ruleset) == DayOffsetForInput(None, None, ruleset)
    ensures ruleset.Some? ==> DayOffsetForInput(d, index, ruleset) == DayOffsetFromRuleset(ruleset.value.anchor)
  {
  }

  /** Whatever the source of the offset, the anchor day gets the position declared for it. */
  lemma AnchorGetsItsIndex(d: Date, index: int, ruleset: Ruleset)
    ensures var o := DayOffsetForInput(Some(d), Some(index), Some(ruleset));
            o.Ok? && DayIndex(d, o.value) == index % 60
    ensures var o := DayOffsetForInput(None, None, Some(ruleset));
            o.Ok? && Narrow(ruleset.anchor.jdn) == Some(Jdn(d)) && Narrow(ruleset.anchor.index) == Some(index) ==>
              DayIndex(d, o.value) == index % 60
  {
    var j := Jdn(d);
    assert (j + (index - j) % 60) % 60 == index % 60;
  }

  lemma FirstOfOctober1949()
    ensures Jdn(Date(1949, 10, 1)) == 2433191
  {
  }

  lemma ShippedOffset()
    ensures DayOffsetFromRuleset(STANDARD_BAZI_2026.anchor) == Ok(DAY_OFFSET)
  {
    assert (0 - 2419451) % 60 == 49;
  }

  /** The shipped anchor and the built-in constant agree: 1 October 1949 is position 0. */
  lemma ShippedAnchor()
    ensures DayOffsetForInput(None, None, Some(STANDARD_BAZI_2026)) == Ok(DAY_OFFSET)
    ensures DayOffsetForInput(None, None, None) == Ok(DAY_OFFSET)
    ensures DayIndex(Date(1949, 10, 1), DAY_OFFSET) == 0
    ensures PillarFromIndex60(DayIndex(Date(1949, 10, 1), DAY_OFFSET)) == Pillar(0, 0)
  {
    FirstOfOctober1949();
    ShippedOffset();
    assert (2433191 + 49) % 60 == 0;
  }
}
