/** The 24 solar terms of a window. */
module SolarTerms {
  import opened Circle
  import opened Outcome
  import opened Ephemeris
  import opened Jieqi
  import opened Sorting

  type Term = (nat, real)

  function TermTarget(idx: nat): real {
    15.0 * idx as real
  }

  function TermTime(t: Term): real {
    t.1
  }

  /** The terms of the solar year that begins at the LiChun of unwrapped longitude
      `first`: index 21 (315 degrees) first, then cyclically, 15 degrees apart. */
  function TermsOfYear(s: Sun, first: real): seq<Term> {
    seq(24, (p: nat) => ((21 + p) % 24, s.time(first + 15.0 * p as real)))
  }

  /** The same terms in the order of their indices. */
  function TermsByIndex(s: Sun, first: real): seq<Term> {
    seq(24, (idx: nat) => (idx, s.time(first + 15.0 * ((idx + 3) % 24) as real)))
  }

  lemma TermsOfYearIncrease(s: Sun, first: real)
    requires Moves(s)
    ensures StrictlySortedBy(TermTime, TermsOfYear(s, first))
  {
    var ys := TermsOfYear(s, first);
    forall i, j | 0 <= i < j < 24 ensures TermTime(ys[i]) < TermTime(ys[j]) {
      TravelTime(s, first + 15.0 * i as real, first + 15.0 * j as real);
    }
  }

  lemma SameTerms(s: Sun, first: real)
    ensures multiset(TermsByIndex(s, first)) == multiset(TermsOfYear(s, first))
  {
    var ys := TermsOfYear(s, first);
    var out := TermsByIndex(s, first);
    assert out == ys[3..] + ys[..3];
    assert ys == ys[..3] + ys[3..];
    calc {
      multiset(out);
      multiset(ys[3..]) + multiset(ys[..3]);
      multiset(ys[..3] + ys[3..]);
      multiset(ys);
    }
  }

  /** The first crossing of the idx-th term at or after LiChun. */
  lemma TermAfterLiChun(s: Sun, start: real, idx: nat)
    requires Moves(s) && SameDirection(s.lon(start), LICHUN) && idx < 24
    ensures var jd := NextCrossing(s, TermTarget(idx), start);
            && jd == s.time(s.lon(start) + 15.0 * ((idx + 3) % 24) as real)
            && start <= jd <= s.time(s.lon(start) + 360.0)
  {
    var m: int :| s.lon(start) == LICHUN + Turn(m);
    var steps := (idx + 3) % 24;
    assert TermTarget(idx) - s.lon(start) == 15.0 * steps as real - Turn(m + if idx < 21 then 1 else 0);
    Mod360Is(TermTarget(idx) - s.lon(start), -m - if idx < 21 then 1 else 0);
    TimeInverts(s, start);
    TravelTime(s, s.lon(start), s.lon(start) + 15.0 * steps as real);
    TravelTime(s, s.lon(start) + 15.0 * steps as real, s.lon(start) + 360.0);
  }

  /** Some term is always between 60 and 75 degrees ahead: too far for a 30-day scan. */
  lemma SomeTermOutOfReach(s: Sun, start: real) returns (idx: nat)
    requires Moves(s)
    ensures idx < 24 && 60.0 < Ahead(s, TermTarget(idx), start) <= 75.0
    ensures start + 31.0 < ScanEvent(s, TermTarget(idx), start)
  {
    var x := s.lon(start) + 75.0;
    var steps := (x / 15.0).Floor;
    idx := steps % 24;
    assert TermTarget(idx) == 15.0 * steps as real - Turn(steps / 24);
    Mod360Is(TermTarget(idx) - s.lon(start), -(steps / 24));
    TimeInverts(s, start);
    TravelTime(s, s.lon(start), ScanStop(s, TermTarget(idx), start));
  }

  /** When the Sun next stands at each term after a start. */
  function NextTerms(s: Sun, jdStart: real): nat -> real {
    (idx: nat) => NextCrossing(s, TermTarget(idx), jdStart)
  }

  /** Of the first n terms exactly those that come inside the window, each once. */
  ghost predicate Gathered(next: nat -> real, jdStart: real, jdEnd: real, out: seq<Term>, n: nat) {
    && (forall t :: t in multiset(out) <==> t.0 < n && t.1 == next(t.0) && jdStart <= t.1 <= jdEnd)
    && (forall t :: multiset(out)[t] <= 1)
  }

  /** All terms whose next time lies in the window, in the order of their times. */
  ghost predicate ListsWindow(next: nat -> real, jdStart: real, jdEnd: real, terms: seq<Term>) {
    SortedBy(TermTime, terms) && Gathered(next, jdStart, jdEnd, terms, 24)
  }

  lemma NothingGathered(next: nat -> real, jdStart: real, jdEnd: real)
    ensures Gathered(next, jdStart, jdEnd, [], 0)
  {
  }

  lemma GatherNext(next: nat -> real, jdStart: real, jdEnd: real, out: seq<Term>, idx: nat, jd: real)
    requires Gathered(next, jdStart, jdEnd, out, idx) && jd == next(idx)
    requires jdStart <= jd <= jdEnd
    ensures Gathered(next, jdStart, jdEnd, out + [(idx, jd)], idx + 1)
  {
    assert (idx, jd) !in multiset(out);
    assert multiset(out + [(idx, jd)]) == multiset(out) + multiset{(idx, jd)};
  }

  lemma GatherNone(next: nat -> real, jdStart: real, jdEnd: real, out: seq<Term>, idx: nat, jd: real)
    requires Gathered(next, jdStart, jdEnd, out, idx) && jd == next(idx)
    requires !(jdStart <= jd <= jdEnd)
    ensures Gathered(next, jdStart, jdEnd, out, idx + 1)
  {
  }

  lemma GatheredOnce(next: nat -> real, jdStart: real, jdEnd: real, out: seq<Term>, other: seq<Term>, n: nat)
    requires Gathered(next, jdStart, jdEnd, out, n) && Gathered(next, jdStart, jdEnd, other, n)
    ensures multiset(out) == multiset(other)
  {
    forall t ensures multiset(out)[t] == multiset(other)[t] {
      assert t in multiset(out) <==> t in multiset(other);
    }
  }

  lemma {:induction false} AllGathered(next: nat -> real, jdStart: real, jdEnd: real, terms: seq<Term>, n: nat)
    requires n <= |terms| && forall k: nat :: k < |terms| ==> terms[k] == (k, next(k))
    requires forall k: nat :: k < |terms| ==> jdStart <= next(k) <= jdEnd
    ensures Gathered(next, jdStart, jdEnd, terms[..n], n)
  {
    if n == 0 {
      NothingGathered(next, jdStart, jdEnd);
    } else {
      AllGathered(next, jdStart, jdEnd, terms, n - 1);
      GatherNext(next, jdStart, jdEnd, terms[..n - 1], n - 1, next(n - 1));
      assert terms[..n] == terms[..n - 1] + [terms[n - 1]];
    }
  }

  /** From one LiChun to the next these are the 24 terms of the year. */
  lemma WholeYearListed(s: Sun, start: real, terms: seq<Term>)
    requires Moves(s) && SameDirection(s.lon(start), LICHUN)
    requires ListsWindow(NextTerms(s, start), start, s.time(s.lon(start) + 360.0), terms)
    ensures terms == TermsOfYear(s, s.lon(start))
  {
    var byIndex, end := TermsByIndex(s, s.lon(start)), s.time(s.lon(start) + 360.0);
    forall k: nat | k < 24
      ensures byIndex[k] == (k, NextTerms(s, start)(k)) && start <= NextTerms(s, start)(k) <= end
    {
      TermAfterLiChun(s, start, k);
    }
    AllGathered(NextTerms(s, start), start, end, byIndex, 24);
    assert byIndex[..24] == byIndex;
    GatheredOnce(NextTerms(s, start), start, end, terms, byIndex, 24);
    SameTerms(s, s.lon(start));
    TermsOfYearIncrease(s, s.lon(start));
    StrictOrderIsUnique(TermTime, terms, TermsOfYear(s, s.lon(start)));
  }

  lemma SortedWindow(next: nat -> real, jdStart: real, jdEnd: real, out: seq<Term>, sorted: seq<Term>)
    requires Gathered(next, jdStart, jdEnd, out, 24) && SortedBy(TermTime, sorted) && multiset(sorted) == multiset(out)
    ensures ListsWindow(next, jdStart, jdEnd, sorted)
  {
  }

  method Compute24SolarTermsForWindow(b: Backend, jdStart: real, jdEnd: real, accuracySeconds: real)
    returns (r: Result<seq<Term>>)
    // With a direct search, the window from one LiChun to the next holds every term once, in order.
    ensures Direct(b) && SameDirection(b.sun.lon(jdStart), LICHUN)
            && jdEnd == b.sun.time(b.sun.lon(jdStart) + 360.0) ==>
              r == Ok(TermsOfYear(b.sun, b.sun.lon(jdStart)))
    // In any other window it lists exactly the terms whose next crossing lies in it.
    ensures Direct(b) ==> r.Ok? && ListsWindow(NextTerms(b.sun, jdStart), jdStart, jdEnd, r.value)
    // The scan alone can never list the terms of any window.
    ensures Fallback(b) ==> r == Err(CalculationError)
  {
    ghost var outOfReach: nat := 0;
    if Fallback(b) {
      outOfReach := SomeTermOutOfReach(b.sun, jdStart);
    }
    assert Steps(30.0) == 31;
    ghost var next := NextTerms(b.sun, jdStart);
    NothingGathered(next, jdStart, jdEnd);
    var out: seq<Term> := [];
    for idx := 0 to 24
      invariant Direct(b) ==> Gathered(next, jdStart, jdEnd, out, idx)
      invariant Fallback(b) ==> idx <= outOfReach < 24
    {
      var jd := FindCrossing(b, TermTarget(idx), jdStart, accuracySeconds, 30.0);
      assert Direct(b) ==> b.solcross(TermTarget(idx), jdStart).Some?;
      assert Direct(b) ==> jd == Ok(next(idx));
      assert Fallback(b) ==> b.solcross(TermTarget(idx), jdStart).None?;
      if jd.Err? {
        return Err(jd.error);
      }
      if jdStart <= jd.value <= jdEnd {
        if Direct(b) {
          GatherNext(next, jdStart, jdEnd, out, idx, jd.value);
        }
        out := out + [(idx, jd.value)];
      } else if Direct(b) {
        GatherNone(next, jdStart, jdEnd, out, idx, jd.value);
      }
    }
    var sorted := SortBy(TermTime, out);
    if Direct(b) {
      SortedWindow(next, jdStart, jdEnd, out, sorted);
      if SameDirection(b.sun.lon(jdStart), LICHUN) && jdEnd == b.sun.time(b.sun.lon(jdStart) + 360.0) {
        WholeYearListed(b.sun, jdStart, sorted);
      }
    }
    r := Ok(sorted);
  }
}
