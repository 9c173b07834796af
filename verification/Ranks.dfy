/** Tie-averaged ranks over groups and the Kruskal-Wallis statistic built on them. */
module Ranks {
  import opened Sorting

  // ---- totals and collections that do not depend on order ----

  function Total<T>(xs: seq<T>, f: T -> real): real {
    if xs == [] then 0.0 else Total(xs[..|xs| - 1], f) + f(xs[|xs| - 1])
  }

  lemma {:induction false} TotalConcat<T>(xs: seq<T>, ys: seq<T>, f: T -> real)
    ensures Total(xs + ys, f) == Total(xs, f) + Total(ys, f)
  {
    if ys == [] {
      assert xs + ys == xs;
    } else {
      var last := |ys| - 1;
      TotalConcat(xs, ys[..last], f);
      assert (xs + ys)[..|xs + ys| - 1] == xs + ys[..last];
    }
  }

  function Collect<T, U>(xs: seq<T>, f: T -> seq<U>): seq<U> {
    if xs == [] then [] else Collect(xs[..|xs| - 1], f) + f(xs[|xs| - 1])
  }

  lemma {:induction false} CollectConcat<T, U>(xs: seq<T>, ys: seq<T>, f: T -> seq<U>)
    ensures Collect(xs + ys, f) == Collect(xs, f) + Collect(ys, f)
  {
    if ys == [] {
      assert xs + ys == xs;
    } else {
      var last := |ys| - 1;
      CollectConcat(xs, ys[..last], f);
      assert (xs + ys)[..|xs + ys| - 1] == xs + ys[..last];
    }
  }

  lemma SplitAt<T>(ys: seq<T>, i: nat, x: T)
    requires i < |ys| && ys[i] == x
    ensures ys == ys[..i] + [x] + ys[i + 1..]
    ensures multiset(ys[..i] + ys[i + 1..]) == multiset(ys) - multiset{x}
  {
    assert ys == ys[..i] + [x] + ys[i + 1..];
  }

  lemma LastMultiset<T>(xs: seq<T>)
    requires xs != []
    ensures multiset(xs[..|xs| - 1]) == multiset(xs) - multiset{xs[|xs| - 1]}
  {
    assert xs == xs[..|xs| - 1] + [xs[|xs| - 1]];
  }

  /** Where the last element of one arrangement stands in another. */
  lemma FindLast<T>(xs: seq<T>, ys: seq<T>) returns (i: nat)
    requires multiset(xs) == multiset(ys) && xs != []
    ensures i < |ys| && ys[i] == xs[|xs| - 1]
    ensures ys == ys[..i] + [ys[i]] + ys[i + 1..]
    ensures multiset(xs[..|xs| - 1]) == multiset(ys[..i] + ys[i + 1..])
  {
    var x := xs[|xs| - 1];
    assert x in multiset(ys);
    i :| 0 <= i < |ys| && ys[i] == x;
    SplitAt(ys, i, x);
    LastMultiset(xs);
  }

  /** A total does not depend on the order of its terms. */
  lemma {:induction false} TotalOfPermutation<T>(xs: seq<T>, ys: seq<T>, f: T -> real)
    requires multiset(xs) == multiset(ys)
    ensures Total(xs, f) == Total(ys, f)
  {
    if xs == [] {
      assert |multiset(ys)| == 0;
    } else {
      var i := FindLast(xs, ys);
      TotalOfPermutation(xs[..|xs| - 1], ys[..i] + ys[i + 1..], f);
      TotalConcat(ys[..i], ys[i + 1..], f);
      TotalConcat(ys[..i] + [ys[i]], ys[i + 1..], f);
      TotalConcat(ys[..i], [ys[i]], f);
      assert Total([ys[i]], f) == f(ys[i]);
    }
  }

  /** Nor does a collection, up to its own order. */
  lemma {:induction false} CollectOfPermutation<T, U>(xs: seq<T>, ys: seq<T>, f: T -> seq<U>)
    requires multiset(xs) == multiset(ys)
    ensures multiset(Collect(xs, f)) == multiset(Collect(ys, f))
  {
    if xs == [] {
      assert |multiset(ys)| == 0;
    } else {
      var i := FindLast(xs, ys);
      CollectOfPermutation(xs[..|xs| - 1], ys[..i] + ys[i + 1..], f);
      CollectConcat(ys[..i], ys[i + 1..], f);
      CollectConcat(ys[..i] + [ys[i]], ys[i + 1..], f);
      CollectConcat(ys[..i], [ys[i]], f);
      assert Collect([ys[i]], f) == f(ys[i]);
    }
  }

  // ---- the rank of a value by counting ----

  /** What one value contributes to the rank of v: a whole if smaller, a half if equal. */
  function Weight(u: real, v: real): real {
    if u < v then 1.0 else if u == v then 0.5 else 0.0
  }

  function WeightFor(v: real): real -> real {
    u => Weight(u, v)
  }

  function CountRank(vals: seq<real>, v: real): real {
    Total(vals, WeightFor(v)) + 0.5
  }

  function Smaller(vals: seq<real>, v: real): nat {
    if vals == [] then 0
    else Smaller(vals[..|vals| - 1], v) + if vals[|vals| - 1] < v then 1 else 0
  }

  function Equal(vals: seq<real>, v: real): nat {
    if vals == [] then 0
    else Equal(vals[..|vals| - 1], v) + if vals[|vals| - 1] == v then 1 else 0
  }

  /** It is #{smaller} + (#{equal} + 1) / 2. */
  lemma {:induction false} RankCounts(vals: seq<real>, v: real)
    ensures CountRank(vals, v) == Smaller(vals, v) as real + (Equal(vals, v) as real + 1.0) / 2.0
  {
    if vals != [] {
      RankCounts(vals[..|vals| - 1], v);
    }
  }

  function RankIn(vals: seq<real>): real -> real {
    v => CountRank(vals, v)
  }

  /** A new value raises the ranks of the larger ones by one and of the equal ones by a half. */
  lemma {:induction false} RanksWithOneMore(vals: seq<real>, y: real, part: seq<real>)
    ensures Total(part, RankIn(vals + [y])) == Total(part, RankIn(vals)) + |part| as real - Total(part, WeightFor(y))
  {
    if part != [] {
      var x := part[|part| - 1];
      RanksWithOneMore(vals, y, part[..|part| - 1]);
      TotalConcat(vals, [y], WeightFor(x));
      assert Total([y], WeightFor(x)) == Weight(y, x) == 1.0 - Weight(x, y);
    }
  }

  /** All ranks together make n (n + 1) / 2, whatever the ties. */
  lemma {:induction false} RankTotal(vals: seq<real>)
    ensures Total(vals, RankIn(vals)) == (|vals| * (|vals| + 1)) as real / 2.0
  {
    if vals != [] {
      var n := |vals| - 1;
      var front, y := vals[..n], vals[n];
      assert vals == front + [y];
      RankTotal(front);
      RanksWithOneMore(front, y, front);
      TotalConcat(front, [y], WeightFor(y));
      assert Total([y], WeightFor(y)) == 0.5;
      assert Total(vals, RankIn(vals)) == Total(front, RankIn(vals)) + CountRank(vals, y);
      assert (n + 1) * (n + 2) == n * (n + 1) + 2 * (n + 1);
    }
  }

  // ---- runs of equal values in sorted order ----

  lemma {:induction false} EvenWeights(vals: seq<real>, v: real, w: real)
    requires forall k :: 0 <= k < |vals| ==> Weight(vals[k], v) == w
    ensures Total(vals, WeightFor(v)) == w * |vals| as real
  {
    if vals != [] {
      EvenWeights(vals[..|vals| - 1], v, w);
      assert w * |vals| as real == w * (|vals| - 1) as real + w;
    }
  }

  /** A run of equal values from i to j gets the average of the ranks i + 1 to j + 1. */
  lemma RankOfRun(vals: seq<real>, i: nat, j: nat)
    requires i <= j < |vals|
    requires forall k :: 0 <= k < i ==> vals[k] < vals[i]
    requires forall k :: i <= k <= j ==> vals[k] == vals[i]
    requires forall k :: j < k < |vals| ==> vals[i] < vals[k]
    ensures CountRank(vals, vals[i]) == (i + j) as real / 2.0 + 1.0
  {
    var v := vals[i];
    var low, run, high := vals[..i], vals[i..j + 1], vals[j + 1..];
    assert vals == low + run + high;
    TotalConcat(low + run, high, WeightFor(v));
    TotalConcat(low, run, WeightFor(v));
    EvenWeights(low, v, 1.0);
    EvenWeights(run, v, 0.5);
    EvenWeights(high, v, 0.0);
  }

  // ---- the ranking loop ----

  /** A value with its group and its place there. */
  datatype Item = Item(value: real, group: nat, place: nat)

  function ValueOf(x: Item): real {
    x.value
  }

  function ValueList(x: Item): seq<real> {
    [x.value]
  }

  function Values(items: seq<Item>): seq<real> {
    Collect(items, ValueList)
  }

  lemma {:induction false} ValuesAt(items: seq<Item>)
    ensures |Values(items)| == |items|
    ensures forall k :: 0 <= k < |items| ==> Values(items)[k] == items[k].value
  {
    if items != [] {
      ValuesAt(items[..|items| - 1]);
    }
  }

  function OwnList(group: seq<real>): seq<real> {
    group
  }

  function Flatten(groups: seq<seq<real>>): seq<real> {
    Collect(groups, OwnList)
  }

  function InGroup(g: nat): Item -> seq<real> {
    (x: Item) => if x.group == g then [x.value] else []
  }

  /** Values of one group, in list order. */
  function GroupValues(items: seq<Item>, g: nat): seq<real> {
    Collect(items, InGroup(g))
  }

  lemma OneMoreValue(items: seq<Item>, item: Item, g: nat)
    ensures GroupValues(items + [item], g) == GroupValues(items, g) + if item.group == g then [item.value] else []
    ensures Values(items + [item]) == Values(items) + [item.value]
  {
    assert (items + [item])[..|items|] == items;
  }

  function RankList(vals: seq<real>): real -> seq<real> {
    v => [CountRank(vals, v)]
  }

  /** The ranks of some values within all of them. */
  function RanksAmong(part: seq<real>, vals: seq<real>): seq<real> {
    Collect(part, RankList(vals))
  }

  lemma OneMoreRank(items: seq<Item>, item: Item, g: nat, vals: seq<real>)
    ensures RanksAmong(GroupValues(items + [item], g), vals)
         == RanksAmong(GroupValues(items, g), vals) + if item.group == g then [CountRank(vals, item.value)] else []
  {
    OneMoreValue(items, item, g);
    if item.group == g {
      CollectConcat(GroupValues(items, g), [item.value], RankList(vals));
      assert Collect([item.value], RankList(vals)) == [CountRank(vals, item.value)];
    } else {
      assert GroupValues(items, g) + [] == GroupValues(items, g);
    }
  }

  /** The items list every value of every group once. */
  ghost predicate Lists(items: seq<Item>, groups: seq<seq<real>>) {
    && (forall k :: 0 <= k < |items| ==> items[k].group < |groups|)
    && (forall g: nat :: g < |groups| ==> multiset(GroupValues(items, g)) == multiset(groups[g]))
    && multiset(Values(items)) == multiset(Flatten(groups))
  }

  lemma ListsPermuted(xs: seq<Item>, ys: seq<Item>, groups: seq<seq<real>>)
    requires multiset(xs) == multiset(ys) && Lists(xs, groups)
    ensures Lists(ys, groups)
  {
    CollectOfPermutation(xs, ys, ValueList);
    forall g: nat | g < |groups| ensures multiset(GroupValues(ys, g)) == multiset(groups[g]) {
      CollectOfPermutation(xs, ys, InGroup(g));
    }
    forall k | 0 <= k < |ys| ensures ys[k].group < |groups| {
      assert ys[k] in multiset(xs);
    }
  }

  /** The items so far: the values of the first n groups. */
  ghost predicate ListsFirst(items: seq<Item>, groups: seq<seq<real>>, n: nat) {
    && n <= |groups|
    && (forall k :: 0 <= k < |items| ==> items[k].group < n)
    && (forall g: nat :: g < |groups| ==> GroupValues(items, g) == if g < n then groups[g] else [])
    && Values(items) == Flatten(groups[..n])
  }

  method ListGroup(items: seq<Item>, group: seq<real>, gIdx: nat) returns (r: seq<Item>)
    ensures Adds(r, items, group, gIdx)
  {
    r := items;
    for vIdx := 0 to |group|
      invariant |r| == |items| + vIdx && r[..|items|] == items
      invariant forall k :: |items| <= k < |r| ==> r[k].group == gIdx
      invariant forall g: nat :: GroupValues(r, g) == GroupValues(items, g) + if g == gIdx then group[..vIdx] else []
      invariant Values(r) == Values(items) + group[..vIdx]
    {
      var item := Item(group[vIdx], gIdx, vIdx);
      assert group[..vIdx + 1] == group[..vIdx] + [item.value];
      forall g: nat
        ensures GroupValues(r + [item], g) == GroupValues(r, g) + if g == gIdx then [item.value] else []
      {
        OneMoreValue(r, item, g);
      }
      OneMoreValue(r, item, gIdx);
      r := r + [item];
    }
    assert group[..|group|] == group;
  }

  /** An extended list that adds one group's items. */
  ghost predicate Adds(r: seq<Item>, items: seq<Item>, group: seq<real>, gIdx: nat) {
    && |r| == |items| + |group| && r[..|items|] == items
    && (forall k :: |items| <= k < |r| ==> r[k].group == gIdx)
    && (forall g: nat :: GroupValues(r, g) == GroupValues(items, g) + if g == gIdx then group else [])
    && Values(r) == Values(items) + group
  }

  lemma OneMoreGroup(items: seq<Item>, groups: seq<seq<real>>, n: nat, r: seq<Item>)
    requires n < |groups| && ListsFirst(items, groups, n) && Adds(r, items, groups[n], n)
    ensures ListsFirst(r, groups, n + 1)
  {
    assert Values(r) == Flatten(groups[..n + 1]) by {
      assert groups[..n + 1][..n] == groups[..n];
    }
    forall k | 0 <= k < |r| ensures r[k].group < n + 1 {
      if k < |items| {
        assert r[k] == r[..|items|][k];
      }
    }
  }

  method ListItems(groups: seq<seq<real>>) returns (items: seq<Item>)
    ensures Lists(items, groups)
  {
    items := [];
    for gIdx := 0 to |groups|
      invariant ListsFirst(items, groups, gIdx)
    {
      var more := ListGroup(items, groups[gIdx], gIdx);
      OneMoreGroup(items, groups, gIdx, more);
      items := more;
    }
    assert groups[..|groups|] == groups;
  }

  function WantedRanks(sorted: seq<Item>): seq<real> {
    seq(|sorted|, k requires 0 <= k < |sorted| => CountRank(Values(sorted), sorted[k].value))
  }

  /** Ranks every value of the sorted list, run by run. */
  method RankSorted(sorted: seq<Item>) returns (ranks: array<real>)
    requires SortedBy(ValueOf, sorted)
    ensures ranks.Length == |sorted|
    ensures forall k :: 0 <= k < |sorted| ==> ranks[k] == CountRank(Values(sorted), sorted[k].value)
  {
    var n := |sorted|;
    ranks := new real[n](_ => 0.0);
    ghost var wanted := WantedRanks(sorted);
    var i := 0;
    while i < n
      invariant 0 <= i <= n
      invariant 0 < i < n ==> sorted[i - 1].value < sorted[i].value
      invariant forall k :: 0 <= k < i ==> ranks[k] == wanted[k]
    {
      var j := i;
      while j < n - 1 && sorted[j].value == sorted[j + 1].value
        invariant i <= j < n
        invariant sorted[j].value == sorted[i].value
      {
        j := j + 1;
      }
      var avgRank := (i + j) as real / 2.0 + 1.0;
      RankOfSortedRun(sorted, wanted, i, j, avgRank);
      for k := i to j + 1
        invariant forall m :: 0 <= m < k ==> ranks[m] == wanted[m]
      {
        ranks[k] := avgRank;
      }
      i := j + 1;
    }
  }

  /** The run of equal values from i to j shares the average of its places. */
  lemma RankOfSortedRun(sorted: seq<Item>, wanted: seq<real>, i: nat, j: nat, avgRank: real)
    requires SortedBy(ValueOf, sorted) && wanted == WantedRanks(sorted) && i <= j < |sorted|
    requires i > 0 ==> sorted[i - 1].value < sorted[i].value
    requires sorted[j].value == sorted[i].value
    requires j + 1 < |sorted| ==> sorted[j].value != sorted[j + 1].value
    requires avgRank == (i + j) as real / 2.0 + 1.0
    ensures forall k :: i <= k <= j ==> avgRank == wanted[k]
    ensures j + 1 < |sorted| ==> sorted[j].value < sorted[j + 1].value
  {
    var vals := Values(sorted);
    ValuesAt(sorted);
    forall k, m | 0 <= k <= m < |sorted| ensures vals[k] <= vals[m] {
      assert ValueOf(sorted[k]) <= ValueOf(sorted[m]);
    }
    SortedRun(vals, i, j);
    RankOfRun(vals, i, j);
    forall k | i <= k <= j ensures avgRank == wanted[k] {
      assert sorted[k].value == vals[k] == vals[i];
    }
  }

  lemma SortedRun(vals: seq<real>, i: nat, j: nat)
    requires i <= j < |vals| && forall k, m :: 0 <= k <= m < |vals| ==> vals[k] <= vals[m]
    requires i > 0 ==> vals[i - 1] < vals[i]
    requires vals[j] == vals[i] && (j + 1 < |vals| ==> vals[j] != vals[j + 1])
    ensures forall k :: 0 <= k < i ==> vals[k] < vals[i]
    ensures forall k :: i <= k <= j ==> vals[k] == vals[i]
    ensures forall k :: j < k < |vals| ==> vals[i] < vals[k]
    ensures j + 1 < |vals| ==> vals[j] < vals[j + 1]
  {
  }

  ghost predicate Ascending(xs: seq<real>) {
    forall i, j :: 0 <= i < j < |xs| ==> xs[i] <= xs[j]
  }

  /** The groups' ranks: each group has the counting ranks of its own values in ascending order. */
  ghost predicate Ranked(groups: seq<seq<real>>, groupRanks: seq<seq<real>>) {
    && |groupRanks| == |groups|
    && forall g :: 0 <= g < |groups| ==>
         && multiset(groupRanks[g]) == multiset(RanksAmong(groups[g], Flatten(groups)))
         && Ascending(groupRanks[g])
  }

  lemma {:induction false} CountRankGrows(vals: seq<real>, u: real, v: real)
    requires u <= v
    ensures Total(vals, WeightFor(u)) <= Total(vals, WeightFor(v))
  {
    if vals != [] {
      CountRankGrows(vals[..|vals| - 1], u, v);
      var x := vals[|vals| - 1];
      assert WeightFor(u)(x) == Weight(x, u) <= Weight(x, v) == WeightFor(v)(x);
    }
  }

  lemma {:induction false} RanksBelow(items: seq<Item>, g: nat, vals: seq<real>, v: real)
    requires forall k :: 0 <= k < |items| ==> items[k].value <= v
    ensures forall r :: r in RanksAmong(GroupValues(items, g), vals) ==> r <= CountRank(vals, v)
  {
    if items != [] {
      var front, item := items[..|items| - 1], items[|items| - 1];
      assert items == front + [item];
      RanksBelow(front, g, vals, v);
      CountRankGrows(vals, item.value, v);
      OneMoreRank(front, item, g, vals);
    }
  }

  lemma AscendingAppend(xs: seq<real>, top: real)
    requires Ascending(xs) && forall x :: x in xs ==> x <= top
    ensures Ascending(xs + [top])
  {
    forall i, j | 0 <= i < j < |xs + [top]| ensures (xs + [top])[i] <= (xs + [top])[j] {
      assert xs[i] in xs;
    }
  }

  lemma {:induction false} RanksAscend(items: seq<Item>, g: nat, vals: seq<real>)
    requires SortedBy(ValueOf, items)
    ensures Ascending(RanksAmong(GroupValues(items, g), vals))
  {
    if items != [] {
      var front, item := items[..|items| - 1], items[|items| - 1];
      assert items == front + [item];
      RanksAscend(front, g, vals);
      forall k | 0 <= k < |front| ensures front[k].value <= item.value {
        assert ValueOf(items[k]) <= ValueOf(items[|items| - 1]);
      }
      RanksBelow(front, g, vals, item.value);
      AscendingAppend(RanksAmong(GroupValues(front, g), vals), CountRank(vals, item.value));
      OneMoreRank(front, item, g, vals);
    }
  }

  /** The first k sorted items have handed their ranks to their groups. */
  ghost predicate Handed(groupRanks: seq<seq<real>>, items: seq<Item>, vals: seq<real>) {
    forall g: nat :: g < |groupRanks| ==> groupRanks[g] == RanksAmong(GroupValues(items, g), vals)
  }

  lemma HandOne(groupRanks: seq<seq<real>>, items: seq<Item>, vals: seq<real>, item: Item)
    requires Handed(groupRanks, items, vals) && item.group < |groupRanks|
    ensures Handed(groupRanks[item.group := groupRanks[item.group] + [CountRank(vals, item.value)]],
                   items + [item], vals)
  {
    forall g: nat | g < |groupRanks|
      ensures RanksAmong(GroupValues(items + [item], g), vals)
           == groupRanks[g] + if item.group == g then [CountRank(vals, item.value)] else []
    {
      OneMoreRank(items, item, g, vals);
    }
  }

  lemma HandNext(groupRanks: seq<seq<real>>, sorted: seq<Item>, vals: seq<real>, k: nat)
    requires k < |sorted| && sorted[k].group < |groupRanks| && Handed(groupRanks, sorted[..k], vals)
    ensures var item := sorted[k];
            Handed(groupRanks[item.group := groupRanks[item.group] + [CountRank(vals, item.value)]],
                   sorted[..k + 1], vals)
  {
    assert sorted[..k + 1] == sorted[..k] + [sorted[k]];
    HandOne(groupRanks, sorted[..k], vals, sorted[k]);
  }

  lemma HandedAll(groupRanks: seq<seq<real>>, items: seq<Item>, groups: seq<seq<real>>)
    requires Handed(groupRanks, items, Flatten(groups)) && |groupRanks| == |groups| && Lists(items, groups)
    requires SortedBy(ValueOf, items)
    ensures Ranked(groups, groupRanks)
  {
    forall g: nat | g < |groups|
      ensures multiset(groupRanks[g]) == multiset(RanksAmong(groups[g], Flatten(groups)))
      ensures Ascending(groupRanks[g])
    {
      RanksAscend(items, g, Flatten(groups));
      CollectOfPermutation(GroupValues(items, g), groups[g], RankList(Flatten(groups)));
    }
  }

  lemma SameRank(sorted: seq<Item>, groups: seq<seq<real>>, v: real)
    requires Lists(sorted, groups)
    ensures CountRank(Values(sorted), v) == CountRank(Flatten(groups), v)
  {
    TotalOfPermutation(Values(sorted), Flatten(groups), WeightFor(v));
  }

  method HandOut(sorted: seq<Item>, ranks: array<real>, groups: seq<seq<real>>) returns (groupRanks: seq<seq<real>>)
    requires Lists(sorted, groups) && SortedBy(ValueOf, sorted) && ranks.Length == |sorted|
    requires forall k :: 0 <= k < |sorted| ==> ranks[k] == CountRank(Values(sorted), sorted[k].value)
    ensures Ranked(groups, groupRanks)
  {
    groupRanks := seq(|groups|, _ => []);
    for k := 0 to |sorted|
      invariant |groupRanks| == |groups|
      invariant Handed(groupRanks, sorted[..k], Flatten(groups))
    {
      var item := sorted[k];
      SameRank(sorted, groups, item.value);
      HandNext(groupRanks, sorted, Flatten(groups), k);
      groupRanks := groupRanks[item.group := groupRanks[item.group] + [ranks[k]]];
    }
    assert sorted[..|sorted|] == sorted;
    HandedAll(groupRanks, sorted, groups);
  }

  method RankAll(groups: seq<seq<real>>) returns (groupRanks: seq<seq<real>>)
    ensures Ranked(groups, groupRanks)
  {
    var allVals := ListItems(groups);
    var sorted := SortBy(ValueOf, allVals);
    ListsPermuted(allVals, sorted, groups);
    var ranks := RankSorted(sorted);
    groupRanks := HandOut(sorted, ranks, groups);
  }

  // ---- the statistic ----

  function Own(x: real): real {
    x
  }

  function Mean(values: seq<real>): real {
    if values == [] then 0.0 else Total(values, Own) / |values| as real
  }

  function Size(groups: seq<seq<real>>): nat {
    if groups == [] then 0 else Size(groups[..|groups| - 1]) + |groups[|groups| - 1]|
  }

  /** What one group adds: its size times the squared distance of its mean rank from the centre. */
  function Spread(size: nat, meanRank: real, center: real): real {
    size as real * ((meanRank - center) * (meanRank - center))
  }

  function SpreadSum(groups: seq<seq<real>>, groupRanks: seq<seq<real>>, center: real): real
    requires |groupRanks| == |groups|
  {
    if groups == [] then 0.0
    else
      var last := |groups| - 1;
      SpreadSum(groups[..last], groupRanks[..last], center) + Spread(|groups[last]|, Mean(groupRanks[last]), center)
  }

  function HStatistic(groups: seq<seq<real>>, groupRanks: seq<seq<real>>): real
    requires |groupRanks| == |groups| && Size(groups) > 0
  {
    Scaled(Size(groups) as real, SpreadSum(groups, groupRanks, Center(Size(groups))))
  }

  /** The mean of all ranks. */
  function Center(n: nat): real {
    (n as real + 1.0) / 2.0
  }

  function Scaled(n: real, spread: real): real
    requires n > 0.0
  {
    12.0 / (n * (n + 1.0)) * spread
  }

  lemma ScaledNonNegative(n: real, spread: real)
    requires n > 0.0 && spread >= 0.0
    ensures Scaled(n, spread) >= 0.0
  {
    var d := n * (n + 1.0);
    assert d > 0.0;
    var q := 12.0 / d;
    assert q >= 0.0;
    assert q * spread >= 0.0;
  }

  lemma {:induction false} SpreadSumNonNegative(groups: seq<seq<real>>, groupRanks: seq<seq<real>>, center: real)
    requires |groupRanks| == |groups|
    ensures SpreadSum(groups, groupRanks, center) >= 0.0
  {
    if groups != [] {
      var last := |groups| - 1;
      SpreadSumNonNegative(groups[..last], groupRanks[..last], center);
      var d := Mean(groupRanks[last]) - center;
      assert d * d >= 0.0;
    }
  }

  lemma HNonNegative(groups: seq<seq<real>>, groupRanks: seq<seq<real>>)
    requires |groupRanks| == |groups| && Size(groups) > 0
    ensures HStatistic(groups, groupRanks) >= 0.0
  {
    var center := Center(Size(groups));
    SpreadSumNonNegative(groups, groupRanks, center);
    ScaledNonNegative(Size(groups) as real, SpreadSum(groups, groupRanks, center));
  }

  /** The same groups with their members in any order. */
  ghost predicate Reordered(a: seq<seq<real>>, b: seq<seq<real>>) {
    |a| == |b| && forall g :: 0 <= g < |a| ==> multiset(a[g]) == multiset(b[g])
  }

  lemma {:induction false} ReorderedFlatten(a: seq<seq<real>>, b: seq<seq<real>>)
    requires Reordered(a, b)
    ensures multiset(Flatten(a)) == multiset(Flatten(b)) && Size(a) == Size(b)
  {
    if a != [] {
      var last := |a| - 1;
      ReorderedFlatten(a[..last], b[..last]);
      assert |multiset(a[last])| == |multiset(b[last])|;
    }
  }

  lemma SameMeanRank(a: seq<seq<real>>, b: seq<seq<real>>, ranksA: seq<seq<real>>, ranksB: seq<seq<real>>, g: nat)
    requires Reordered(a, b) && Ranked(a, ranksA) && Ranked(b, ranksB) && g < |a|
    ensures Mean(ranksA[g]) == Mean(ranksB[g]) && |a[g]| == |b[g]|
  {
    ReorderedFlatten(a, b);
    SameRankFunction(Flatten(a), Flatten(b), b[g]);
    CollectOfPermutation(a[g], b[g], RankList(Flatten(a)));
    assert multiset(ranksA[g]) == multiset(ranksB[g]);
    assert |multiset(ranksA[g])| == |multiset(ranksB[g])| && |multiset(a[g])| == |multiset(b[g])|;
    TotalOfPermutation(ranksA[g], ranksB[g], Own);
  }

  lemma {:induction false} SameRankFunction(valsA: seq<real>, valsB: seq<real>, part: seq<real>)
    requires multiset(valsA) == multiset(valsB)
    ensures RanksAmong(part, valsA) == RanksAmong(part, valsB)
  {
    if part != [] {
      SameRankFunction(valsA, valsB, part[..|part| - 1]);
      TotalOfPermutation(valsA, valsB, WeightFor(part[|part| - 1]));
    }
  }

  lemma {:induction false} SameSpread(a: seq<seq<real>>, b: seq<seq<real>>, ranksA: seq<seq<real>>,
                                      ranksB: seq<seq<real>>, center: real)
    requires |a| == |b| == |ranksA| == |ranksB|
    requires forall g :: 0 <= g < |a| ==> Mean(ranksA[g]) == Mean(ranksB[g]) && |a[g]| == |b[g]|
    ensures SpreadSum(a, ranksA, center) == SpreadSum(b, ranksB, center)
  {
    if a != [] {
      var last := |a| - 1;
      SameSpread(a[..last], b[..last], ranksA[..last], ranksB[..last], center);
    }
  }

  /** The statistic does not see the order of members within groups. */
  lemma HIgnoresOrder(a: seq<seq<real>>, b: seq<seq<real>>, ranksA: seq<seq<real>>, ranksB: seq<seq<real>>)
    requires Reordered(a, b) && Ranked(a, ranksA) && Ranked(b, ranksB) && Size(a) > 0
    ensures Size(b) == Size(a) && HStatistic(a, ranksA) == HStatistic(b, ranksB)
  {
    ReorderedFlatten(a, b);
    SpreadIgnoresOrder(a, b, ranksA, ranksB, Center(Size(a)));
  }

  lemma SpreadIgnoresOrder(a: seq<seq<real>>, b: seq<seq<real>>, ranksA: seq<seq<real>>, ranksB: seq<seq<real>>,
                           center: real)
    requires Reordered(a, b) && Ranked(a, ranksA) && Ranked(b, ranksB)
    ensures SpreadSum(a, ranksA, center) == SpreadSum(b, ranksB, center)
  {
    forall g: nat | g < |a| ensures Mean(ranksA[g]) == Mean(ranksB[g]) && |a[g]| == |b[g]| {
      SameMeanRank(a, b, ranksA, ranksB, g);
    }
    SameSpread(a, b, ranksA, ranksB, center);
  }

  /** The groups' ranks keep the group sizes and make n (n + 1) / 2 in all. */
  lemma RanksAddUp(groups: seq<seq<real>>, groupRanks: seq<seq<real>>)
    requires Ranked(groups, groupRanks)
    ensures forall g :: 0 <= g < |groups| ==> |groupRanks[g]| == |groups[g]|
    ensures Total(Flatten(groupRanks), Own) == (Size(groups) * (Size(groups) + 1)) as real / 2.0
  {
    var vals := Flatten(groups);
    forall g: nat | g < |groups| ensures |groupRanks[g]| == |groups[g]| {
      RanksOfPart(groups[g], vals);
      assert |multiset(groupRanks[g])| == |multiset(RanksAmong(groups[g], vals))|;
    }
    FlattenRanks(groups, groupRanks, vals);
    RankTotal(vals);
    FlattenSize(groups);
  }

  lemma {:induction false} RanksOfPart(part: seq<real>, vals: seq<real>)
    ensures |RanksAmong(part, vals)| == |part|
    ensures Total(RanksAmong(part, vals), Own) == Total(part, RankIn(vals))
  {
    if part != [] {
      RanksOfPart(part[..|part| - 1], vals);
      var ranks := RanksAmong(part, vals);
      assert ranks[..|ranks| - 1] == RanksAmong(part[..|part| - 1], vals);
    }
  }

  lemma {:induction false} FlattenRanks(groups: seq<seq<real>>, groupRanks: seq<seq<real>>, vals: seq<real>)
    requires |groupRanks| == |groups|
    requires forall g :: 0 <= g < |groups| ==> multiset(groupRanks[g]) == multiset(RanksAmong(groups[g], vals))
    ensures Total(Flatten(groupRanks), Own) == Total(Flatten(groups), RankIn(vals))
  {
    if groups != [] {
      var last := |groups| - 1;
      FlattenRanks(groups[..last], groupRanks[..last], vals);
      RanksOfPart(groups[last], vals);
      TotalOfPermutation(groupRanks[last], RanksAmong(groups[last], vals), Own);
      TotalConcat(Flatten(groupRanks[..last]), groupRanks[last], Own);
      TotalConcat(Flatten(groups[..last]), groups[last], RankIn(vals));
    }
  }

  lemma {:induction false} FlattenSize(groups: seq<seq<real>>)
    ensures |Flatten(groups)| == Size(groups)
  {
    if groups != [] {
      FlattenSize(groups[..|groups| - 1]);
    }
  }

  // ---- how large the statistic can be ----

  function SquareOf(x: real): real {
    x * x
  }

  function RankSquare(vals: seq<real>): real -> real {
    v => SquareOf(CountRank(vals, v))
  }

  function SumOfSquares(n: nat): real {
    if n == 0 then 0.0 else SumOfSquares(n - 1) + SquareOf(n as real)
  }

  lemma {:induction false} SumOfSquaresClosed(n: nat)
    ensures SumOfSquares(n) == (n * (n + 1) * (2 * n + 1)) as real / 6.0
  {
    if n > 0 {
      SumOfSquaresClosed(n - 1);
      PyramidGrows(n - 1);
      IntegerSquare(n);
    }
  }

  lemma PyramidGrows(k: int)
    ensures (k + 1) * (k + 2) * (2 * (k + 1) + 1) == k * (k + 1) * (2 * k + 1) + 6 * ((k + 1) * (k + 1))
  {
  }

  lemma IntegerSquare(n: int)
    ensures SquareOf(n as real) == (n * n) as real
  {
  }

  /** n times k, one by one. */
  function Times(n: nat, k: real): real {
    if n == 0 then 0.0 else Times(n - 1, k) + k
  }

  lemma {:induction false} TimesIs(n: nat, k: real)
    ensures Times(n, k) == n as real * k
  {
    if n > 0 {
      TimesIs(n - 1, k);
    }
  }

  /** Where a largest value joins, the squared ranks of its equals grow and the others stay. */
  lemma {:induction false} SquaresWithOneMore(front: seq<real>, y: real, part: seq<real>, more: real)
    requires forall k :: 0 <= k < |part| ==> part[k] <= y
    requires more == CountRank(front, y) + 0.25
    ensures Total(part, RankSquare(front + [y])) == Total(part, RankSquare(front)) + Times(Equal(part, y), more)
  {
    if part != [] {
      SquaresWithOneMore(front, y, part[..|part| - 1], more);
      SquareWithOneMore(front, y, part[|part| - 1], more);
    }
  }

  lemma SquareWithOneMore(front: seq<real>, y: real, x: real, more: real)
    requires x <= y && more == CountRank(front, y) + 0.25
    ensures RankSquare(front + [y])(x) == RankSquare(front)(x) + if x == y then more else 0.0
  {
    RankWithOneMore(front, y, x);
  }

  lemma RankWithOneMore(front: seq<real>, y: real, x: real)
    requires x <= y
    ensures x < y ==> CountRank(front + [y], x) == CountRank(front, x)
    ensures x == y ==> SquareOf(CountRank(front + [y], x)) == SquareOf(CountRank(front, x)) + CountRank(front, x) + 0.25
  {
    TotalConcat(front, [y], WeightFor(x));
    assert Total([y], WeightFor(x)) == Weight(y, x);
  }

  lemma NextMultiple(n: nat, k: real)
    ensures (n + 1) as real * k == n as real * k + k
  {
  }

  lemma {:induction false} SmallerOrEqual(vals: seq<real>, y: real)
    requires forall k :: 0 <= k < |vals| ==> vals[k] <= y
    ensures Smaller(vals, y) + Equal(vals, y) == |vals|
  {
    if vals != [] {
      SmallerOrEqual(vals[..|vals| - 1], y);
    }
  }

  lemma TiesOnlyLower(n: real, ties: real, more: real, own: real)
    requires ties >= 0.0 && own == n + 1.0 - ties / 2.0 && more == own - 0.25
    ensures ties * more + SquareOf(own) <= SquareOf(n + 1.0)
  {
    var m := n + 1.0;
    assert SquareOf(own) == m * m - ties * m + ties * ties / 4.0;
    assert ties * more == ties * m - ties * ties / 2.0 - ties / 4.0;
    assert ties * ties >= 0.0;
  }

  lemma RankOfLargest(front: seq<real>, y: real)
    requires forall k :: 0 <= k < |front| ==> front[k] <= y
    ensures var ties := Equal(front, y) as real;
            CountRank(front, y) == |front| as real - ties + (ties + 1.0) / 2.0
  {
    RankCounts(front, y);
    SmallerOrEqual(front, y);
  }

  /** What the largest value adds to its equals and its own squared rank are at most n^2. */
  lemma LargestAdds(front: seq<real>, y: real, more: real, own: real)
    requires forall k :: 0 <= k < |front| ==> front[k] <= y
    requires more == CountRank(front, y) + 0.25 && own == CountRank(front, y) + 0.5
    ensures Times(Equal(front, y), more) + SquareOf(own) <= SquareOf((|front| + 1) as real)
  {
    RankOfLargest(front, y);
    TimesIs(Equal(front, y), more);
    TiesOnlyLower(|front| as real, Equal(front, y) as real, more, own);
  }

  lemma OwnRank(front: seq<real>, y: real)
    ensures CountRank(front + [y], y) == CountRank(front, y) + 0.5
  {
    TotalConcat(front, [y], WeightFor(y));
    assert Total([y], WeightFor(y)) == 0.5;
  }

  lemma LastSquare(front: seq<real>, y: real, own: real)
    requires own == CountRank(front, y) + 0.5
    ensures Total(front + [y], RankSquare(front + [y])) == Total(front, RankSquare(front + [y])) + SquareOf(own)
  {
    OwnRank(front, y);
    assert (front + [y])[..|front|] == front;
  }

  /** The squared ranks of a sorted list make at most 1 + 4 + ... + n^2. */
  lemma {:induction false} SquareTotal(vals: seq<real>)
    requires Ascending(vals)
    ensures Total(vals, RankSquare(vals)) <= SumOfSquares(|vals|)
  {
    if vals != [] {
      var n := |vals| - 1;
      var front, y := vals[..n], vals[n];
      var more, own := CountRank(front, y) + 0.25, CountRank(front, y) + 0.5;
      assert vals == front + [y];
      SquareTotal(front);
      SquaresWithOneMore(front, y, front, more);
      LargestAdds(front, y, more, own);
      LastSquare(front, y, own);
    }
  }

  function Itself(x: real): real {
    x
  }

  lemma {:induction false} SquaresSame(part: seq<real>, valsA: seq<real>, valsB: seq<real>)
    requires multiset(valsA) == multiset(valsB)
    ensures Total(part, RankSquare(valsA)) == Total(part, RankSquare(valsB))
  {
    if part != [] {
      SquaresSame(part[..|part| - 1], valsA, valsB);
      TotalOfPermutation(valsA, valsB, WeightFor(part[|part| - 1]));
    }
  }

  lemma SquareTotalOfAny(vals: seq<real>)
    ensures Total(vals, RankSquare(vals)) <= SumOfSquares(|vals|)
  {
    var sorted := SortBy(Itself, vals);
    forall i, j | 0 <= i < j < |sorted| ensures sorted[i] <= sorted[j] {
      assert Itself(sorted[i]) <= Itself(sorted[j]);
    }
    SquareTotal(sorted);
    SquaresSame(vals, vals, sorted);
    TotalOfPermutation(vals, sorted, RankSquare(sorted));
    assert |multiset(sorted)| == |multiset(vals)|;
  }

  /** Sum of squared distances from c, multiplied out. */
  function Around(size: nat, squares: real, sum: real, c: real): real {
    squares - 2.0 * c * sum + size as real * (c * c)
  }

  lemma SquareOfDifference(x: real, c: real)
    ensures x * x - 2.0 * c * x + c * c >= 0.0
  {
    var d := x - c;
    assert d * d >= 0.0;
    assert d * d == x * x - 2.0 * c * x + c * c;
  }

  lemma {:induction false} AroundNonNegative(xs: seq<real>, c: real)
    ensures Around(|xs|, Total(xs, SquareOf), Total(xs, Own), c) >= 0.0
  {
    if xs != [] {
      var front, x := xs[..|xs| - 1], xs[|xs| - 1];
      AroundNonNegative(front, c);
      NextMultiple(|front|, c * c);
      SquareOfDifference(x, c);
      assert 2.0 * c * (Total(front, Own) + x) == 2.0 * c * Total(front, Own) + 2.0 * c * x;
    }
  }

  lemma MeanTimes(xs: seq<real>)
    requires xs != []
    ensures |xs| as real * Mean(xs) == Total(xs, Own)
  {
  }

  /** The squared distance of the mean counts for no more than those of the members. */
  lemma MeanIsNearer(xs: seq<real>, c: real)
    ensures Spread(|xs|, Mean(xs), c) <= Around(|xs|, Total(xs, SquareOf), Total(xs, Own), c)
  {
    if xs != [] {
      AroundNonNegative(xs, Mean(xs));
      MeanTimes(xs);
      MeanSquares(|xs|, Mean(xs), Total(xs, Own), Total(xs, SquareOf), c);
    }
  }

  lemma DistanceExpanded(n: real, m: real, c: real, sum: real)
    requires n * m == sum
    ensures n * ((m - c) * (m - c)) == m * sum - 2.0 * c * sum + n * (c * c)
  {
    var d := m - c;
    assert n * d == sum - n * c;
    assert n * (d * d) == (n * d) * d;
    assert (sum - n * c) * (m - c) == sum * m - sum * c - c * (n * m) + n * (c * c);
  }

  lemma MeanSquares(size: nat, m: real, sum: real, squares: real, c: real)
    requires size as real * m == sum && Around(size, squares, sum, m) >= 0.0
    ensures Spread(size, m, c) <= Around(size, squares, sum, c)
  {
    DistanceExpanded(size as real, m, c, sum);
    AroundMean(size, m, sum, squares);
  }

  lemma AroundMean(size: nat, m: real, sum: real, squares: real)
    requires size as real * m == sum
    ensures Around(size, squares, sum, m) == squares - m * sum
  {
    assert size as real * (m * m) == m * sum;
    assert 2.0 * m * sum == m * sum + m * sum;
  }

  lemma {:induction false} RanksSquared(part: seq<real>, vals: seq<real>)
    ensures Total(RanksAmong(part, vals), SquareOf) == Total(part, RankSquare(vals))
  {
    if part != [] {
      RanksSquared(part[..|part| - 1], vals);
      var ranks := RanksAmong(part, vals);
      assert ranks[..|ranks| - 1] == RanksAmong(part[..|part| - 1], vals);
    }
  }

  lemma GroupBelow(part: seq<real>, ranks: seq<real>, vals: seq<real>, c: real)
    requires multiset(ranks) == multiset(RanksAmong(part, vals))
    ensures Spread(|part|, Mean(ranks), c)
         <= Around(|part|, Total(part, RankSquare(vals)), Total(part, RankIn(vals)), c)
  {
    MeanIsNearer(ranks, c);
    RanksOfPart(part, vals);
    RanksSquared(part, vals);
    assert |multiset(ranks)| == |multiset(RanksAmong(part, vals))|;
    TotalOfPermutation(ranks, RanksAmong(part, vals), SquareOf);
    TotalOfPermutation(ranks, RanksAmong(part, vals), Own);
  }

  lemma AroundAdds(n: nat, squares: real, sum: real, m: nat, moreSquares: real, moreSum: real, c: real)
    ensures Around(n + m, squares + moreSquares, sum + moreSum, c)
         == Around(n, squares, sum, c) + Around(m, moreSquares, moreSum, c)
  {
    assert (n + m) as real * (c * c) == n as real * (c * c) + m as real * (c * c);
    assert 2.0 * c * (sum + moreSum) == 2.0 * c * sum + 2.0 * c * moreSum;
  }

  /** The squared distances of all ranks from c, group by group. */
  function AroundSum(groups: seq<seq<real>>, vals: seq<real>, c: real): real {
    if groups == [] then 0.0
    else
      var last := |groups| - 1;
      AroundSum(groups[..last], vals, c)
      + Around(|groups[last]|, Total(groups[last], RankSquare(vals)), Total(groups[last], RankIn(vals)), c)
  }

  lemma {:induction false} SpreadSumBelow(groups: seq<seq<real>>, groupRanks: seq<seq<real>>, vals: seq<real>, c: real)
    requires |groupRanks| == |groups|
    requires forall g :: 0 <= g < |groups| ==> multiset(groupRanks[g]) == multiset(RanksAmong(groups[g], vals))
    ensures SpreadSum(groups, groupRanks, c) <= AroundSum(groups, vals, c)
  {
    if groups != [] {
      var last := |groups| - 1;
      SpreadSumBelow(groups[..last], groupRanks[..last], vals, c);
      GroupBelow(groups[last], groupRanks[last], vals, c);
    }
  }

  lemma {:induction false} AroundOfAll(groups: seq<seq<real>>, vals: seq<real>, c: real)
    ensures AroundSum(groups, vals, c)
         == Around(Size(groups), Total(Flatten(groups), RankSquare(vals)), Total(Flatten(groups), RankIn(vals)), c)
  {
    if groups != [] {
      var last := |groups| - 1;
      var front, part := groups[..last], groups[last];
      AroundOfAll(front, vals, c);
      TotalConcat(Flatten(front), part, RankSquare(vals));
      TotalConcat(Flatten(front), part, RankIn(vals));
      AroundAdds(Size(front), Total(Flatten(front), RankSquare(vals)), Total(Flatten(front), RankIn(vals)),
                 |part|, Total(part, RankSquare(vals)), Total(part, RankIn(vals)), c);
    }
  }

  lemma AroundAtMost(vals: seq<real>, n: nat)
    requires |vals| == n
    ensures Around(n, Total(vals, RankSquare(vals)), Total(vals, RankIn(vals)), Center(n))
         <= n as real * (n as real + 1.0) * (n as real - 1.0) / 12.0
  {
    RankTotal(vals);
    SquareTotalOfAny(vals);
    SumOfSquaresClosed(n);
    LargestSpread(n, Total(vals, RankSquare(vals)), Total(vals, RankIn(vals)));
  }

  lemma SpreadAtMost(groups: seq<seq<real>>, groupRanks: seq<seq<real>>, n: nat)
    requires Ranked(groups, groupRanks) && n == Size(groups)
    ensures SpreadSum(groups, groupRanks, Center(n)) <= n as real * (n as real + 1.0) * (n as real - 1.0) / 12.0
  {
    FlattenSize(groups);
    SpreadSumBelow(groups, groupRanks, Flatten(groups), Center(n));
    AroundOfAll(groups, Flatten(groups), Center(n));
    AroundAtMost(Flatten(groups), n);
  }

  /** Of tie-averaged ranks H is at most n - 1. */
  lemma HAtMost(groups: seq<seq<real>>, groupRanks: seq<seq<real>>)
    requires Ranked(groups, groupRanks) && Size(groups) > 0
    ensures HStatistic(groups, groupRanks) <= (Size(groups) - 1) as real
  {
    var n := Size(groups);
    SpreadAtMost(groups, groupRanks, n);
    ScaledBound(n as real, SpreadSum(groups, groupRanks, Center(n)));
  }

  lemma LargestSpread(n: nat, squares: real, sum: real)
    requires squares <= (n * (n + 1) * (2 * n + 1)) as real / 6.0 && sum == (n * (n + 1)) as real / 2.0
    ensures Around(n, squares, sum, Center(n)) <= n as real * (n as real + 1.0) * (n as real - 1.0) / 12.0
  {
    var x := n as real;
    assert (n * (n + 1)) as real == x * (x + 1.0);
    assert (n * (n + 1) * (2 * n + 1)) as real == x * (x + 1.0) * (2.0 * x + 1.0);
    var p := x * (x + 1.0);
    assert 2.0 * Center(n) * sum == p * (x + 1.0) / 2.0;
    assert x * (Center(n) * Center(n)) == p * (x + 1.0) / 4.0;
    assert p * (2.0 * x + 1.0) / 6.0 - p * (x + 1.0) / 4.0 == p * (x - 1.0) / 12.0;
  }

  lemma ScaledBound(n: real, spread: real)
    requires n > 0.0 && spread <= n * (n + 1.0) * (n - 1.0) / 12.0
    ensures Scaled(n, spread) <= n - 1.0
  {
    var d := n * (n + 1.0);
    assert d > 0.0;
    var q := 12.0 / d;
    assert q >= 0.0 && q * d == 12.0;
    assert q * spread <= q * (d * (n - 1.0) / 12.0);
    assert q * (d * (n - 1.0) / 12.0) == q * d * (n - 1.0) / 12.0;
  }

  // ---- when it is zero ----

  ghost predicate MeansAre(groupRanks: seq<seq<real>>, m: real) {
    forall g :: 0 <= g < |groupRanks| && groupRanks[g] != [] ==> Mean(groupRanks[g]) == m
  }

  lemma {:induction false} SpreadSumZero(groups: seq<seq<real>>, groupRanks: seq<seq<real>>, c: real)
    requires |groupRanks| == |groups| && forall g :: 0 <= g < |groups| ==> |groupRanks[g]| == |groups[g]|
    ensures SpreadSum(groups, groupRanks, c) == 0.0 <==> MeansAre(groupRanks, c)
  {
    if groups != [] {
      var last := |groups| - 1;
      SpreadSumZero(groups[..last], groupRanks[..last], c);
      SpreadSumNonNegative(groups[..last], groupRanks[..last], c);
      SpreadZero(|groups[last]|, Mean(groupRanks[last]), c);
      assert groupRanks == groupRanks[..last] + [groupRanks[last]];
    }
  }

  lemma SpreadZero(size: nat, mean: real, c: real)
    ensures Spread(size, mean, c) >= 0.0
    ensures Spread(size, mean, c) == 0.0 <==> size == 0 || mean == c
  {
    var d := mean - c;
    assert d * d >= 0.0;
    if Spread(size, mean, c) == 0.0 && size > 0 {
      OtherFactorZero(size as real, d * d);
      if d != 0.0 {
        OtherFactorZero(d, d);
      }
    }
  }

  lemma OtherFactorZero(x: real, y: real)
    requires x * y == 0.0 && x != 0.0
    ensures y == 0.0
  {
    assert x * y / x == y;
  }

  lemma ProductPositive(x: real, y: real)
    requires x > 0.0 && y > 0.0
    ensures x * y > 0.0
  {
  }

  lemma {:induction false} CommonMean(groupRanks: seq<seq<real>>, m: real)
    requires MeansAre(groupRanks, m)
    ensures Total(Flatten(groupRanks), Own) == Times(|Flatten(groupRanks)|, m)
  {
    if groupRanks != [] {
      var last := |groupRanks| - 1;
      var front, part := groupRanks[..last], groupRanks[last];
      CommonMean(front, m);
      TotalConcat(Flatten(front), part, Own);
      GroupTotal(part, m);
      TimesSum(|Flatten(front)|, |part|, m);
    }
  }

  lemma GroupTotal(part: seq<real>, m: real)
    requires part != [] ==> Mean(part) == m
    ensures Total(part, Own) == Times(|part|, m)
  {
    if part != [] {
      MeanTimes(part);
      TimesIs(|part|, m);
    }
  }

  lemma {:induction false} TimesSum(a: nat, b: nat, m: real)
    ensures Times(a + b, m) == Times(a, m) + Times(b, m)
  {
    if b > 0 {
      TimesSum(a, b - 1, m);
    }
  }

  lemma ScaledZero(n: real, spread: real)
    requires n > 0.0
    ensures Scaled(n, spread) == 0.0 <==> spread == 0.0
  {
    var d := n * (n + 1.0);
    assert d > 0.0;
    var q := 12.0 / d;
    assert q * d == 12.0;
    assert q > 0.0;
    if spread > 0.0 {
      assert q * spread > 0.0;
    } else if spread < 0.0 {
      assert q * -spread > 0.0;
    }
  }

  lemma HZeroIffCentered(groups: seq<seq<real>>, groupRanks: seq<seq<real>>)
    requires Ranked(groups, groupRanks) && Size(groups) > 0
    ensures HStatistic(groups, groupRanks) == 0.0 <==> MeansAre(groupRanks, Center(Size(groups)))
  {
    var n := Size(groups);
    RanksAddUp(groups, groupRanks);
    SpreadSumZero(groups, groupRanks, Center(n));
    ScaledZero(n as real, SpreadSum(groups, groupRanks, Center(n)));
  }

  lemma CommonMeanIsCenter(groups: seq<seq<real>>, groupRanks: seq<seq<real>>, m: real)
    requires Ranked(groups, groupRanks) && Size(groups) > 0 && MeansAre(groupRanks, m)
    ensures m == Center(Size(groups))
  {
    var n := Size(groups);
    AllRanks(groups, groupRanks, n);
    CommonMean(groupRanks, m);
    TimesIs(n, m);
    OneMean(n, m, Total(Flatten(groupRanks), Own));
  }

  lemma AllRanks(groups: seq<seq<real>>, groupRanks: seq<seq<real>>, n: nat)
    requires Ranked(groups, groupRanks) && n == Size(groups)
    ensures Total(Flatten(groupRanks), Own) == (n * (n + 1)) as real / 2.0 && |Flatten(groupRanks)| == n
  {
    RanksAddUp(groups, groupRanks);
    SizeOfRanks(groups, groupRanks);
  }

  /** H is zero exactly if all groups that have members have one mean rank. */
  lemma HZeroIff(groups: seq<seq<real>>, groupRanks: seq<seq<real>>)
    requires Ranked(groups, groupRanks) && Size(groups) > 0
    ensures HStatistic(groups, groupRanks) == 0.0 <==> exists m :: MeansAre(groupRanks, m)
  {
    HZeroIffCentered(groups, groupRanks);
    if m :| MeansAre(groupRanks, m) {
      CommonMeanIsCenter(groups, groupRanks, m);
    }
  }

  lemma {:induction false} SizeOfRanks(groups: seq<seq<real>>, groupRanks: seq<seq<real>>)
    requires |groupRanks| == |groups| && forall g :: 0 <= g < |groups| ==> |groupRanks[g]| == |groups[g]|
    ensures |Flatten(groupRanks)| == Size(groups)
  {
    if groups != [] {
      SizeOfRanks(groups[..|groups| - 1], groupRanks[..|groups| - 1]);
    }
  }

  lemma OneMean(n: nat, m: real, sum: real)
    requires n > 0 && sum == n as real * m && sum == (n * (n + 1)) as real / 2.0
    ensures m == Center(n)
  {
    var x := n as real;
    assert (n * (n + 1)) as real == x * (x + 1.0);
    assert x * Center(n) == x * (x + 1.0) / 2.0;
    Cancelled(x, m, Center(n));
  }

  lemma Cancelled(x: real, m: real, c: real)
    requires x > 0.0 && x * m == x * c
    ensures m == c
  {
    if m < c {
      ProductPositive(x, c - m);
    } else if c < m {
      ProductPositive(x, m - c);
    }
  }

  // ---- the textbook form ----

  /** The squared rank total of a group, over its size. */
  function SquaredShare(ranks: seq<real>): real {
    if ranks == [] then 0.0 else Total(ranks, Own) * Total(ranks, Own) / |ranks| as real
  }

  /** The squared distances of the mean ranks from c, by rank totals. */
  function ShareSum(groupRanks: seq<seq<real>>, c: real): real {
    if groupRanks == [] then 0.0
    else
      var last := |groupRanks| - 1;
      ShareSum(groupRanks[..last], c)
      + Around(|groupRanks[last]|, SquaredShare(groupRanks[last]), Total(groupRanks[last], Own), c)
  }

  lemma {:induction false} SpreadByShares(groups: seq<seq<real>>, groupRanks: seq<seq<real>>, c: real)
    requires |groupRanks| == |groups| && forall g :: 0 <= g < |groups| ==> |groupRanks[g]| == |groups[g]|
    ensures SpreadSum(groups, groupRanks, c) == ShareSum(groupRanks, c)
  {
    if groups != [] {
      var last := |groups| - 1;
      SpreadByShares(groups[..last], groupRanks[..last], c);
      SpreadOfOne(groupRanks[last], c);
    }
  }

  lemma {:induction false} ShareSumOfAll(groupRanks: seq<seq<real>>, c: real)
    ensures ShareSum(groupRanks, c)
         == Around(Size(groupRanks), Total(groupRanks, SquaredShare), Total(Flatten(groupRanks), Own), c)
  {
    if groupRanks != [] {
      var last := |groupRanks| - 1;
      var front, ranks := groupRanks[..last], groupRanks[last];
      ShareSumOfAll(front, c);
      TotalConcat(Flatten(front), ranks, Own);
      AroundAdds(Size(front), Total(front, SquaredShare), Total(Flatten(front), Own),
                 |ranks|, SquaredShare(ranks), Total(ranks, Own), c);
    }
  }

  lemma SpreadOfOne(ranks: seq<real>, c: real)
    ensures Spread(|ranks|, Mean(ranks), c) == Around(|ranks|, SquaredShare(ranks), Total(ranks, Own), c)
  {
    if ranks != [] {
      MeanTimes(ranks);
      DistanceExpanded(|ranks| as real, Mean(ranks), c, Total(ranks, Own));
      ShareIs(|ranks| as real, Mean(ranks), Total(ranks, Own), SquaredShare(ranks));
    }
  }

  lemma ShareIs(n: real, m: real, sum: real, share: real)
    requires n > 0.0 && m == sum / n && share == sum * sum / n
    ensures m * sum == share
  {
  }

  function RankTotalForm(n: real, shares: real): real
    requires n > 0.0
  {
    12.0 / (n * (n + 1.0)) * shares - 3.0 * (n + 1.0)
  }

  /** H is twelve over n (n + 1), times the sum of the squared rank totals over the group sizes, minus
      three times n + 1. */
  lemma HByRankTotals(groups: seq<seq<real>>, groupRanks: seq<seq<real>>)
    requires Ranked(groups, groupRanks) && Size(groups) > 0
    ensures HStatistic(groups, groupRanks)
         == RankTotalForm(Size(groups) as real, Total(groupRanks, SquaredShare))
  {
    var n, shares := Size(groups) as real, Total(groupRanks, SquaredShare);
    var spread := SpreadSum(groups, groupRanks, Center(Size(groups)));
    SpreadByRankTotals(groups, groupRanks, Size(groups), n, shares, spread);
    ScaledDifference(n, shares, spread);
  }

  lemma SpreadByRankTotals(groups: seq<seq<real>>, groupRanks: seq<seq<real>>, n: nat, x: real, shares: real,
                           spread: real)
    requires Ranked(groups, groupRanks) && n == Size(groups) && x == n as real
    requires shares == Total(groupRanks, SquaredShare) && spread == SpreadSum(groups, groupRanks, Center(n))
    ensures spread == shares - x * (x + 1.0) * (x + 1.0) / 4.0
  {
    RanksAddUp(groups, groupRanks);
    SpreadByShares(groups, groupRanks, Center(n));
    ShareSumOfAll(groupRanks, Center(n));
    SizeOfRanks(groups, groupRanks);
    FlattenSize(groupRanks);
    CenteredTotal(n, x, shares, Total(Flatten(groupRanks), Own));
  }

  lemma CenteredTotal(n: nat, x: real, shares: real, sum: real)
    requires x == n as real && sum == (n * (n + 1)) as real / 2.0
    ensures Around(n, shares, sum, Center(n)) == shares - x * (x + 1.0) * (x + 1.0) / 4.0
  {
    assert (n * (n + 1)) as real == x * (x + 1.0);
    var p := x * (x + 1.0);
    assert 2.0 * Center(n) * sum == p * (x + 1.0) / 2.0;
    assert x * (Center(n) * Center(n)) == p * (x + 1.0) / 4.0;
  }

  lemma ScaledDifference(n: real, shares: real, spread: real)
    requires n > 0.0 && spread == shares - n * (n + 1.0) * (n + 1.0) / 4.0
    ensures Scaled(n, spread) == RankTotalForm(n, shares)
  {
    var d := n * (n + 1.0);
    assert d > 0.0;
    var q := 12.0 / d;
    assert q * d == 12.0;
    assert q * (d * (n + 1.0) / 4.0) == q * d * (n + 1.0) / 4.0;
    assert q * spread == q * shares - q * (d * (n + 1.0) / 4.0);
  }

  // ---- that its bound is reached ----

  ghost predicate AllDiffer(vals: seq<real>) {
    forall x :: multiset(vals)[x] <= 1
  }

  lemma {:induction false} NoneEqual(vals: seq<real>, y: real)
    requires y !in vals
    ensures Equal(vals, y) == 0
  {
    if vals != [] {
      NoneEqual(vals[..|vals| - 1], y);
    }
  }

  lemma LastDiffers(front: seq<real>, y: real)
    requires AllDiffer(front + [y])
    ensures AllDiffer(front) && y !in front
  {
    assert multiset(front + [y])[y] <= 1;
    forall x ensures multiset(front)[x] <= 1 {
      assert multiset(front + [y])[x] <= 1;
    }
  }

  /** Without ties the squared ranks are 1, 4, ..., n^2. */
  lemma {:induction false} SquaresOfDistinct(vals: seq<real>)
    requires Ascending(vals) && AllDiffer(vals)
    ensures Total(vals, RankSquare(vals)) == SumOfSquares(|vals|)
  {
    if vals != [] {
      var n := |vals| - 1;
      var front, y := vals[..n], vals[n];
      var more, own := CountRank(front, y) + 0.25, CountRank(front, y) + 0.5;
      assert vals == front + [y];
      LastDiffers(front, y);
      SquaresOfDistinct(front);
      SquaresWithOneMore(front, y, front, more);
      NoneEqual(front, y);
      RankOfLargest(front, y);
      LastSquare(front, y, own);
    }
  }

  lemma SquaresOfAnyDistinct(vals: seq<real>)
    requires AllDiffer(vals)
    ensures Total(vals, RankSquare(vals)) == SumOfSquares(|vals|)
  {
    var sorted := SortBy(Itself, vals);
    forall i, j | 0 <= i < j < |sorted| ensures sorted[i] <= sorted[j] {
      assert Itself(sorted[i]) <= Itself(sorted[j]);
    }
    SquaresOfDistinct(sorted);
    SquaresSame(vals, vals, sorted);
    TotalOfPermutation(vals, sorted, RankSquare(sorted));
    assert |multiset(sorted)| == |multiset(vals)|;
  }

  lemma {:induction false} SharesOfSingles(groups: seq<seq<real>>, groupRanks: seq<seq<real>>, vals: seq<real>)
    requires |groupRanks| == |groups| && forall g :: 0 <= g < |groups| ==> |groups[g]| == 1
    requires forall g :: 0 <= g < |groups| ==> multiset(groupRanks[g]) == multiset(RanksAmong(groups[g], vals))
    ensures Total(groupRanks, SquaredShare) == Total(Flatten(groups), RankSquare(vals))
  {
    if groups != [] {
      var last := |groups| - 1;
      SharesOfSingles(groups[..last], groupRanks[..last], vals);
      ShareOfSingle(groups[last], groupRanks[last], vals);
      TotalConcat(Flatten(groups[..last]), groups[last], RankSquare(vals));
    }
  }

  lemma ShareOfSingle(part: seq<real>, ranks: seq<real>, vals: seq<real>)
    requires |part| == 1 && multiset(ranks) == multiset(RanksAmong(part, vals))
    ensures SquaredShare(ranks) == Total(part, RankSquare(vals))
  {
    RanksOfPart(part, vals);
    RanksSquared(part, vals);
    TotalOfPermutation(ranks, RanksAmong(part, vals), SquareOf);
    assert |multiset(ranks)| == |multiset(RanksAmong(part, vals))|;
    OneShare(ranks[0]);
    assert ranks == [ranks[0]];
  }

  lemma OneShare(x: real)
    ensures SquaredShare([x]) == Total([x], SquareOf)
  {
    assert Total([x], Own) == x;
  }

  /** The bound n - 1 is reached: by different values in groups of one. */
  lemma HIsReached(groups: seq<seq<real>>, groupRanks: seq<seq<real>>)
    requires Ranked(groups, groupRanks) && Size(groups) > 0
    requires AllDiffer(Flatten(groups)) && forall g :: 0 <= g < |groups| ==> |groups[g]| == 1
    ensures HStatistic(groups, groupRanks) == (Size(groups) - 1) as real
  {
    var n := Size(groups);
    HByRankTotals(groups, groupRanks);
    SharesOfSingles(groups, groupRanks, Flatten(groups));
    SquaresOfAnyDistinct(Flatten(groups));
    FlattenSize(groups);
    SquaresScaled(n, Total(groupRanks, SquaredShare));
  }

  lemma SquaresScaled(n: nat, squares: real)
    requires n > 0 && squares == SumOfSquares(n)
    ensures RankTotalForm(n as real, squares) == (n - 1) as real
  {
    SumOfSquaresClosed(n);
    AsReal(n);
    ScaledSquares(n as real, squares);
  }

  lemma AsReal(n: nat)
    ensures (n * (n + 1) * (2 * n + 1)) as real == n as real * (n as real + 1.0) * (2.0 * n as real + 1.0)
  {
    var x := n as real;
    assert (n * (n + 1)) as real == x * (x + 1.0);
  }

  lemma ScaledSquares(n: real, squares: real)
    requires n > 0.0 && squares == n * (n + 1.0) * (2.0 * n + 1.0) / 6.0
    ensures RankTotalForm(n, squares) == n - 1.0
  {
    var d := n * (n + 1.0);
    assert d > 0.0;
    var q := 12.0 / d;
    assert q * d == 12.0;
    assert q * (d * (2.0 * n + 1.0) / 6.0) == q * d * (2.0 * n + 1.0) / 6.0;
  }

  /** The effect size, cut off below zero. */
  function EtaSquared(h: real, k: nat, n: nat): real {
    if n > k then (var e := (h - k as real + 1.0) / (n - k) as real; if e < 0.0 then 0.0 else e) else 0.0
  }

  /** It is zero up to H = k - 1, one at the greatest H, and in proportion between them. */
  lemma EtaIsShare(h: real, k: nat, n: nat)
    requires n > k
    ensures EtaSquared(h, k, n) == 0.0 <==> h <= k as real - 1.0
    ensures EtaSquared(h, k, n) == 1.0 <==> h == n as real - 1.0
    ensures h >= k as real - 1.0 ==> EtaSquared(h, k, n) * (n as real - k as real) == h - (k as real - 1.0)
  {
    var above := h - k as real + 1.0;
    ShareOf(above, (n - k) as real, above / (n - k) as real);
  }

  lemma ShareOf(part: real, whole: real, share: real)
    requires whole > 0.0 && share == part / whole
    ensures share * whole == part
    ensures share == 1.0 <==> part == whole
    ensures share <= 0.0 <==> part <= 0.0
    ensures share == 0.0 <==> part == 0.0
  {
    assert share * whole == part;
    if share > 0.0 {
      ProductPositive(share, whole);
    } else if share < 0.0 {
      ProductPositive(-share, whole);
    }
  }

  /** It never exceeds one. */
  lemma EtaWithinOne(groups: seq<seq<real>>, groupRanks: seq<seq<real>>)
    requires Ranked(groups, groupRanks) && Size(groups) > 0
    ensures 0.0 <= EtaSquared(HStatistic(groups, groupRanks), |groups|, Size(groups)) <= 1.0
  {
    HAtMost(groups, groupRanks);
    EtaOfBounded(HStatistic(groups, groupRanks), |groups|, Size(groups));
  }

  lemma EtaOfBounded(h: real, k: nat, n: nat)
    requires h <= (n - 1) as real
    ensures 0.0 <= EtaSquared(h, k, n) <= 1.0
  {
    if n > k {
      var above := h - k as real + 1.0;
      assert above <= (n - k) as real;
      assert above / (n - k) as real * (n - k) as real == above;
    }
  }
}
