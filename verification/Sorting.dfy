/** A stable sort by a real key, standing for Python's list.sort(key=...). */
module Sorting {

  ghost predicate SortedBy<T>(key: T -> real, xs: seq<T>) {
    forall i, j :: 0 <= i < j < |xs| ==> key(xs[i]) <= key(xs[j])
  }

  ghost predicate StrictlySortedBy<T>(key: T -> real, xs: seq<T>) {
    forall i, j :: 0 <= i < j < |xs| ==> key(xs[i]) < key(xs[j])
  }

  /** Inserts x behind all elements whose key is not larger. */
  function Insert<T>(key: T -> real, xs: seq<T>, x: T): (r: seq<T>)
    ensures multiset(r) == multiset(xs) + multiset{x}
  {
    if xs == [] then [x]
    else
      var last := |xs| - 1;
      assert xs == xs[..last] + [xs[last]];
      if key(xs[last]) <= key(x) then xs + [x] else Insert(key, xs[..last], x) + [xs[last]]
  }

  lemma SortedAppend<T>(key: T -> real, xs: seq<T>, last: T)
    requires SortedBy(key, xs) && forall y :: y in xs ==> key(y) <= key(last)
    ensures SortedBy(key, xs + [last])
  {
    forall i, j | 0 <= i < j < |xs + [last]| ensures key((xs + [last])[i]) <= key((xs + [last])[j]) {
      assert xs[i] in xs;
    }
  }

  lemma SortedPrefix<T>(key: T -> real, xs: seq<T>, n: nat)
    requires SortedBy(key, xs) && n <= |xs|
    ensures SortedBy(key, xs[..n])
    ensures n < |xs| ==> forall y :: y in xs[..n] ==> key(y) <= key(xs[n])
  {
  }

  lemma {:induction false} InsertSorts<T>(key: T -> real, xs: seq<T>, x: T)
    requires SortedBy(key, xs)
    ensures SortedBy(key, Insert(key, xs, x))
  {
    if xs != [] {
      var last := |xs| - 1;
      SortedPrefix(key, xs, last);
      if key(x) < key(xs[last]) {
        InsertSorts(key, xs[..last], x);
        var front := Insert(key, xs[..last], x);
        forall y | y in front ensures key(y) <= key(xs[last]) {
          assert y in multiset(front);
        }
        SortedAppend(key, front, xs[last]);
      } else {
        forall y | y in xs ensures key(y) <= key(x) {
          assert xs == xs[..last] + [xs[last]];
        }
        SortedAppend(key, xs, x);
      }
    }
  }

  function SortBy<T>(key: T -> real, xs: seq<T>): (r: seq<T>)
    ensures SortedBy(key, r)
    ensures multiset(r) == multiset(xs)
  {
    if xs == [] then []
    else
      var last := |xs| - 1;
      assert xs == xs[..last] + [xs[last]];
      InsertSorts(key, SortBy(key, xs[..last]), xs[last]);
      Insert(key, SortBy(key, xs[..last]), xs[last])
  }

  lemma SameFirst<T>(key: T -> real, xs: seq<T>, ys: seq<T>)
    requires SortedBy(key, xs) && StrictlySortedBy(key, ys)
    requires multiset(xs) == multiset(ys)
    requires xs != [] && ys != []
    ensures xs[0] == ys[0]
  {
    assert xs[0] in multiset(ys) && ys[0] in multiset(xs);
    assert forall k :: 0 < k < |ys| ==> key(ys[0]) < key(ys[k]);
    var i :| 0 <= i < |ys| && ys[i] == xs[0];
    var j :| 0 <= j < |xs| && xs[j] == ys[0];
    assert key(xs[0]) <= key(xs[j]);
  }

  lemma TailMultiset<T>(xs: seq<T>)
    requires xs != []
    ensures multiset(xs[1..]) == multiset(xs) - multiset{xs[0]}
  {
    assert xs == [xs[0]] + xs[1..];
  }

  lemma TailsAreSorted<T>(key: T -> real, xs: seq<T>, ys: seq<T>)
    requires SortedBy(key, xs) && StrictlySortedBy(key, ys) && xs != [] && ys != []
    ensures SortedBy(key, xs[1..]) && StrictlySortedBy(key, ys[1..])
  {
  }

  lemma TailsMatch<T>(xs: seq<T>, ys: seq<T>)
    requires xs != [] && ys != [] && xs[0] == ys[0] && multiset(xs) == multiset(ys)
    ensures multiset(xs[1..]) == multiset(ys[1..])
  {
    TailMultiset(xs);
    TailMultiset(ys);
  }

  lemma FromTails<T>(xs: seq<T>, ys: seq<T>)
    requires xs != [] && ys != [] && xs[0] == ys[0] && xs[1..] == ys[1..]
    ensures xs == ys
  {
    assert xs == [xs[0]] + xs[1..] && ys == [ys[0]] + ys[1..];
  }

  /** A list without ties has only one sorted arrangement. */
  lemma {:induction false} StrictOrderIsUnique<T>(key: T -> real, xs: seq<T>, ys: seq<T>)
    requires SortedBy(key, xs) && StrictlySortedBy(key, ys)
    requires multiset(xs) == multiset(ys)
    ensures xs == ys
  {
    assert |multiset(xs)| == |multiset(ys)|;
    if xs != [] {
      SameFirst(key, xs, ys);
      TailsMatch(xs, ys);
      TailsAreSorted(key, xs, ys);
      StrictOrderIsUnique(key, xs[1..], ys[1..]);
      FromTails(xs, ys);
    }
  }
}
