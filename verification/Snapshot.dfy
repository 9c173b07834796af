/** Snapshot minimisation: the tolerant merge of two JSON trees and the report of what
    remains changed. */
module Snapshot {
  import opened Circle
  import opened Outcome

  datatype Json =
    | Null
    | Bool(b: bool)
    | Num(x: real, isFloat: bool)
    | Str(s: string)
    | Arr(items: seq<Json>)
    | Obj(fields: map<string, Json>)

  function Merge(was: Json, now: Json, tol: real): Json {
    if was.Obj? && now.Obj? then
      Obj(map k | k in now.fields ::
        if k in was.fields then Merge(was.fields[k], now.fields[k], tol) else now.fields[k])
    else if was.Arr? && now.Arr? then
      Arr(seq(|now.items|, i requires 0 <= i < |now.items| =>
        if i < |was.items| then Merge(was.items[i], now.items[i], tol) else now.items[i]))
    else if was.Num? && now.Num? then
      if Abs(was.x - now.x) > tol then now else was
    else now
  }

  // ---- positions in a tree ----

  datatype Step = Key(k: string) | Index(i: nat)

  type Path = seq<Step>

  function Child(j: Json, step: Step): Option<Json> {
    match step
    case Key(k) => if j.Obj? && k in j.fields then Some(j.fields[k]) else None
    case Index(i) => if j.Arr? && i < |j.items| then Some(j.items[i]) else None
  }

  function At(j: Json, path: Path): Option<Json> {
    if path == [] then Some(j)
    else match Child(j, path[0])
      case Some(c) => At(c, path[1..])
      case None => None
  }

  /** Same kind of node, and for containers the same keys or length. */
  predicate SameNode(a: Json, b: Json) {
    match (a, b)
    case (Obj(f), Obj(g)) => f.Keys == g.Keys
    case (Arr(xs), Arr(ys)) => |xs| == |ys|
    case (Num(_, _), Num(_, _)) => true
    case _ => a == b
  }

  /** The regenerated number is noise: the old tree has a number there within the tolerance. */
  predicate IsNoise(was: Option<Json>, now: Json, tol: real) {
    now.Num? && was.Some? && was.value.Num? && Abs(was.value.x - now.x) <= tol
  }

  lemma MergedChild(was: Json, now: Json, tol: real, step: Step)
    ensures Child(Merge(was, now, tol), step) ==
              match Child(now, step)
              case None => None
              case Some(n) =>
                match Child(was, step)
                case None => Some(n)
                case Some(o) => Some(Merge(o, n, tol))
  {
  }

  /** At every position the merged tree has the regenerated node, except that a number that is
      noise keeps its old value; so every number is within the tolerance of the regenerated one. */
  lemma {:induction false} MergeAt(was: Json, now: Json, tol: real, path: Path)
    ensures At(Merge(was, now, tol), path).Some? <==> At(now, path).Some?
    ensures At(now, path).Some? ==>
              var m, n := At(Merge(was, now, tol), path).value, At(now, path).value;
              && SameNode(m, n)
              && (IsNoise(At(was, path), n, tol) ==> Some(m) == At(was, path))
              && (!IsNoise(At(was, path), n, tol) && n.Num? ==> m == n)
              && (m.Num? ==> Abs(m.x - n.x) <= Max(tol, 0.0))
    decreases |path|
  {
    if path != [] {
      MergedChild(was, now, tol, path[0]);
      var n, o := Child(now, path[0]), Child(was, path[0]);
      if n.Some? && o.Some? {
        MergeAt(o.value, n.value, tol, path[1..]);
      }
    }
  }

  /** Two trees with the same children and, as leaves or empty containers, the same node are equal. */
  lemma EqualByChildren(a: Json, b: Json)
    requires SameNode(a, b) && (a.Num? ==> a == b)
    requires forall step :: Child(a, step) == Child(b, step)
    ensures a == b
  {
    match a
    case Obj(f) =>
      forall k | k in f.Keys ensures f[k] == b.fields[k] {
        assert Child(a, Key(k)) == Child(b, Key(k));
      }
      assert f == b.fields;
    case Arr(xs) =>
      forall i | 0 <= i < |xs| ensures xs[i] == b.items[i] {
        assert Child(a, Index(i)) == Child(b, Index(i));
      }
    case _ =>
  }

  /** Merging the merged tree again changes nothing. */
  lemma {:induction false} MergeIsIdempotent(was: Json, now: Json, tol: real)
    ensures Merge(was, Merge(was, now, tol), tol) == Merge(was, now, tol)
    decreases now
  {
    var m := Merge(was, now, tol);
    var again := Merge(was, m, tol);
    forall step ensures Child(again, step) == Child(m, step) {
      MergedChild(was, now, tol, step);
      MergedChild(was, m, tol, step);
      var n, o := Child(now, step), Child(was, step);
      if n.Some? && o.Some? {
        assert n.value < now;
        MergeIsIdempotent(o.value, n.value, tol);
      }
    }
    MergeAt(was, now, tol, []);
    MergeAt(was, m, tol, []);
    EqualByChildren(again, m);
  }

  // ---- Python equality and the report of material changes ----

  /** The number a bool or a number is in Python. */
  function Numeric(j: Json): Option<real> {
    match j
    case Num(x, _) => Some(x)
    case Bool(b) => Some(if b then 1.0 else 0.0)
    case _ => None
  }

  /** Python's ==, for which True is 1 and False is 0. */
  predicate PyEq(a: Json, b: Json) {
    match (a, b)
    case (Obj(f), Obj(g)) =>
      f.Keys == g.Keys && forall k :: k in f.Keys ==> k in g && PyEq(f[k], g[k])
    case (Arr(xs), Arr(ys)) =>
      |xs| == |ys| && forall i :: 0 <= i < |xs| ==> i < |ys| && PyEq(xs[i], ys[i])
    case _ => if Numeric(a).Some? then Numeric(a) == Numeric(b) else a == b
  }

  /** The tree with every bool as its number and every float as the integer it equals. */
  function Plain(j: Json): Json {
    match j
    case Obj(f) => Obj(map k | k in f :: Plain(f[k]))
    case Arr(xs) => Arr(seq(|xs|, i requires 0 <= i < |xs| => Plain(xs[i])))
    case Bool(b) => Num(if b then 1.0 else 0.0, false)
    case Num(x, _) => Num(x, false)
    case _ => j
  }

  /** Trees are equal in Python's sense exactly if they are the same up to the types of their numbers. */
  lemma {:induction false} PyEqIffSamePlain(a: Json, b: Json)
    ensures PyEq(a, b) <==> Plain(a) == Plain(b)
    decreases a
  {
    match (a, b)
    case (Obj(f), Obj(g)) =>
      forall k | k in f && k in g ensures PyEq(f[k], g[k]) <==> Plain(f[k]) == Plain(g[k]) {
        PyEqIffSamePlain(f[k], g[k]);
      }
      assert Plain(a).fields.Keys == f.Keys && Plain(b).fields.Keys == g.Keys;
      if PyEq(a, b) {
        assert Plain(a).fields == Plain(b).fields;
      }
      if Plain(a) == Plain(b) {
        forall k | k in f ensures k in g && PyEq(f[k], g[k]) {
          assert Plain(a).fields[k] == Plain(b).fields[k];
        }
      }
    case (Arr(xs), Arr(ys)) =>
      forall i | 0 <= i < |xs| && i < |ys| ensures PyEq(xs[i], ys[i]) <==> Plain(xs[i]) == Plain(ys[i]) {
        PyEqIffSamePlain(xs[i], ys[i]);
      }
      if Plain(a) == Plain(b) {
        assert |Plain(a).items| == |Plain(b).items|;
        forall i | 0 <= i < |xs| ensures PyEq(xs[i], ys[i]) {
          assert Plain(a).items[i] == Plain(b).items[i];
        }
      }
      if PyEq(a, b) {
        assert Plain(a).items == Plain(b).items;
      }
    case _ =>
  }

  /** How a position is printed: keys by name, list elements without their index. */
  function ShownStep(step: Step): string {
    match step
    case Key(k) => "/" + k
    case Index(_) => "[]"
  }

  function Shown(path: Path): string {
    if path == [] then "" else ShownStep(path[0]) + Shown(path[1..])
  }

  lemma ShownOne(step: Step)
    ensures Shown([step]) == ShownStep(step)
  {
  }

  datatype Kind = Changed | Added(k: string) | Removed(k: string) | Resized(from: nat, to: nat)

  function Decimal(n: nat): string {
    if n < 10 then [('0' as int + n) as char] else Decimal(n / 10) + Decimal(n % 10)
  }

  /** What is printed for a difference at a printed position. */
  function PrintAt(position: string, kind: Kind): string {
    match kind
    case Changed => if position == "" then "/" else position
    case Added(k) => position + "/" + k + " (added)"
    case Removed(k) => position + "/" + k + " (removed)"
    case Resized(m, n) => position + "[] (length " + Decimal(m) + " -> " + Decimal(n) + ")"
  }

  /** A node changed in itself: its value, its keys or its length. */
  predicate NodeDiffers(a: Json, b: Json, kind: Kind) {
    match kind
    case Changed => !(a.Obj? && b.Obj?) && !(a.Arr? && b.Arr?) && !PyEq(a, b)
    case Added(k) => a.Obj? && b.Obj? && k !in a.fields && k in b.fields
    case Removed(k) => a.Obj? && b.Obj? && k in a.fields && k !in b.fields
    case Resized(m, n) => a.Arr? && b.Arr? && |a.items| == m && |b.items| == n && m != n
  }

  /** The two trees both have the position, and differ in that node. */
  predicate IsDifference(a: Json, b: Json, path: Path, kind: Kind) {
    At(a, path).Some? && At(b, path).Some? && NodeDiffers(At(a, path).value, At(b, path).value, kind)
  }

  /** Both trees have the child; the differences below it are those of the two children. */
  lemma DifferenceBelow(a: Json, b: Json, step: Step, path: Path, kind: Kind)
    ensures IsDifference(a, b, [step] + path, kind) <==>
              Child(a, step).Some? && Child(b, step).Some?
              && IsDifference(Child(a, step).value, Child(b, step).value, path, kind)
    ensures Shown([step] + path) == Shown([step]) + Shown(path)
  {
    assert ([step] + path)[1..] == path;
    ShownOne(step);
  }

  /** A place where two trees differ, and how. */
  datatype Difference = Difference(path: Path, kind: Kind)

  function ReportOf(d: Difference, base: string): string {
    PrintAt(base + Shown(d.path), d.kind)
  }

  // ---- the order of the report ----

  /** Python compares strings character by character. */
  predicate StringBefore(s: string, t: string) {
    if t == "" then false
    else if s == "" then true
    else s[0] < t[0] || (s[0] == t[0] && StringBefore(s[1..], t[1..]))
  }

  lemma {:induction false} StringsOrdered(s: string, t: string)
    ensures s == t || StringBefore(s, t) || StringBefore(t, s)
    ensures !StringBefore(s, s)
  {
    if s != "" && t != "" && s[0] == t[0] {
      StringsOrdered(s[1..], t[1..]);
      assert s == [s[0]] + s[1..] && t == [t[0]] + t[1..];
    } else if s != "" {
      StringsOrdered(s[1..], s[1..]);
    }
  }

  lemma {:induction false} StringsChain(s: string, t: string, u: string)
    requires StringBefore(s, t) && StringBefore(t, u)
    ensures StringBefore(s, u)
  {
    if s != "" && s[0] == t[0] && t[0] == u[0] {
      StringsChain(s[1..], t[1..], u[1..]);
    }
  }

  /** The first of some keys, as sorted() puts it. */
  method LeastKey(keys: set<string>) returns (k: string)
    requires keys != {}
    ensures k in keys && forall l :: l in keys && l != k ==> StringBefore(k, l)
  {
    k :| k in keys;
    var rest := keys - {k};
    while rest != {}
      invariant rest <= keys && k in keys && k !in rest
      invariant forall l :: l in keys - rest && l != k ==> StringBefore(k, l)
      decreases |rest|
    {
      var l :| l in rest;
      rest := rest - {l};
      StringsOrdered(k, l);
      if StringBefore(l, k) {
        forall m | m in keys - rest && m != l ensures StringBefore(l, m) {
          if m != k {
            StringsChain(l, k, m);
          }
        }
        k := l;
      }
    }
  }

  predicate StepBefore(s: Step, t: Step) {
    match (s, t)
    case (Key(k), Key(l)) => StringBefore(k, l)
    case (Index(i), Index(j)) => i < j
    case _ => false
  }

  /** Lexicographic order of positions of which neither lies below the other. */
  predicate Before(p: Path, q: Path) {
    p != [] && q != [] && (StepBefore(p[0], q[0]) || (p[0] == q[0] && Before(p[1..], q[1..])))
  }

  /** Where a difference is reported: an added or removed key at its own place among the keys, a changed
      length behind the common elements. */
  function Place(d: Difference): Path {
    d.path + match d.kind
             case Changed => []
             case Added(k) => [Key(k)]
             case Removed(k) => [Key(k)]
             case Resized(m, n) => [Index(if m < n then m else n)]
  }

  ghost predicate InOrder(at: seq<Difference>) {
    forall i, j :: 0 <= i < j < |at| ==> Before(Place(at[i]), Place(at[j]))
  }

  lemma OrderedSum(at: seq<Difference>, more: seq<Difference>)
    requires InOrder(at) && InOrder(more)
    requires forall c, d :: c in at && d in more ==> Before(Place(c), Place(d))
    ensures InOrder(at + more)
  {
    forall i, j | 0 <= i < j < |at + more| ensures Before(Place((at + more)[i]), Place((at + more)[j])) {
      if i < |at| <= j {
        assert at[i] in at && more[j - |at|] in more;
      }
    }
  }

  lemma PlaceBelow(step: Step, d: Difference)
    ensures Place(Below(step, d)) == [step] + Place(d)
  {
  }

  lemma OrderedBelow(step: Step, at: seq<Difference>)
    requires InOrder(at)
    ensures InOrder(AllBelow(step, at))
  {
    forall i, j | 0 <= i < j < |at| ensures Before(Place(Below(step, at[i])), Place(Below(step, at[j]))) {
      PlaceBelow(step, at[i]);
      PlaceBelow(step, at[j]);
      assert ([step] + Place(at[i]))[1..] == Place(at[i]) && ([step] + Place(at[j]))[1..] == Place(at[j]);
    }
  }

  /** Everything so far is placed before a step. */
  ghost predicate AllBefore(at: seq<Difference>, step: Step) {
    forall d :: d in at ==> Place(d) != [] && StepBefore(Place(d)[0], step)
  }

  lemma OrderedBlock(at: seq<Difference>, step: Step, subAt: seq<Difference>)
    requires InOrder(at) && InOrder(subAt) && AllBefore(at, step)
    ensures InOrder(at + AllBelow(step, subAt))
  {
    OrderedBelow(step, subAt);
    forall c, d | c in at && d in AllBelow(step, subAt) ensures Before(Place(c), Place(d)) {
      var i :| 0 <= i < |subAt| && d == Below(step, subAt[i]);
      PlaceBelow(step, subAt[i]);
    }
    OrderedSum(at, AllBelow(step, subAt));
  }

  // ---- what is reported ----

  /** Every entry reports one difference of the two trees. */
  ghost predicate Truthful(out: seq<string>, at: seq<Difference>, a: Json, b: Json, base: string) {
    && |at| == |out|
    && forall i :: 0 <= i < |at| ==> out[i] == ReportOf(at[i], base) && IsDifference(a, b, at[i].path, at[i].kind)
  }

  /** The reports below a base are the shown differences of two trees, one report for each, in order. */
  ghost predicate Reports(out: seq<string>, at: seq<Difference>, a: Json, b: Json, base: string) {
    && Truthful(out, at, a, b, base) && InOrder(at)
    && (forall path, kind :: IsDifference(a, b, path, kind) ==> Difference(path, kind) in at)
  }

  /** Some list of differences makes these the reports. */
  ghost predicate IsReport(out: seq<string>, a: Json, b: Json, base: string) {
    exists at :: Reports(out, at, a, b, base)
  }

  /** Reports so far: everything below the steps already visited, and the node's own kinds listed. */
  ghost predicate Collected(out: seq<string>, at: seq<Difference>, a: Json, b: Json, base: string,
                            done: set<Step>, own: set<Kind>)
  {
    && Truthful(out, at, a, b, base) && InOrder(at)
    && (forall d :: d in at ==> if d.path == [] then d.kind in own else d.path[0] in done)
    && (forall step, path, kind :: step in done && IsDifference(a, b, [step] + path, kind) ==>
          Difference([step] + path, kind) in at)
    && (forall kind :: kind in own ==> Difference([], kind) in at)
  }

  function Below(step: Step, d: Difference): Difference {
    Difference([step] + d.path, d.kind)
  }

  function AllBelow(step: Step, at: seq<Difference>): seq<Difference> {
    seq(|at|, i requires 0 <= i < |at| => Below(step, at[i]))
  }

  lemma BelowIsReported(a: Json, b: Json, base: string, step: Step, d: Difference)
    requires Child(a, step).Some? && Child(b, step).Some?
    requires IsDifference(Child(a, step).value, Child(b, step).value, d.path, d.kind)
    ensures ReportOf(d, base + Shown([step])) == ReportOf(Below(step, d), base)
    ensures IsDifference(a, b, Below(step, d).path, d.kind)
  {
    DifferenceBelow(a, b, step, d.path, d.kind);
    assert base + Shown([step]) + Shown(d.path) == base + Shown([step] + d.path);
  }

  lemma TruthfulBelow(out: seq<string>, at: seq<Difference>, a: Json, b: Json, base: string, step: Step)
    requires Child(a, step).Some? && Child(b, step).Some?
    requires Truthful(out, at, Child(a, step).value, Child(b, step).value, base + Shown([step]))
    ensures Truthful(out, AllBelow(step, at), a, b, base)
  {
    forall i | 0 <= i < |at|
      ensures out[i] == ReportOf(Below(step, at[i]), base) && IsDifference(a, b, Below(step, at[i]).path, at[i].kind)
    {
      BelowIsReported(a, b, base, step, at[i]);
    }
  }

  lemma TruthfulSum(out: seq<string>, at: seq<Difference>, more: seq<string>, moreAt: seq<Difference>,
                    a: Json, b: Json, base: string)
    requires Truthful(out, at, a, b, base) && Truthful(more, moreAt, a, b, base)
    ensures Truthful(out + more, at + moreAt, a, b, base)
  {
    forall i | 0 <= i < |at + moreAt|
      ensures (out + more)[i] == ReportOf((at + moreAt)[i], base)
      ensures IsDifference(a, b, (at + moreAt)[i].path, (at + moreAt)[i].kind)
    {
      assert (at + moreAt)[i] == if i < |at| then at[i] else moreAt[i - |at|];
    }
  }

  lemma DifferenceIsBelow(subAt: seq<Difference>, a: Json, b: Json, step: Step, path: Path, kind: Kind)
    requires Child(a, step).Some? && Child(b, step).Some?
    requires IsDifference(a, b, [step] + path, kind)
    requires forall path, kind :: IsDifference(Child(a, step).value, Child(b, step).value, path, kind) ==>
               Difference(path, kind) in subAt
    ensures Difference([step] + path, kind) in AllBelow(step, subAt)
  {
    DifferenceBelow(a, b, step, path, kind);
    var i :| 0 <= i < |subAt| && subAt[i] == Difference(path, kind);
    assert AllBelow(step, subAt)[i] == Difference([step] + path, kind);
  }

  lemma VisitChild(out: seq<string>, at: seq<Difference>, sub: seq<string>, subAt: seq<Difference>,
                   a: Json, b: Json, base: string, done: set<Step>, own: set<Kind>, step: Step)
    requires Collected(out, at, a, b, base, done, own) && step !in done && AllBefore(at, step)
    requires Child(a, step).Some? && Child(b, step).Some?
    requires Reports(sub, subAt, Child(a, step).value, Child(b, step).value, base + Shown([step]))
    ensures Collected(out + sub, at + AllBelow(step, subAt), a, b, base, done + {step}, own)
  {
    TruthfulBelow(sub, subAt, a, b, base, step);
    OrderedBlock(at, step, subAt);
    TruthfulSum(out, at, sub, AllBelow(step, subAt), a, b, base);
    forall s, path, kind | s in done + {step} && IsDifference(a, b, [s] + path, kind)
      ensures Difference([s] + path, kind) in at + AllBelow(step, subAt)
    {
      if s !in done {
        DifferenceIsBelow(subAt, a, b, step, path, kind);
      }
    }
  }

  lemma VisitOwn(out: seq<string>, at: seq<Difference>, a: Json, b: Json, base: string, done: set<Step>,
                 own: set<Kind>, kind: Kind)
    requires Collected(out, at, a, b, base, done, own) && kind !in own && NodeDiffers(a, b, kind)
    requires at == [] || (Place(Difference([], kind)) != [] && AllBefore(at, Place(Difference([], kind))[0]))
    ensures Collected(out + [PrintAt(base, kind)], at + [Difference([], kind)], a, b, base, done, own + {kind})
  {
    assert base + Shown([]) == base;
    assert Truthful([PrintAt(base, kind)], [Difference([], kind)], a, b, base);
    TruthfulSum(out, at, [PrintAt(base, kind)], [Difference([], kind)], a, b, base);
    OrderedSum(at, [Difference([], kind)]);
  }

  /** All children that are not equal visited, and all own differences reported. */
  lemma AllVisited(out: seq<string>, at: seq<Difference>, a: Json, b: Json, base: string, done: set<Step>,
                   own: set<Kind>)
    requires Collected(out, at, a, b, base, done, own)
    requires forall step :: Child(a, step).Some? && Child(b, step).Some? ==>
               step in done || PyEq(Child(a, step).value, Child(b, step).value)
    requires forall kind :: NodeDiffers(a, b, kind) ==> kind in own
    ensures Reports(out, at, a, b, base)
  {
    forall path, kind | IsDifference(a, b, path, kind) ensures Difference(path, kind) in at {
      if path != [] {
        assert path == [path[0]] + path[1..];
        DifferenceBelow(a, b, path[0], path[1..], kind);
        if PyEq(Child(a, path[0]).value, Child(b, path[0]).value) {
          EqualHasNoDifference(Child(a, path[0]).value, Child(b, path[0]).value, path[1..], kind);
        }
      }
    }
  }

  lemma NothingVisited(a: Json, b: Json, base: string)
    ensures Collected([], [], a, b, base, {}, {})
  {
  }

  lemma OneReport(a: Json, b: Json, base: string, kind: Kind)
    requires NodeDiffers(a, b, kind)
    ensures Collected([PrintAt(base, kind)], [Difference([], kind)], a, b, base, {}, {kind})
  {
    NothingVisited(a, b, base);
    VisitOwn([], [], a, b, base, {}, {}, kind);
    assert [] + [PrintAt(base, kind)] == [PrintAt(base, kind)];
    assert [] + [Difference([], kind)] == [Difference([], kind)];
    assert {} + {kind} == {kind};
  }

  lemma LeafReports(was: Json, now: Json, base: string)
    requires !(was.Obj? && now.Obj?) && !(was.Arr? && now.Arr?)
    ensures if PyEq(was, now) then Reports([], [], was, now, base)
            else Reports([PrintAt(base, Changed)], [Difference([], Changed)], was, now, base)
  {
    if PyEq(was, now) {
      NothingVisited(was, now, base);
      AllVisited([], [], was, now, base, {}, {});
    } else {
      OneReport(was, now, base, Changed);
      AllVisited([PrintAt(base, Changed)], [Difference([], Changed)], was, now, base, {}, {Changed});
    }
  }

  /** One report for each position at which the trees differ; `at` lists these positions. */
  method MaterialPaths(was: Json, now: Json, base: string) returns (out: seq<string>, ghost at: seq<Difference>)
    ensures Reports(out, at, was, now, base)
    ensures IsReport(out, was, now, base)
    decreases was, 1
  {
    if was.Obj? && now.Obj? {
      out, at := ObjectPaths(was, now, base);
    } else if was.Arr? && now.Arr? {
      out, at := ListPaths(was, now, base);
    } else {
      out := if !PyEq(was, now) then [PrintAt(base, Changed)] else [];
      at := if !PyEq(was, now) then [Difference([], Changed)] else [];
      LeafReports(was, now, base);
    }
  }

  function OwnKind(was: Json, now: Json, k: string): Kind
    requires was.Obj? && now.Obj?
  {
    if k in now.fields then Added(k) else Removed(k)
  }

  /** Children visited and one-sided keys reported, exactly for the keys no longer to do. */
  ghost predicate ObjectProgress(out: seq<string>, at: seq<Difference>, was: Json, now: Json, base: string,
                                 done: set<Step>, own: set<Kind>, keys: set<string>)
    requires was.Obj? && now.Obj?
  {
    && Collected(out, at, was, now, base, done, own)
    && PlacedAmong(at, was.fields.Keys + now.fields.Keys - keys)
    && (forall k, l :: k in was.fields.Keys + now.fields.Keys - keys && l in keys ==> StringBefore(k, l))
    && (forall k :: k in keys ==> Key(k) !in done && OwnKind(was, now, k) !in own)
    && forall k :: k in was.fields.Keys + now.fields.Keys - keys ==>
         if k in was.fields && k in now.fields then Key(k) in done else OwnKind(was, now, k) in own
  }

  /** Everything so far is placed at one of the keys. */
  ghost predicate PlacedAmong(at: seq<Difference>, keys: set<string>) {
    forall d :: d in at ==> Place(d) != [] && Place(d)[0].Key? && Place(d)[0].k in keys
  }

  /** The least of the keys to do comes behind everything so far, and before the other keys. */
  ghost predicate IsLeast(k: string, keys: set<string>) {
    k in keys && forall l :: l in keys && l != k ==> StringBefore(k, l)
  }

  lemma ChildIsPlaced(at: seq<Difference>, subAt: seq<Difference>, done: set<string>, k: string)
    requires PlacedAmong(at, done)
    ensures PlacedAmong(at + AllBelow(Key(k), subAt), done + {k})
  {
    forall d | d in at + AllBelow(Key(k), subAt)
      ensures Place(d) != [] && Place(d)[0].Key? && Place(d)[0].k in done + {k}
    {
      if d !in at {
        var i :| 0 <= i < |subAt| && d == Below(Key(k), subAt[i]);
        PlaceBelow(Key(k), subAt[i]);
      }
    }
  }

  lemma ObjectChild(out: seq<string>, at: seq<Difference>, sub: seq<string>, subAt: seq<Difference>,
                    was: Json, now: Json, base: string, done: set<Step>, own: set<Kind>, keys: set<string>,
                    k: string)
    requires was.Obj? && now.Obj? && ObjectProgress(out, at, was, now, base, done, own, keys)
    requires IsLeast(k, keys) && k in was.fields && k in now.fields
    requires Reports(sub, subAt, was.fields[k], now.fields[k], base + ("/" + k))
    ensures ObjectProgress(out + sub, at + AllBelow(Key(k), subAt), was, now, base, done + {Key(k)}, own, keys - {k})
  {
    ShownOne(Key(k));
    var all := was.fields.Keys + now.fields.Keys;
    VisitChild(out, at, sub, subAt, was, now, base, done, own, Key(k));
    ChildIsPlaced(at, subAt, all - keys, k);
    assert all - (keys - {k}) == all - keys + {k};
  }

  lemma ObjectOwn(out: seq<string>, at: seq<Difference>, was: Json, now: Json, base: string, done: set<Step>,
                  own: set<Kind>, keys: set<string>, k: string)
    requires was.Obj? && now.Obj? && ObjectProgress(out, at, was, now, base, done, own, keys)
    requires IsLeast(k, keys) && (k in was.fields) != (k in now.fields)
    ensures var kind := OwnKind(was, now, k);
            ObjectProgress(out + [PrintAt(base, kind)], at + [Difference([], kind)], was, now, base, done, own + {kind},
                           keys - {k})
  {
    var all := was.fields.Keys + now.fields.Keys;
    VisitOwn(out, at, was, now, base, done, own, OwnKind(was, now, k));
    assert all - (keys - {k}) == all - keys + {k};
  }

  lemma ObjectEnd(out: seq<string>, at: seq<Difference>, was: Json, now: Json, base: string, done: set<Step>,
                  own: set<Kind>)
    requires was.Obj? && now.Obj? && ObjectProgress(out, at, was, now, base, done, own, {})
    ensures Reports(out, at, was, now, base)
  {
    forall step | Child(was, step).Some? && Child(now, step).Some? ensures step in done {
      assert step.k in was.fields.Keys + now.fields.Keys - {};
    }
    forall kind | NodeDiffers(was, now, kind) ensures kind in own {
      assert kind.k in was.fields.Keys + now.fields.Keys - {};
      assert kind == OwnKind(was, now, kind.k);
    }
    AllVisited(out, at, was, now, base, done, own);
  }

  method ObjectPaths(was: Json, now: Json, base: string) returns (out: seq<string>, ghost at: seq<Difference>)
    requires was.Obj? && now.Obj?
    ensures Reports(out, at, was, now, base)
    decreases was, 0
  {
    out, at := [], [];
    ghost var done: set<Step> := {};
    ghost var own: set<Kind> := {};
    var keys := was.fields.Keys + now.fields.Keys;
    while keys != {}
      invariant keys <= was.fields.Keys + now.fields.Keys
      invariant ObjectProgress(out, at, was, now, base, done, own, keys)
      decreases |keys|
    {
      var k := LeastKey(keys);
      if k in was.fields && k in now.fields {
        var sub, subAt := MaterialPaths(was.fields[k], now.fields[k], base + ("/" + k));
        ObjectChild(out, at, sub, subAt, was, now, base, done, own, keys, k);
        done := done + {Key(k)};
        out, at := out + sub, at + AllBelow(Key(k), subAt);
      } else {
        ObjectOwn(out, at, was, now, base, done, own, keys, k);
        own := own + {OwnKind(was, now, k)};
        out, at := out + [PrintAt(base, OwnKind(was, now, k))], at + [Difference([], OwnKind(was, now, k))];
      }
      keys := keys - {k};
    }
    ObjectEnd(out, at, was, now, base, done, own);
  }

  /** Exactly the first n elements are visited. */
  ghost predicate ListProgress(out: seq<string>, at: seq<Difference>, was: Json, now: Json, base: string,
                               done: set<Step>, n: nat)
  {
    && Collected(out, at, was, now, base, done, {})
    && (forall j: nat :: j < n <==> Index(j) in done)
    && PlacedBelow(at, n)
  }

  ghost predicate PlacedBelow(at: seq<Difference>, n: nat) {
    forall d :: d in at ==> Place(d) != [] && Place(d)[0].Index? && Place(d)[0].i < n
  }

  lemma ElementIsPlaced(at: seq<Difference>, subAt: seq<Difference>, i: nat)
    requires PlacedBelow(at, i)
    ensures PlacedBelow(at + AllBelow(Index(i), subAt), i + 1)
  {
    forall d | d in at + AllBelow(Index(i), subAt)
      ensures Place(d) != [] && Place(d)[0].Index? && Place(d)[0].i < i + 1
    {
      if d !in at {
        var j :| 0 <= j < |subAt| && d == Below(Index(i), subAt[j]);
        PlaceBelow(Index(i), subAt[j]);
      }
    }
  }

  lemma ListChild(out: seq<string>, at: seq<Difference>, sub: seq<string>, subAt: seq<Difference>,
                  was: Json, now: Json, base: string, done: set<Step>, i: nat)
    requires was.Arr? && now.Arr? && i < |was.items| && i < |now.items|
    requires ListProgress(out, at, was, now, base, done, i)
    requires Reports(sub, subAt, was.items[i], now.items[i], base + "[]")
    ensures ListProgress(out + sub, at + AllBelow(Index(i), subAt), was, now, base, done + {Index(i)}, i + 1)
  {
    ShownOne(Index(i));
    assert AllBefore(at, Index(i));
    VisitChild(out, at, sub, subAt, was, now, base, done, {}, Index(i));
    ElementIsPlaced(at, subAt, i);
  }

  lemma ListEnd(out: seq<string>, at: seq<Difference>, was: Json, now: Json, base: string, done: set<Step>,
                n: nat)
    requires was.Arr? && now.Arr? && ListProgress(out, at, was, now, base, done, n)
    requires n == if |was.items| < |now.items| then |was.items| else |now.items|
    ensures var kind := Resized(|was.items|, |now.items|);
            if |was.items| != |now.items|
            then Reports(out + [PrintAt(base, kind)], at + [Difference([], kind)], was, now, base)
            else Reports(out, at, was, now, base)
  {
    var kind := Resized(|was.items|, |now.items|);
    if |was.items| != |now.items| {
      VisitOwn(out, at, was, now, base, done, {}, kind);
      AllVisited(out + [PrintAt(base, kind)], at + [Difference([], kind)], was, now, base, done, {} + {kind});
    } else {
      AllVisited(out, at, was, now, base, done, {});
    }
  }

  method ListPaths(was: Json, now: Json, base: string) returns (out: seq<string>, ghost at: seq<Difference>)
    requires was.Arr? && now.Arr?
    ensures Reports(out, at, was, now, base)
    decreases was, 0
  {
    out, at := [], [];
    ghost var done: set<Step> := {};
    var n := if |was.items| < |now.items| then |was.items| else |now.items|;
    for i := 0 to n
      invariant ListProgress(out, at, was, now, base, done, i)
    {
      var sub, subAt := MaterialPaths(was.items[i], now.items[i], base + "[]");
      ListChild(out, at, sub, subAt, was, now, base, done, i);
      done := done + {Index(i)};
      out, at := out + sub, at + AllBelow(Index(i), subAt);
    }
    ListEnd(out, at, was, now, base, done, n);
    if |was.items| != |now.items| {
      out := out + [PrintAt(base, Resized(|was.items|, |now.items|))];
      at := at + [Difference([], Resized(|was.items|, |now.items|))];
    }
  }

  // ---- there is only one report ----

  lemma StepsOneWay(s: Step, t: Step)
    requires StepBefore(s, t)
    ensures s != t && !StepBefore(t, s)
  {
    if s.Key? {
      StringsOrdered(s.k, s.k);
      if StringBefore(t.k, s.k) {
        StringsChain(s.k, t.k, s.k);
      }
    }
  }

  lemma {:induction false} PlacesOneWay(p: Path, q: Path)
    requires Before(p, q)
    ensures p != q && !Before(q, p)
    decreases |p|
  {
    if StepBefore(p[0], q[0]) {
      StepsOneWay(p[0], q[0]);
    } else {
      PlacesOneWay(p[1..], q[1..]);
      NotBeforeItself(p[0]);
    }
  }

  lemma NotBeforeItself(s: Step)
    ensures !StepBefore(s, s)
  {
    if s.Key? {
      StringsOrdered(s.k, s.k);
    }
  }

  /** In order, no position is listed twice. */
  lemma NothingTwice(at: seq<Difference>, i: nat, j: nat)
    requires InOrder(at) && i < j < |at|
    ensures at[i] != at[j]
  {
    PlacesOneWay(Place(at[i]), Place(at[j]));
  }

  lemma FirstIsShared(at: seq<Difference>, other: seq<Difference>)
    requires InOrder(at) && InOrder(other) && at != [] && other != []
    requires forall d :: d in at <==> d in other
    ensures at[0] == other[0]
  {
    if at[0] != other[0] {
      LaterThanFirst(at, other[0]);
      LaterThanFirst(other, at[0]);
      PlacesOneWay(Place(at[0]), Place(other[0]));
    }
  }

  lemma LaterThanFirst(at: seq<Difference>, d: Difference)
    requires InOrder(at) && d in at && d != at[0]
    ensures Before(Place(at[0]), Place(d))
  {
    var i :| 0 <= i < |at| && at[i] == d;
  }

  lemma RestIsShared(at: seq<Difference>, other: seq<Difference>, d: Difference)
    requires InOrder(at) && at != [] && other != [] && at[0] == other[0] && d in at[1..]
    requires forall c :: c in at ==> c in other
    ensures d in other[1..]
  {
    var i :| 0 <= i < |at[1..]| && at[1..][i] == d;
    assert at[i + 1] == d && d in at;
    PlacesOneWay(Place(at[0]), Place(d));
    var j :| 0 <= j < |other| && other[j] == d;
    assert other[1..][j - 1] == d;
  }

  lemma NothingElse(at: seq<Difference>, other: seq<Difference>)
    requires at == [] && forall d :: d in other ==> d in at
    ensures other == []
  {
    if other != [] {
      var d := SomeElement(other);
      assert false;
    }
  }

  lemma SomeElement(xs: seq<Difference>) returns (d: Difference)
    requires xs != []
    ensures d in xs
  {
    d := xs[0];
  }

  lemma {:induction false} OrderIsUnique(at: seq<Difference>, other: seq<Difference>)
    requires InOrder(at) && InOrder(other)
    requires forall d :: d in at <==> d in other
    ensures at == other
  {
    if at == [] {
      NothingElse(at, other);
    } else if other == [] {
      NothingElse(other, at);
    } else {
      FirstIsShared(at, other);
      forall d ensures d in at[1..] <==> d in other[1..] {
        if d in at[1..] {
          RestIsShared(at, other, d);
        }
        if d in other[1..] {
          RestIsShared(other, at, d);
        }
      }
      OrderIsUnique(at[1..], other[1..]);
      assert at == [at[0]] + at[1..] && other == [other[0]] + other[1..];
    }
  }

  lemma OneReportOnly(out: seq<string>, at: seq<Difference>, other: seq<string>, otherAt: seq<Difference>,
                      a: Json, b: Json, base: string)
    requires Reports(out, at, a, b, base) && Reports(other, otherAt, a, b, base)
    ensures out == other
  {
    forall d ensures d in at <==> d in otherAt {
      assert d in at ==> IsDifference(a, b, d.path, d.kind);
      assert d in otherAt ==> IsDifference(a, b, d.path, d.kind);
    }
    OrderIsUnique(at, otherAt);
  }

  /** The promise leaves no choice: one report for each difference, in order, is one list of strings. */
  lemma ReportIsDetermined(out: seq<string>, other: seq<string>, a: Json, b: Json, base: string)
    requires IsReport(out, a, b, base) && IsReport(other, a, b, base)
    ensures out == other
  {
    var at :| Reports(out, at, a, b, base);
    var otherAt :| Reports(other, otherAt, a, b, base);
    OneReportOnly(out, at, other, otherAt, a, b, base);
  }

  // ---- what single edits are reported as ----

  /** A node that differs in one way, with equal children, is reported by one string. */
  lemma OneOwnDifference(out: seq<string>, a: Json, b: Json, base: string, kind: Kind)
    requires IsReport(out, a, b, base)
    requires NodeDiffers(a, b, kind) && forall other :: NodeDiffers(a, b, other) ==> other == kind
    requires forall step :: Child(a, step).Some? && Child(b, step).Some? ==> Child(a, step) == Child(b, step)
    ensures out == [PrintAt(base, kind)]
  {
    OneReport(a, b, base, kind);
    forall step | Child(a, step).Some? && Child(b, step).Some?
      ensures PyEq(Child(a, step).value, Child(b, step).value)
    {
      PyEqReflexive(Child(a, step).value);
    }
    AllVisited([PrintAt(base, kind)], [Difference([], kind)], a, b, base, {}, {kind});
    ReportIsDetermined(out, [PrintAt(base, kind)], a, b, base);
  }

  /** A leaf that changes, or a node that changes its type, is reported by its position alone. */
  lemma ChangedNode(out: seq<string>, was: Json, now: Json, base: string)
    requires !(was.Obj? && now.Obj?) && !(was.Arr? && now.Arr?) && IsReport(out, was, now, base)
    ensures out == if PyEq(was, now) then [] else if base == "" then ["/"] else [base]
  {
    LeafReports(was, now, base);
    ReportIsDetermined(out, if PyEq(was, now) then [] else [PrintAt(base, Changed)], was, now, base);
  }

  lemma AddedKey(out: seq<string>, f: map<string, Json>, k: string, v: Json, base: string)
    requires k !in f && IsReport(out, Obj(f), Obj(f[k := v]), base)
    ensures out == [base + "/" + k + " (added)"]
  {
    OneOwnDifference(out, Obj(f), Obj(f[k := v]), base, Added(k));
  }

  lemma RemovedKey(out: seq<string>, f: map<string, Json>, k: string, v: Json, base: string)
    requires k !in f && IsReport(out, Obj(f[k := v]), Obj(f), base)
    ensures out == [base + "/" + k + " (removed)"]
  {
    OneOwnDifference(out, Obj(f[k := v]), Obj(f), base, Removed(k));
  }

  lemma ResizedList(out: seq<string>, xs: seq<Json>, ys: seq<Json>, base: string)
    requires |xs| != |ys| && (forall i :: 0 <= i < |xs| && i < |ys| ==> xs[i] == ys[i])
    requires IsReport(out, Arr(xs), Arr(ys), base)
    ensures out == [base + "[] (length " + Decimal(|xs|) + " -> " + Decimal(|ys|) + ")"]
  {
    forall step | Child(Arr(xs), step).Some? && Child(Arr(ys), step).Some?
      ensures Child(Arr(xs), step) == Child(Arr(ys), step)
    {
      assert xs[step.i] == ys[step.i];
    }
    OneOwnDifference(out, Arr(xs), Arr(ys), base, Resized(|xs|, |ys|));
  }

  /** What changes below one child is reported as the child's own report, from the child's position. */
  lemma ChangedBelow(out: seq<string>, sub: seq<string>, a: Json, b: Json, base: string, step: Step)
    requires IsReport(out, a, b, base)
    requires Child(a, step).Some? && Child(b, step).Some?
    requires IsReport(sub, Child(a, step).value, Child(b, step).value, base + Shown([step]))
    requires forall other :: other != step && Child(a, other).Some? && Child(b, other).Some? ==>
               Child(a, other) == Child(b, other)
    requires forall kind :: !NodeDiffers(a, b, kind)
    ensures out == sub
  {
    var subAt :| Reports(sub, subAt, Child(a, step).value, Child(b, step).value, base + Shown([step]));
    NothingVisited(a, b, base);
    VisitChild([], [], sub, subAt, a, b, base, {}, {}, step);
    assert [] + sub == sub && [] + AllBelow(step, subAt) == AllBelow(step, subAt) && {} + {step} == {step};
    forall other | other != step && Child(a, other).Some? && Child(b, other).Some?
      ensures PyEq(Child(a, other).value, Child(b, other).value)
    {
      PyEqReflexive(Child(a, other).value);
    }
    AllVisited(sub, AllBelow(step, subAt), a, b, base, {step}, {});
    ReportIsDetermined(out, sub, a, b, base);
  }

  lemma ChangedAtKey(out: seq<string>, sub: seq<string>, f: map<string, Json>, k: string, v: Json, base: string)
    requires k in f && IsReport(out, Obj(f), Obj(f[k := v]), base) && IsReport(sub, f[k], v, base + "/" + k)
    ensures out == sub
  {
    ShownOne(Key(k));
    assert base + ("/" + k) == base + "/" + k;
    ChangedBelow(out, sub, Obj(f), Obj(f[k := v]), base, Key(k));
  }

  lemma ChangedAtIndex(out: seq<string>, sub: seq<string>, xs: seq<Json>, i: nat, v: Json, base: string)
    requires i < |xs| && IsReport(out, Arr(xs), Arr(xs[i := v]), base) && IsReport(sub, xs[i], v, base + "[]")
    ensures out == sub
  {
    ShownOne(Index(i));
    ChangedBelow(out, sub, Arr(xs), Arr(xs[i := v]), base, Index(i));
  }

  /** A string comes before another if it is a proper part of its front, or has the smaller character
      where they first differ. */
  lemma {:induction false} StringBeforeIff(s: string, t: string)
    ensures StringBefore(s, t) <==>
              s < t || exists i :: 0 <= i < |s| && i < |t| && s[..i] == t[..i] && s[i] < t[i]
  {
    if s != "" && t != "" && s[0] == t[0] {
      StringBeforeIff(s[1..], t[1..]);
      assert s == [s[0]] + s[1..] && t == [t[0]] + t[1..];
      SameFront(s, t);
    } else if s != "" && t != "" {
      if s[0] < t[0] {
        assert s[..0] == t[..0];
      }
      forall i | 0 <= i < |s| && i < |t| && s[..i] == t[..i] && s[i] < t[i] ensures i == 0 {
        if i > 0 {
          SharedFirst(s, t, i);
        }
      }
    }
  }

  lemma SharedFirst(s: string, t: string, i: nat)
    requires 0 < i <= |s| && i <= |t| && s[..i] == t[..i]
    ensures s[0] == t[0]
  {
    assert s[..i][0] == s[0] && t[..i][0] == t[0];
  }

  lemma SameFront(s: string, t: string)
    requires s != "" && t != "" && s[0] == t[0]
    ensures s < t <==> s[1..] < t[1..]
    ensures (exists i :: 0 <= i < |s| && i < |t| && s[..i] == t[..i] && s[i] < t[i])
       <==> (exists i :: 0 <= i < |s[1..]| && i < |t[1..]| && s[1..][..i] == t[1..][..i] && s[1..][i] < t[1..][i])
  {
    if i :| 0 <= i < |s| && i < |t| && s[..i] == t[..i] && s[i] < t[i] {
      assert s[1..][..i - 1] == s[..i][1..] && t[1..][..i - 1] == t[..i][1..];
      assert s[1..][i - 1] < t[1..][i - 1];
    }
    if i :| 0 <= i < |s[1..]| && i < |t[1..]| && s[1..][..i] == t[1..][..i] && s[1..][i] < t[1..][i] {
      assert s[..i + 1] == [s[0]] + s[1..][..i] && t[..i + 1] == [t[0]] + t[1..][..i];
      assert s[i + 1] < t[i + 1];
    }
  }

  /** The number that digits stand for. */
  function Digits(s: string): int {
    if s == "" then 0 else 10 * Digits(s[..|s| - 1]) + (s[|s| - 1] as int - '0' as int)
  }

  /** Lengths are printed as decimal numbers without a leading zero. */
  lemma {:induction false} DecimalIs(n: nat)
    ensures Digits(Decimal(n)) == n
    ensures |Decimal(n)| > 0 && forall i :: 0 <= i < |Decimal(n)| ==> '0' <= Decimal(n)[i] <= '9'
    ensures Decimal(n)[0] == '0' ==> n == 0
  {
    if n < 10 {
      assert Decimal(n)[..0] == "";
    } else {
      DecimalIs(n / 10);
      DecimalIs(n % 10);
      assert Decimal(n)[..|Decimal(n)| - 1] == Decimal(n / 10);
      assert Decimal(n % 10)[..0] == "";
    }
  }

  /** Without any difference the trees are equal in Python's sense, and the other way round. */
  lemma {:induction false} NoDifferenceIffEqual(a: Json, b: Json)
    ensures PyEq(a, b) <==> forall path, kind :: !IsDifference(a, b, path, kind)
    decreases a
  {
    if PyEq(a, b) {
      forall path, kind ensures !IsDifference(a, b, path, kind) {
        EqualHasNoDifference(a, b, path, kind);
      }
    } else {
      var path, kind := SomeDifference(a, b);
    }
  }

  lemma {:induction false} EqualHasNoDifference(a: Json, b: Json, path: Path, kind: Kind)
    requires PyEq(a, b)
    ensures !IsDifference(a, b, path, kind)
    decreases |path|
  {
    if path != [] {
      assert path == [path[0]] + path[1..];
      DifferenceBelow(a, b, path[0], path[1..], kind);
      if Child(a, path[0]).Some? && Child(b, path[0]).Some? {
        EqualHasNoDifference(Child(a, path[0]).value, Child(b, path[0]).value, path[1..], kind);
      }
    }
  }

  lemma {:induction false} SomeDifference(a: Json, b: Json) returns (path: Path, kind: Kind)
    requires !PyEq(a, b)
    ensures IsDifference(a, b, path, kind)
    decreases a
  {
    path := [];
    if a.Obj? && b.Obj? {
      if k :| k in a.fields && k !in b.fields {
        kind := Removed(k);
      } else if k :| k in b.fields && k !in a.fields {
        kind := Added(k);
      } else {
        var k :| k in a.fields && k in b.fields && !PyEq(a.fields[k], b.fields[k]);
        var rest;
        rest, kind := SomeDifference(a.fields[k], b.fields[k]);
        DifferenceBelow(a, b, Key(k), rest, kind);
        path := [Key(k)] + rest;
      }
    } else if a.Arr? && b.Arr? {
      if |a.items| != |b.items| {
        kind := Resized(|a.items|, |b.items|);
      } else {
        var i :| 0 <= i < |a.items| && !PyEq(a.items[i], b.items[i]);
        var rest;
        rest, kind := SomeDifference(a.items[i], b.items[i]);
        DifferenceBelow(a, b, Index(i), rest, kind);
        path := [Index(i)] + rest;
      }
    } else {
      kind := Changed;
    }
  }

  /** The report is empty exactly when the trees are equal in Python's sense. */
  lemma EmptyReportIffEqual(out: seq<string>, at: seq<Difference>, a: Json, b: Json, base: string)
    requires Reports(out, at, a, b, base)
    ensures out == [] <==> PyEq(a, b)
  {
    NoDifferenceIffEqual(a, b);
    if out != [] {
      assert IsDifference(a, b, at[0].path, at[0].kind);
    }
  }

  /** A bool against the number it equals, or an int against a float: Python equality hides it. */
  predicate TypesMeet(a: Json, b: Json) {
    (a.Bool? && b.Num?) || (a.Num? && b.Bool?) || (a.Num? && b.Num? && a.isFloat != b.isFloat)
  }

  predicate BoolMeetsNumber(a: Json, b: Json) {
    (a.Bool? && b.Num?) || (a.Num? && b.Bool?)
  }

  /** No position holds such a pair. */
  ghost predicate NoTypesMeet(a: Json, b: Json) {
    forall path :: At(a, path).Some? && At(b, path).Some? ==> !TypesMeet(At(a, path).value, At(b, path).value)
  }

  ghost predicate NoBoolMeetsNumber(a: Json, b: Json) {
    forall path :: At(a, path).Some? && At(b, path).Some? ==> !BoolMeetsNumber(At(a, path).value, At(b, path).value)
  }

  lemma ChildrenDoNotMeet(a: Json, b: Json, step: Step)
    requires NoTypesMeet(a, b) && Child(a, step).Some? && Child(b, step).Some?
    ensures NoTypesMeet(Child(a, step).value, Child(b, step).value)
  {
    var c, d := Child(a, step).value, Child(b, step).value;
    forall path | At(c, path).Some? && At(d, path).Some?
      ensures !TypesMeet(At(c, path).value, At(d, path).value)
    {
      var longer := [step] + path;
      assert longer[1..] == path;
      assert At(a, longer) == At(c, path) && At(b, longer) == At(d, path);
    }
  }

  lemma {:induction false} PyEqIsEquality(a: Json, b: Json)
    requires PyEq(a, b) && NoTypesMeet(a, b)
    ensures a == b
    decreases a
  {
    assert At(a, []) == Some(a) && At(b, []) == Some(b);
    match a
    case Obj(f) =>
      forall k | k in f ensures f[k] == b.fields[k] {
        ChildrenDoNotMeet(a, b, Key(k));
        PyEqIsEquality(f[k], b.fields[k]);
      }
      assert f == b.fields;
    case Arr(xs) =>
      forall i | 0 <= i < |xs| ensures xs[i] == b.items[i] {
        ChildrenDoNotMeet(a, b, Index(i));
        PyEqIsEquality(xs[i], b.items[i]);
      }
      assert xs == b.items;
    case _ =>
  }

  lemma {:induction false} PyEqReflexive(a: Json)
    ensures PyEq(a, a) && NoTypesMeet(a, a)
    decreases a
  {
    match a
    case Obj(f) =>
      forall k | k in f ensures PyEq(f[k], f[k]) {
        PyEqReflexive(f[k]);
      }
    case Arr(xs) =>
      forall i | 0 <= i < |xs| ensures PyEq(xs[i], xs[i]) {
        PyEqReflexive(xs[i]);
      }
    case _ =>
  }

  /** The trees are the same exactly when the report is empty and no bool stands against a number
      and no int against a float. */
  lemma SameTreeIff(out: seq<string>, at: seq<Difference>, a: Json, b: Json, base: string)
    requires Reports(out, at, a, b, base)
    ensures a == b <==> out == [] && NoTypesMeet(a, b)
  {
    EmptyReportIffEqual(out, at, a, b, base);
    if a == b {
      PyEqReflexive(a);
    } else if PyEq(a, b) && NoTypesMeet(a, b) {
      PyEqIsEquality(a, b);
    }
  }

  /** Where the merged tree equals the old one in Python's sense, a pair of types is hidden exactly if
      the regenerated tree has a bool against a number there. */
  lemma HiddenPair(was: Json, now: Json, tol: real, path: Path)
    requires tol >= 0.0 && PyEq(was, Merge(was, now, tol)) && At(was, path).Some?
    ensures At(Merge(was, now, tol), path).Some? <==> At(now, path).Some?
    ensures At(now, path).Some? ==>
              (TypesMeet(At(was, path).value, At(Merge(was, now, tol), path).value)
               <==> BoolMeetsNumber(At(was, path).value, At(now, path).value))
  {
    var merged := Merge(was, now, tol);
    MergeAt(was, now, tol, path);
    NoDifferenceIffEqual(was, merged);
    assert !IsDifference(was, merged, path, Changed);
  }

  lemma HiddenPairs(was: Json, now: Json, tol: real)
    requires tol >= 0.0 && PyEq(was, Merge(was, now, tol))
    ensures NoTypesMeet(was, Merge(was, now, tol)) <==> NoBoolMeetsNumber(was, now)
  {
    var merged := Merge(was, now, tol);
    forall path | At(was, path).Some?
      ensures At(merged, path).Some? <==> At(now, path).Some?
      ensures At(now, path).Some? ==> (TypesMeet(At(was, path).value, At(merged, path).value)
                                       <==> BoolMeetsNumber(At(was, path).value, At(now, path).value))
    {
      HiddenPair(was, now, tol, path);
    }
  }

  /** After the merge only the bools remain hidden: an int rewritten as the float it equals is noise,
      and the merge restores it. */
  lemma MergedSameIff(out: seq<string>, at: seq<Difference>, was: Json, now: Json, tol: real, base: string)
    requires tol >= 0.0 && Reports(out, at, was, Merge(was, now, tol), base)
    ensures Merge(was, now, tol) == was <==> out == [] && NoBoolMeetsNumber(was, now)
  {
    SameTreeIff(out, at, was, Merge(was, now, tol), base);
    EmptyReportIffEqual(out, at, was, Merge(was, now, tol), base);
    if out == [] {
      HiddenPairs(was, now, tol);
    }
  }

  /** The hidden change: true rewritten as 1 is merged in but never reported. */
  lemma HiddenChange(out: seq<string>, at: seq<Difference>, tol: real)
    requires Reports(out, at, Bool(true), Merge(Bool(true), Num(1.0, false), tol), "")
    ensures Merge(Bool(true), Num(1.0, false), tol) != Bool(true) && out == []
  {
    EmptyReportIffEqual(out, at, Bool(true), Num(1.0, false), "");
  }

  /** Minimising removes exactly the noise from the report: what is still reported after the merge is
      what was reported before, except numbers within the tolerance. */
  lemma MergeRemovesExactlyNoise(was: Json, now: Json, tol: real, path: Path, kind: Kind)
    ensures IsDifference(was, Merge(was, now, tol), path, kind) <==>
              IsDifference(was, now, path, kind) && !IsNoise(At(was, path), At(now, path).value, tol)
  {
    MergeAt(was, now, tol, path);
    if At(now, path).Some? && At(was, path).Some? {
      var o, n, m := At(was, path).value, At(now, path).value, At(Merge(was, now, tol), path).value;
      SameKindOfDifference(o, m, n, kind);
    }
  }

  lemma SameKindOfDifference(o: Json, m: Json, n: Json, kind: Kind)
    requires SameNode(m, n)
    ensures !n.Num? ==> (NodeDiffers(o, m, kind) <==> NodeDiffers(o, n, kind))
    ensures o == m && m.Num? ==> !NodeDiffers(o, m, kind)
  {
  }
}
