/** Cutting a line of points at its bad edges: the maximal runs of good edges, and what they keep. */
module LineRuns {

  type Edge<!T> = (T, T) -> bool

  /** The finished runs of the first `n` points, and the run still open at the last of them. */
  datatype Cut<T> = Cut(closed: seq<seq<T>>, open: seq<T>)

  /** A run of fewer than two points is no line. */
  function Keep<T>(run: seq<T>): seq<seq<T>> { if |run| >= 2 then [run] else [] }

  function CutUpTo<T>(s: seq<T>, ok: Edge<T>, n: nat): (c: Cut<T>)
    requires 0 < n <= |s|
    ensures c.open != [] && c.open[|c.open| - 1] == s[n - 1]
  {
    if n == 1 then Cut([], [s[0]]) else Extend(CutUpTo(s, ok, n - 1), s[n - 1], ok)
  }

  function Extend<T>(c: Cut<T>, x: T, ok: Edge<T>): Cut<T>
    requires c.open != []
  {
    if ok(c.open[|c.open| - 1], x) then Cut(c.closed, c.open + [x]) else Cut(c.closed + Keep(c.open), [x])
  }

  function Finish<T>(c: Cut<T>): seq<seq<T>> { c.closed + Keep(c.open) }

  /** One pass: the runs of `s` in which every edge is good. */
  function Runs<T>(s: seq<T>, ok: Edge<T>): seq<seq<T>> {
    if s == [] then [] else Finish(CutUpTo(s, ok, |s|))
  }

  // ---- the runs are exactly the maximal ones ----

  ghost predicate GoodWithin<T>(s: seq<T>, ok: Edge<T>, lo: nat, hi: nat)
    requires hi <= |s|
  {
    forall i, j :: lo <= i < j < hi && j == i + 1 ==> ok(s[i], s[j])
  }

  predicate BadBefore<T>(s: seq<T>, ok: Edge<T>, i: nat)
    requires i <= |s|
  {
    i == 0 || i == |s| || !ok(s[i - 1], s[i])
  }

  /** Points `lo` to `hi` are joined by good edges only, and neither end can be moved outwards. */
  ghost predicate IsRun<T>(s: seq<T>, ok: Edge<T>, lo: nat, hi: nat) {
    lo + 2 <= hi <= |s| && GoodWithin(s, ok, lo, hi) && BadBefore(s, ok, lo) && BadBefore(s, ok, hi)
  }

  /** Where the open run starts, and the bounds of the finished ones. */
  function StartOf<T>(s: seq<T>, ok: Edge<T>, n: nat): (start: nat)
    requires 0 < n <= |s|
    ensures start < n
  {
    if n == 1 then 0 else if ok(s[n - 2], s[n - 1]) then StartOf(s, ok, n - 1) else n - 1
  }

  function KeepBounds(lo: nat, hi: nat): seq<(nat, nat)> { if lo + 2 <= hi then [(lo, hi)] else [] }

  function BoundsUpTo<T>(s: seq<T>, ok: Edge<T>, n: nat): seq<(nat, nat)>
    requires 0 < n <= |s|
  {
    if n == 1 then []
    else BoundsUpTo(s, ok, n - 1) + if ok(s[n - 2], s[n - 1]) then [] else KeepBounds(StartOf(s, ok, n - 1), n - 1)
  }

  function Bounds<T>(s: seq<T>, ok: Edge<T>): seq<(nat, nat)> {
    if s == [] then [] else BoundsUpTo(s, ok, |s|) + KeepBounds(StartOf(s, ok, |s|), |s|)
  }

  lemma {:induction false} StartIsRight<T>(s: seq<T>, ok: Edge<T>, n: nat)
    requires 0 < n <= |s|
    ensures GoodWithin(s, ok, StartOf(s, ok, n), n)
    ensures StartOf(s, ok, n) == 0 || !ok(s[StartOf(s, ok, n) - 1], s[StartOf(s, ok, n)])
  {
    if n > 1 { StartIsRight(s, ok, n - 1); }
  }

  lemma NoBadInside<T>(s: seq<T>, ok: Edge<T>, lo: nat, hi: nat, i: nat)
    requires hi <= |s| && i <= |s| && GoodWithin(s, ok, lo, hi) && BadBefore(s, ok, i)
    ensures !(lo < i < hi)
  {
  }

  /** A maximal run that ends in the stretch from the open start to a bad edge is that stretch. */
  lemma RunInStretch<T>(s: seq<T>, ok: Edge<T>, start: nat, n: nat, lo: nat, hi: nat)
    requires start < n <= |s| && GoodWithin(s, ok, start, n) && BadBefore(s, ok, start) && BadBefore(s, ok, n)
    requires start < hi <= n
    ensures IsRun(s, ok, lo, hi) <==> lo == start && hi == n && lo + 2 <= hi
  {
    if IsRun(s, ok, lo, hi) {
      NoBadInside(s, ok, lo, hi, start);
      NoBadInside(s, ok, start, n, lo);
      NoBadInside(s, ok, start, n, hi);
    }
  }

  lemma {:induction false} BoundsAreRuns<T>(s: seq<T>, ok: Edge<T>, n: nat, lo: nat, hi: nat)
    requires 0 < n <= |s|
    ensures (lo, hi) in BoundsUpTo(s, ok, n) <==> IsRun(s, ok, lo, hi) && hi <= StartOf(s, ok, n)
  {
    if n > 1 {
      BoundsAreRuns(s, ok, n - 1, lo, hi);
      var start := StartOf(s, ok, n - 1);
      StartIsRight(s, ok, n - 1);
      if !ok(s[n - 2], s[n - 1]) && start < hi <= n - 1 {
        RunInStretch(s, ok, start, n - 1, lo, hi);
      }
    }
  }

  ghost predicate IsSlice<T>(run: seq<T>, s: seq<T>, bounds: (nat, nat)) {
    bounds.0 <= bounds.1 <= |s| && run == s[bounds.0..bounds.1]
  }

  ghost predicate AreSlices<T>(runs: seq<seq<T>>, s: seq<T>, bounds: seq<(nat, nat)>) {
    |runs| == |bounds| && forall k :: 0 <= k < |bounds| ==> IsSlice(runs[k], s, bounds[k])
  }

  lemma SliceSnoc<T>(s: seq<T>, lo: nat, n: nat)
    requires lo <= n < |s|
    ensures s[lo..n] + [s[n]] == s[lo..n + 1]
  {
  }

  lemma {:induction false} OpenIsSlice<T>(s: seq<T>, ok: Edge<T>, n: nat)
    requires 0 < n <= |s|
    ensures CutUpTo(s, ok, n).open == s[StartOf(s, ok, n)..n]
  {
    if n > 1 {
      OpenIsSlice(s, ok, n - 1);
      SliceSnoc(s, StartOf(s, ok, n - 1), n - 1);
    }
  }

  lemma OneMoreSlice<T>(runs: seq<seq<T>>, run: seq<T>, s: seq<T>, bounds: seq<(nat, nat)>, lo: nat, hi: nat)
    requires AreSlices(runs, s, bounds) && IsSlice(run, s, (lo, hi))
    ensures AreSlices(runs + Keep(run), s, bounds + KeepBounds(lo, hi))
  {
  }

  lemma {:induction false} CutIsSlices<T>(s: seq<T>, ok: Edge<T>, n: nat)
    requires 0 < n <= |s|
    ensures AreSlices(CutUpTo(s, ok, n).closed, s, BoundsUpTo(s, ok, n))
  {
    if n > 1 {
      CutIsSlices(s, ok, n - 1);
      if ok(s[n - 2], s[n - 1]) {
        assert BoundsUpTo(s, ok, n) == BoundsUpTo(s, ok, n - 1);
      } else {
        OpenIsSlice(s, ok, n - 1);
        OneMoreSlice(CutUpTo(s, ok, n - 1).closed, CutUpTo(s, ok, n - 1).open, s, BoundsUpTo(s, ok, n - 1),
                     StartOf(s, ok, n - 1), n - 1);
      }
    }
  }

  ghost predicate Ascending(b: seq<(nat, nat)>, top: nat) {
    && (forall k :: 0 <= k < |b| ==> b[k].0 <= b[k].1 <= top)
    && (forall j, k :: 0 <= j < k < |b| ==> b[j].1 <= b[k].0)
  }

  lemma AscendMore(b: seq<(nat, nat)>, lo: nat, hi: nat)
    requires Ascending(b, lo) && lo <= hi
    ensures Ascending(b + KeepBounds(lo, hi), hi)
  {
  }

  lemma {:induction false} BoundsAscend<T>(s: seq<T>, ok: Edge<T>, n: nat)
    requires 0 < n <= |s|
    ensures Ascending(BoundsUpTo(s, ok, n), StartOf(s, ok, n))
  {
    if n > 1 {
      BoundsAscend(s, ok, n - 1);
      AscendMore(BoundsUpTo(s, ok, n - 1), StartOf(s, ok, n - 1), n - 1);
      if ok(s[n - 2], s[n - 1]) { assert BoundsUpTo(s, ok, n) == BoundsUpTo(s, ok, n - 1); }
    }
  }

  lemma BoundsAreExactlyRuns<T>(s: seq<T>, ok: Edge<T>, lo: nat, hi: nat)
    ensures (lo, hi) in Bounds(s, ok) <==> IsRun(s, ok, lo, hi)
  {
    if s != [] {
      var start := StartOf(s, ok, |s|);
      StartIsRight(s, ok, |s|);
      BoundsAreRuns(s, ok, |s|, lo, hi);
      if start < hi <= |s| { RunInStretch(s, ok, start, |s|, lo, hi); }
    }
  }

  lemma RunsAreSlices<T>(s: seq<T>, ok: Edge<T>)
    ensures AreSlices(Runs(s, ok), s, Bounds(s, ok))
  {
    if s != [] {
      CutIsSlices(s, ok, |s|);
      OpenIsSlice(s, ok, |s|);
      OneMoreSlice(CutUpTo(s, ok, |s|).closed, CutUpTo(s, ok, |s|).open, s, BoundsUpTo(s, ok, |s|),
                   StartOf(s, ok, |s|), |s|);
    }
  }

  /** The bounds are exactly those of the maximal runs, from left to right, and the runs are what lies
      between them. */
  lemma RunsAreMaximal<T>(s: seq<T>, ok: Edge<T>)
    ensures forall lo: nat, hi: nat :: (lo, hi) in Bounds(s, ok) <==> IsRun(s, ok, lo, hi)
    ensures Ascending(Bounds(s, ok), |s|)
    ensures AreSlices(Runs(s, ok), s, Bounds(s, ok))
  {
    forall lo: nat, hi: nat ensures (lo, hi) in Bounds(s, ok) <==> IsRun(s, ok, lo, hi) {
      BoundsAreExactlyRuns(s, ok, lo, hi);
    }
    RunsAreSlices(s, ok);
    if s != [] {
      BoundsAscend(s, ok, |s|);
      AscendMore(BoundsUpTo(s, ok, |s|), StartOf(s, ok, |s|), |s|);
    }
  }

  // ---- cutting twice is cutting once ----

  function Both<T>(f: Edge<T>, g: Edge<T>): Edge<T> { (a, b) => f(a, b) && g(a, b) }

  /** The runs of every part, in order. */
  function RunsOfAll<T>(parts: seq<seq<T>>, ok: Edge<T>, n: nat): seq<seq<T>>
    requires n <= |parts|
  {
    if n == 0 then [] else RunsOfAll(parts, ok, n - 1) + Runs(parts[n - 1], ok)
  }

  function AllRuns<T>(parts: seq<seq<T>>, ok: Edge<T>): seq<seq<T>> { RunsOfAll(parts, ok, |parts|) }

  lemma AtFront<X>(a: seq<X>, b: seq<X>, i: nat)
    requires i < |a|
    ensures (a + b)[i] == a[i]
  {
  }

  lemma {:induction false} RunsOfAllPrefix<T>(a: seq<seq<T>>, b: seq<seq<T>>, ok: Edge<T>, n: nat)
    requires n <= |a|
    ensures RunsOfAll(a + b, ok, n) == RunsOfAll(a, ok, n)
  {
    if n > 0 {
      RunsOfAllPrefix(a, b, ok, n - 1);
      AtFront(a, b, n - 1);
    }
  }

  lemma AllRunsSnoc<T>(a: seq<seq<T>>, p: seq<T>, ok: Edge<T>)
    ensures AllRuns(a + [p], ok) == AllRuns(a, ok) + Runs(p, ok)
  {
    RunsOfAllPrefix(a, [p], ok, |a|);
    assert (a + [p])[|a|] == p;
  }

  lemma {:induction false} CutPrefix<T>(s: seq<T>, t: seq<T>, ok: Edge<T>, n: nat)
    requires 0 < n <= |s|
    ensures CutUpTo(s + t, ok, n) == CutUpTo(s, ok, n)
  {
    assert (s + t)[n - 1] == s[n - 1];
    if n > 1 { CutPrefix(s, t, ok, n - 1); }
  }

  lemma CutSnoc<T>(s: seq<T>, x: T, ok: Edge<T>)
    requires s != []
    ensures CutUpTo(s + [x], ok, |s| + 1) == Extend(CutUpTo(s, ok, |s|), x, ok)
  {
    CutPrefix(s, [x], ok, |s|);
    assert (s + [x])[|s|] == x;
  }

  /** The two-stage cut after some points agrees with the one-stage cut. */
  ghost predicate InPhase<T>(outer: Cut<T>, both: Cut<T>, g: Edge<T>) {
    && outer.open != []
    && AllRuns(outer.closed, g) + CutUpTo(outer.open, g, |outer.open|).closed == both.closed
    && CutUpTo(outer.open, g, |outer.open|).open == both.open
  }

  lemma ExtendInPhase<T>(outer: Cut<T>, both: Cut<T>, x: T, f: Edge<T>, g: Edge<T>)
    requires InPhase(outer, both, g) && f(outer.open[|outer.open| - 1], x)
    ensures InPhase(Extend(outer, x, f), Extend(both, x, Both(f, g)), g)
  {
    var inner := CutUpTo(outer.open, g, |outer.open|);
    CutSnoc(outer.open, x, g);
    CutPrefix(outer.open, [x], g, |outer.open|);
    ExtendBehind(AllRuns(outer.closed, g), inner, both, x, f, g);
  }

  /** A finished part in front changes nothing. */
  lemma ExtendBehind<T>(front: seq<seq<T>>, inner: Cut<T>, both: Cut<T>, x: T, f: Edge<T>, g: Edge<T>)
    requires inner.open != [] && inner.open == both.open && front + inner.closed == both.closed
    requires f(inner.open[|inner.open| - 1], x)
    ensures front + Extend(inner, x, g).closed == Extend(both, x, Both(f, g)).closed
    ensures Extend(inner, x, g).open == Extend(both, x, Both(f, g)).open
  {
    Associate(front, inner.closed, Keep(inner.open));
  }

  lemma Associate<T>(a: seq<T>, b: seq<T>, c: seq<T>)
    ensures a + (b + c) == a + b + c
  {
  }

  lemma StayInPhase<T>(outer: Cut<T>, both: Cut<T>, x: T, f: Edge<T>, g: Edge<T>)
    requires InPhase(outer, both, g)
    ensures InPhase(Extend(outer, x, f), Extend(both, x, Both(f, g)), g)
  {
    if f(outer.open[|outer.open| - 1], x) {
      ExtendInPhase(outer, both, x, f, g);
    } else {
      CloseInPhase(outer, both, g);
      assert CutUpTo([x], g, 1) == Cut([], [x]);
    }
  }

  lemma CloseInPhase<T>(outer: Cut<T>, both: Cut<T>, g: Edge<T>)
    requires InPhase(outer, both, g)
    ensures AllRuns(Finish(outer), g) == Finish(both)
  {
    var inner := CutUpTo(outer.open, g, |outer.open|);
    if |outer.open| >= 2 {
      AllRunsSnoc(outer.closed, outer.open, g);
      Associate(AllRuns(outer.closed, g), inner.closed, Keep(inner.open));
    } else {
      assert inner == Cut([], outer.open);
      assert Finish(outer) == outer.closed;
    }
  }

  lemma {:induction false} PhaseUpTo<T>(s: seq<T>, f: Edge<T>, g: Edge<T>, n: nat)
    requires 0 < n <= |s|
    ensures InPhase(CutUpTo(s, f, n), CutUpTo(s, Both(f, g), n), g)
  {
    if n > 1 {
      PhaseUpTo(s, f, g, n - 1);
      StayInPhase(CutUpTo(s, f, n - 1), CutUpTo(s, Both(f, g), n - 1), s[n - 1], f, g);
    }
  }

  /** Cutting at one kind of bad edge and then cutting the pieces at another kind is one pass that cuts
      at both. */
  lemma Fusion<T>(s: seq<T>, f: Edge<T>, g: Edge<T>)
    ensures AllRuns(Runs(s, f), g) == Runs(s, Both(f, g))
  {
    if s != [] {
      PhaseUpTo(s, f, g, |s|);
      CloseInPhase(CutUpTo(s, f, |s|), CutUpTo(s, Both(f, g), |s|), g);
    }
  }

  // ---- no good edge is lost, none is invented ----

  /** The edges among the first `n` points, in order. */
  function EdgesUpTo<T>(s: seq<T>, n: nat): seq<(T, T)>
    requires n <= |s|
  {
    if n < 2 then [] else EdgesUpTo(s, n - 1) + [(s[n - 2], s[n - 1])]
  }

  function Edges<T>(s: seq<T>): seq<(T, T)> { EdgesUpTo(s, |s|) }

  /** The edges of the first `n` parts, part by part. */
  function EdgesOfFirst<T>(parts: seq<seq<T>>, n: nat): seq<(T, T)>
    requires n <= |parts|
  {
    if n == 0 then [] else EdgesOfFirst(parts, n - 1) + Edges(parts[n - 1])
  }

  function EdgesOfAll<T>(parts: seq<seq<T>>): seq<(T, T)> { EdgesOfFirst(parts, |parts|) }

  /** The good ones among the edges of the first `n` points. */
  function GoodEdgesUpTo<T>(s: seq<T>, ok: Edge<T>, n: nat): seq<(T, T)>
    requires n <= |s|
  {
    if n < 2 then []
    else GoodEdgesUpTo(s, ok, n - 1) + if ok(s[n - 2], s[n - 1]) then [(s[n - 2], s[n - 1])] else []
  }

  lemma {:induction false} EdgesPrefix<T>(s: seq<T>, x: T, n: nat)
    requires n <= |s|
    ensures EdgesUpTo(s + [x], n) == EdgesUpTo(s, n)
  {
    if n >= 2 {
      EdgesPrefix(s, x, n - 1);
      assert (s + [x])[n - 1] == s[n - 1] && (s + [x])[n - 2] == s[n - 2];
    }
  }

  lemma EdgesSnoc<T>(s: seq<T>, x: T)
    requires s != []
    ensures Edges(s + [x]) == Edges(s) + [(s[|s| - 1], x)]
  {
    EdgesPrefix(s, x, |s|);
    assert (s + [x])[|s|] == x && (s + [x])[|s| - 1] == s[|s| - 1];
  }

  lemma {:induction false} EdgesOfPrefix<T>(a: seq<seq<T>>, b: seq<seq<T>>, n: nat)
    requires n <= |a|
    ensures EdgesOfFirst(a + b, n) == EdgesOfFirst(a, n)
  {
    if n > 0 {
      EdgesOfPrefix(a, b, n - 1);
      assert (a + b)[n - 1] == a[n - 1];
    }
  }

  lemma EdgesOfAllSnoc<T>(parts: seq<seq<T>>, p: seq<T>)
    ensures EdgesOfAll(parts + [p]) == EdgesOfAll(parts) + Edges(p)
  {
    EdgesOfPrefix(parts, [p], |parts|);
    assert (parts + [p])[|parts|] == p;
  }

  lemma {:induction false} EdgesOfConcat<T>(a: seq<seq<T>>, b: seq<seq<T>>, n: nat)
    requires n <= |b|
    ensures EdgesOfFirst(a + b, |a| + n) == EdgesOfAll(a) + EdgesOfFirst(b, n)
  {
    if n == 0 {
      EdgesOfPrefix(a, b, |a|);
    } else {
      EdgesOfConcat(a, b, n - 1);
      assert (a + b)[|a| + n - 1] == b[n - 1];
      Associate(EdgesOfAll(a), EdgesOfFirst(b, n - 1), Edges(b[n - 1]));
    }
  }

  lemma EdgesOfFinish<T>(c: Cut<T>)
    ensures EdgesOfAll(Finish(c)) == EdgesOfAll(c.closed) + Edges(c.open)
  {
    if |c.open| >= 2 {
      EdgesOfAllSnoc(c.closed, c.open);
    } else {
      assert Finish(c) == c.closed && Edges(c.open) == [];
    }
  }

  lemma {:induction false} CutKeepsGoodEdges<T>(s: seq<T>, ok: Edge<T>, n: nat)
    requires 0 < n <= |s|
    ensures EdgesOfAll(CutUpTo(s, ok, n).closed) + Edges(CutUpTo(s, ok, n).open) == GoodEdgesUpTo(s, ok, n)
  {
    if n > 1 {
      CutKeepsGoodEdges(s, ok, n - 1);
      var c := CutUpTo(s, ok, n - 1);
      if ok(s[n - 2], s[n - 1]) {
        EdgesSnoc(c.open, s[n - 1]);
        assert EdgesOfAll(c.closed) + (Edges(c.open) + [(s[n - 2], s[n - 1])])
            == EdgesOfAll(c.closed) + Edges(c.open) + [(s[n - 2], s[n - 1])];
      } else {
        EdgesOfFinish(c);
        assert Edges([s[n - 1]]) == [];
      }
    }
  }

  /** The edges of the runs, read off in order, are exactly the good edges of the line, in order. */
  lemma RunsKeepGoodEdges<T>(s: seq<T>, ok: Edge<T>)
    ensures EdgesOfAll(Runs(s, ok)) == GoodEdgesUpTo(s, ok, |s|)
  {
    if s != [] {
      CutKeepsGoodEdges(s, ok, |s|);
      EdgesOfFinish(CutUpTo(s, ok, |s|));
    }
  }

  /** The good edges of the first `n` parts, part by part. */
  function GoodEdgesOfFirst<T>(parts: seq<seq<T>>, ok: Edge<T>, n: nat): seq<(T, T)>
    requires n <= |parts|
  {
    if n == 0 then [] else GoodEdgesOfFirst(parts, ok, n - 1) + GoodEdgesUpTo(parts[n - 1], ok, |parts[n - 1]|)
  }

  ghost predicate HasEdges<T>(parts: seq<seq<T>>, edges: seq<(T, T)>) { EdgesOfAll(parts) == edges }

  lemma JoinEdges<T>(a: seq<seq<T>>, b: seq<seq<T>>, ea: seq<(T, T)>, eb: seq<(T, T)>)
    requires HasEdges(a, ea) && HasEdges(b, eb)
    ensures HasEdges(a + b, ea + eb)
  {
    EdgesOfConcat(a, b, |b|);
    assert |a + b| == |a| + |b|;
  }

  lemma OneMorePart<T>(parts: seq<seq<T>>, ok: Edge<T>, n: nat)
    requires n < |parts|
    ensures RunsOfAll(parts, ok, n + 1) == RunsOfAll(parts, ok, n) + Runs(parts[n], ok)
    ensures GoodEdgesOfFirst(parts, ok, n + 1)
            == GoodEdgesOfFirst(parts, ok, n) + GoodEdgesUpTo(parts[n], ok, |parts[n]|)
  {
  }

  lemma {:induction false} AllRunsKeepGoodEdges<T>(parts: seq<seq<T>>, ok: Edge<T>, n: nat)
    requires n <= |parts|
    ensures HasEdges(RunsOfAll(parts, ok, n), GoodEdgesOfFirst(parts, ok, n))
  {
    if n > 0 {
      AllRunsKeepGoodEdges(parts, ok, n - 1);
      OneMorePart(parts, ok, n - 1);
      RunsKeepGoodEdges(parts[n - 1], ok);
      JoinEdges(RunsOfAll(parts, ok, n - 1), Runs(parts[n - 1], ok),
                GoodEdgesOfFirst(parts, ok, n - 1), GoodEdgesUpTo(parts[n - 1], ok, |parts[n - 1]|));
    }
  }

  // ---- cutting again changes nothing ----

  ghost predicate AllGood<T>(s: seq<T>, ok: Edge<T>) { |s| >= 2 && GoodWithin(s, ok, 0, |s|) }

  lemma RunsAreGood<T>(s: seq<T>, ok: Edge<T>)
    ensures forall k :: 0 <= k < |Runs(s, ok)| ==> AllGood(Runs(s, ok)[k], ok)
  {
    RunsAreMaximal(s, ok);
    forall k | 0 <= k < |Runs(s, ok)| ensures AllGood(Runs(s, ok)[k], ok) {
      var (lo, hi) := Bounds(s, ok)[k];
      assert (lo, hi) in Bounds(s, ok) && IsRun(s, ok, lo, hi) && IsSlice(Runs(s, ok)[k], s, (lo, hi));
      SliceIsGood(s, ok, lo, hi);
    }
  }

  lemma SliceIsGood<T>(s: seq<T>, ok: Edge<T>, lo: nat, hi: nat)
    requires IsRun(s, ok, lo, hi)
    ensures AllGood(s[lo..hi], ok)
  {
  }

  lemma {:induction false} GoodCut<T>(s: seq<T>, ok: Edge<T>, n: nat)
    requires 0 < n <= |s| && GoodWithin(s, ok, 0, |s|)
    ensures CutUpTo(s, ok, n) == Cut([], s[..n])
  {
    if n > 1 {
      GoodCut(s, ok, n - 1);
      assert ok(s[n - 2], s[n - 1]);
      assert s[..n - 1] + [s[n - 1]] == s[..n];
    }
  }

  lemma GoodIsOneRun<T>(s: seq<T>, ok: Edge<T>)
    requires AllGood(s, ok)
    ensures Runs(s, ok) == [s]
  {
    GoodCut(s, ok, |s|);
    assert s[..|s|] == s;
  }

  lemma {:induction false} GoodPartsAreFixed<T>(parts: seq<seq<T>>, ok: Edge<T>, n: nat)
    requires n <= |parts| && forall k :: 0 <= k < |parts| ==> AllGood(parts[k], ok)
    ensures RunsOfAll(parts, ok, n) == parts[..n]
  {
    if n > 0 {
      GoodPartsAreFixed(parts, ok, n - 1);
      GoodIsOneRun(parts[n - 1], ok);
      assert parts[..n - 1] + [parts[n - 1]] == parts[..n];
    }
  }

  lemma {:induction false} AllRunsAreGood<T>(parts: seq<seq<T>>, ok: Edge<T>, n: nat)
    requires n <= |parts|
    ensures forall k :: 0 <= k < |RunsOfAll(parts, ok, n)| ==> AllGood(RunsOfAll(parts, ok, n)[k], ok)
  {
    if n > 0 {
      AllRunsAreGood(parts, ok, n - 1);
      RunsAreGood(parts[n - 1], ok);
    }
  }
}
