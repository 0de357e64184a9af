/** The order of the representatives: which list the selection of KeyedBest is, with no room left. */
module ArrivalOrder {
  import opened KeyedBest

  /** Record `i` opens a place of its own: it has no key, or is the first with its key. */
  ghost predicate Opens<T, K>(all: seq<T>, r: Rule<T, K>, i: int) {
    0 <= i < |all| && (r.key(all[i]) == r.none || forall j :: 0 <= j < i ==> r.key(all[j]) != r.key(all[i]))
  }

  /** `v` belongs where record `i` opens: the record itself, or the representative of its key. */
  ghost predicate Fills<T, K>(v: T, all: seq<T>, r: Rule<T, K>, i: nat)
    requires i < |all|
  {
    if r.key(all[i]) == r.none then v == all[i]
    else exists w :: IsWinner(all, r, r.key(all[i]), w) && v == all[w]
  }

  ghost predicate Ascending(s: seq<nat>) { forall p, q :: 0 <= p < q < |s| ==> s[p] < s[q] }

  /** `openers` are all the records that open a place, in ascending order, and `slots` what fills their places. */
  ghost predicate InOrder<T, K>(slots: seq<T>, all: seq<T>, r: Rule<T, K>, openers: seq<nat>) {
    && |openers| == |slots| && Ascending(openers)
    && (forall i: nat :: i in openers <==> Opens(all, r, i))
    && forall p :: 0 <= p < |slots| ==> openers[p] < |all| && Fills(slots[p], all, r, openers[p])
  }

  // ---- the selection is in order ----

  function Openers<T, K(==)>(all: seq<T>, r: Rule<T, K>, n: nat): seq<nat>
    requires n <= |all|
  {
    if n == 0 then [] else Openers(all, r, n - 1) + if SlotOf(all, r, n - 1) == [] then [] else [n - 1]
  }

  lemma SlotOpens<T, K>(all: seq<T>, r: Rule<T, K>, i: nat)
    requires i < |all|
    ensures SlotOf(all, r, i) != [] <==> Opens(all, r, i)
  {
    var k := r.key(all[i]);
    if Seen(all, r, k, i) { var j := SeenWhere(all, r, k, i); }
    forall j | 0 <= j < i && r.key(all[j]) == k ensures Seen(all, r, k, i) { SeenAt(all, r, j, i); }
  }

  lemma SlotFills<T(!new), K>(all: seq<T>, r: Rule<T, K>, i: nat)
    requires StrictWeakOrder(r.beats) && i < |all| && SlotOf(all, r, i) != []
    ensures Fills(SlotOf(all, r, i)[0], all, r, i)
  {
    var k := r.key(all[i]);
    if k != r.none {
      SeenAt(all, r, i, |all|);
      WinnerIsWinner(all, r, k);
    }
  }

  lemma {:induction false} OpenersOpen<T, K>(all: seq<T>, r: Rule<T, K>, n: nat)
    requires n <= |all|
    ensures Ascending(Openers(all, r, n))
    ensures forall i: nat :: i in Openers(all, r, n) <==> i < n && Opens(all, r, i)
  {
    if n > 0 {
      OpenersOpen(all, r, n - 1);
      SlotOpens(all, r, n - 1);
      if SlotOf(all, r, n - 1) == [] {
        assert Openers(all, r, n) == Openers(all, r, n - 1);
      } else {
        OneMore(Openers(all, r, n - 1), n - 1);
      }
    }
  }

  lemma OneMore(s: seq<nat>, n: nat)
    requires Ascending(s) && forall i: nat :: i in s ==> i < n
    ensures Ascending(s + [n]) && forall i: nat :: i in s + [n] <==> i in s || i == n
  {
    forall p | 0 <= p < |s| ensures s[p] < n { assert s[p] in s; }
  }

  lemma {:induction false} OpenersFilled<T(!new), K>(all: seq<T>, r: Rule<T, K>, n: nat)
    requires StrictWeakOrder(r.beats) && n <= |all|
    ensures var openers, slots := Openers(all, r, n), SlotsUpTo(all, r, n);
            && |openers| == |slots|
            && forall p :: 0 <= p < |slots| ==> openers[p] < |all| && Fills(slots[p], all, r, openers[p])
  {
    if n > 0 {
      OpenersFilled(all, r, n - 1);
      SlotsUpToStep(all, r, n - 1);
      if SlotOf(all, r, n - 1) != [] { SlotFills(all, r, n - 1); }
    }
  }

  lemma SlotsInOrder<T(!new), K>(all: seq<T>, r: Rule<T, K>)
    requires StrictWeakOrder(r.beats)
    ensures InOrder(Slots(all, r), all, r, Openers(all, r, |all|))
  {
    OpenersOpen(all, r, |all|);
    OpenersFilled(all, r, |all|);
  }

  // ---- and nothing else is ----

  lemma {:induction false} AscendingUnique(a: seq<nat>, b: seq<nat>)
    requires Ascending(a) && Ascending(b) && forall i: nat :: i in a <==> i in b
    ensures a == b
  {
    if b != [] { assert b[0] in a; }
    if a != [] {
      assert a[0] in b;
      var x, y, a', b' := a[|a| - 1], b[|b| - 1], a[..|a| - 1], b[..|b| - 1];
      LastIsGreatest(a, y);
      LastIsGreatest(b, x);
      forall i: nat ensures i in a' <==> i in b' {
        WithoutLast(a, i);
        WithoutLast(b, i);
      }
      AscendingUnique(a', b');
      assert a == a' + [x] && b == b' + [y];
    }
  }

  lemma LastIsGreatest(a: seq<nat>, x: nat)
    requires Ascending(a) && x in a
    ensures x <= a[|a| - 1]
  {
  }

  lemma WithoutLast(a: seq<nat>, i: nat)
    requires Ascending(a) && a != []
    ensures i in a[..|a| - 1] <==> i in a && i != a[|a| - 1]
  {
  }

  lemma InOrderUnique<T, K>(a: seq<T>, b: seq<T>, all: seq<T>, r: Rule<T, K>, m: seq<nat>, n: seq<nat>)
    requires InOrder(a, all, r, m) && InOrder(b, all, r, n)
    ensures a == b
  {
    AscendingUnique(m, n);
    forall p | 0 <= p < |a| ensures a[p] == b[p] { FillsUnique(a[p], b[p], all, r, m[p]); }
  }

  lemma FillsUnique<T, K>(v: T, u: T, all: seq<T>, r: Rule<T, K>, i: nat)
    requires i < |all| && Fills(v, all, r, i) && Fills(u, all, r, i)
    ensures v == u
  {
    if r.key(all[i]) != r.none {
      var x :| IsWinner(all, r, r.key(all[i]), x) && v == all[x];
      var y :| IsWinner(all, r, r.key(all[i]), y) && u == all[y];
      WinnerUnique(all, r, r.key(all[i]), x, y);
    }
  }
}
