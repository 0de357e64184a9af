/** Order-preserving selection of one representative per key.

    Two pieces of the program keep a dictionary from keys to their best record so far, replace
    an entry only when a newcomer is strictly better, and let every key stay where it was first
    seen: the message merge (which also keeps records without a key) and the cable sanitiser.
    `Slots` says what such a loop leaves behind without any dictionary; `InStep` is its loop
    invariant. A record whose key is `none` has no key and is always kept. */
module KeyedBest {

  /** How records are keyed and compared. */
  datatype Rule<!T, !K> = Rule(key: T -> K, none: K, beats: (T, T) -> bool)

  ghost predicate StrictWeakOrder<T(!new)>(beats: (T, T) -> bool) {
    && (forall a, b :: beats(a, b) ==> !beats(b, a))
    && (forall a, b, c :: beats(a, b) && beats(b, c) ==> beats(a, c))
    && (forall a, b, c :: beats(a, c) ==> beats(a, b) || beats(b, c))
  }

  /** Some record among the first `n` has key `k`. */
  predicate Seen<T, K(==)>(all: seq<T>, r: Rule<T, K>, k: K, n: nat)
    requires n <= |all|
  {
    n > 0 && (r.key(all[n - 1]) == k || Seen(all, r, k, n - 1))
  }

  predicate HasKey<T, K(==)>(all: seq<T>, r: Rule<T, K>, k: K) { Seen(all, r, k, |all|) }

  lemma {:induction false} SeenAt<T, K>(all: seq<T>, r: Rule<T, K>, i: nat, n: nat)
    requires i < n <= |all|
    ensures Seen(all, r, r.key(all[i]), n)
  {
    if i < n - 1 { SeenAt(all, r, i, n - 1); }
  }

  lemma {:induction false} SeenWhere<T, K>(all: seq<T>, r: Rule<T, K>, k: K, n: nat) returns (i: nat)
    requires n <= |all| && Seen(all, r, k, n)
    ensures i < n && r.key(all[i]) == k
  {
    if r.key(all[n - 1]) == k { i := n - 1; } else { i := SeenWhere(all, r, k, n - 1); }
  }

  /** The representative of key `k`: none of its rivals beats it, and it beats every earlier one. */
  ghost predicate IsWinner<T, K>(all: seq<T>, r: Rule<T, K>, k: K, w: int) {
    && 0 <= w < |all|
    && r.key(all[w]) == k
    && (forall j :: 0 <= j < |all| && r.key(all[j]) == k ==> !r.beats(all[j], all[w]))
    && (forall j :: 0 <= j < w && r.key(all[j]) == k ==> r.beats(all[w], all[j]))
  }

  function WinnerUpTo<T, K(==)>(all: seq<T>, r: Rule<T, K>, k: K, n: nat): (w: nat)
    requires n <= |all| && Seen(all, r, k, n)
    ensures w < n && r.key(all[w]) == k
  {
    if Seen(all, r, k, n - 1) then
      var w := WinnerUpTo(all, r, k, n - 1);
      if r.key(all[n - 1]) == k && r.beats(all[n - 1], all[w]) then n - 1 else w
    else n - 1
  }

  function Winner<T, K(==)>(all: seq<T>, r: Rule<T, K>, k: K): nat
    requires HasKey(all, r, k)
  {
    WinnerUpTo(all, r, k, |all|)
  }

  lemma {:induction false} WinnerUpToWins<T(!new), K>(all: seq<T>, r: Rule<T, K>, k: K, n: nat)
    requires StrictWeakOrder(r.beats)
    requires n <= |all| && Seen(all, r, k, n)
    ensures var w := WinnerUpTo(all, r, k, n);
            && (forall j :: 0 <= j < n && r.key(all[j]) == k ==> !r.beats(all[j], all[w]))
            && (forall j :: 0 <= j < w && r.key(all[j]) == k ==> r.beats(all[w], all[j]))
  {
    if Seen(all, r, k, n - 1) {
      WinnerUpToWins(all, r, k, n - 1);
    } else {
      forall j | 0 <= j < n - 1 ensures r.key(all[j]) != k {
        SeenAt(all, r, j, n - 1);
      }
    }
  }

  lemma WinnerIsWinner<T(!new), K>(all: seq<T>, r: Rule<T, K>, k: K)
    requires StrictWeakOrder(r.beats)
    requires HasKey(all, r, k)
    ensures IsWinner(all, r, k, Winner(all, r, k))
  {
    WinnerUpToWins(all, r, k, |all|);
  }

  lemma WinnerUnique<T, K>(all: seq<T>, r: Rule<T, K>, k: K, v: int, w: int)
    requires IsWinner(all, r, k, v) && IsWinner(all, r, k, w)
    ensures v == w
  {
  }

  /** What record `i` contributes: itself when it has no key, the winner of its key when it is
      the first of that key, nothing otherwise. */
  function SlotOf<T, K(==)>(all: seq<T>, r: Rule<T, K>, i: nat): (slot: seq<T>)
    requires i < |all|
    ensures |slot| <= 1
  {
    var k := r.key(all[i]);
    if k == r.none then [all[i]]
    else if Seen(all, r, k, i) then []
    else
      SeenAt(all, r, i, |all|);
      [all[Winner(all, r, k)]]
  }

  /** The first `n` pieces, joined. */
  function Join<T>(pieces: seq<seq<T>>, n: nat): seq<T>
    requires n <= |pieces|
  {
    if n == 0 then [] else Join(pieces, n - 1) + pieces[n - 1]
  }

  function SlotList<T, K(==)>(all: seq<T>, r: Rule<T, K>): (slots: seq<seq<T>>)
    ensures |slots| == |all| && forall i :: 0 <= i < |all| ==> slots[i] == SlotOf(all, r, i)
  {
    seq(|all|, i requires 0 <= i < |all| => SlotOf(all, r, i))
  }

  function SlotsUpTo<T, K(==)>(all: seq<T>, r: Rule<T, K>, n: nat): seq<T>
    requires n <= |all|
  {
    Join(SlotList(all, r), n)
  }

  function Slots<T, K(==)>(all: seq<T>, r: Rule<T, K>): seq<T> {
    SlotsUpTo(all, r, |all|)
  }

  /** The first record with key `k`. */
  function FirstWith<T, K(==)>(all: seq<T>, r: Rule<T, K>, k: K, n: nat): (i: nat)
    requires n <= |all| && Seen(all, r, k, n)
    ensures i < n && r.key(all[i]) == k && !Seen(all, r, k, i)
  {
    if Seen(all, r, k, n - 1) then FirstWith(all, r, k, n - 1) else n - 1
  }

  /** Where the representative of `k` sits in `Slots`. */
  function Position<T, K(==)>(all: seq<T>, r: Rule<T, K>, k: K): nat
    requires HasKey(all, r, k)
  {
    |SlotsUpTo(all, r, FirstWith(all, r, k, |all|))|
  }

  // ---- one more record ----

  lemma {:induction false} SeenSnoc<T, K>(all: seq<T>, x: T, r: Rule<T, K>, k: K, n: nat)
    requires n <= |all|
    ensures Seen(all + [x], r, k, n) == Seen(all, r, k, n)
  {
    if n > 0 {
      assert (all + [x])[n - 1] == all[n - 1];
      SeenSnoc(all, x, r, k, n - 1);
    }
  }

  lemma HasKeySnoc<T, K>(s: seq<T>, x: T, r: Rule<T, K>, k: K)
    ensures HasKey(s + [x], r, k) <==> HasKey(s, r, k) || r.key(x) == k
  {
    assert (s + [x])[|s|] == x;
    SeenSnoc(s, x, r, k, |s|);
  }

  lemma {:induction false} WinnerUpToSnoc<T, K>(all: seq<T>, x: T, r: Rule<T, K>, k: K, n: nat)
    requires n <= |all| && Seen(all, r, k, n)
    ensures Seen(all + [x], r, k, n)
    ensures WinnerUpTo(all + [x], r, k, n) == WinnerUpTo(all, r, k, n)
  {
    var more := all + [x];
    SeenSnoc(all, x, r, k, n);
    SeenSnoc(all, x, r, k, n - 1);
    assert more[n - 1] == all[n - 1];
    if Seen(all, r, k, n - 1) {
      WinnerUpToSnoc(all, x, r, k, n - 1);
      var w := WinnerUpTo(all, r, k, n - 1);
      assert more[w] == all[w];
    }
  }

  lemma WinnerSnoc<T, K>(all: seq<T>, x: T, r: Rule<T, K>, k: K)
    requires HasKey(all, r, k)
    ensures HasKey(all + [x], r, k)
    ensures (all + [x])[Winner(all + [x], r, k)]
            == if r.key(x) == k && r.beats(x, all[Winner(all, r, k)]) then x else all[Winner(all, r, k)]
  {
    WinnerUpToSnoc(all, x, r, k, |all|);
    assert (all + [x])[|all|] == x;
  }

  lemma {:induction false} FirstWithSnoc<T, K>(all: seq<T>, x: T, r: Rule<T, K>, k: K, n: nat)
    requires n <= |all| && Seen(all, r, k, n)
    ensures Seen(all + [x], r, k, n) && FirstWith(all + [x], r, k, n) == FirstWith(all, r, k, n)
  {
    SeenSnoc(all, x, r, k, n);
    SeenSnoc(all, x, r, k, n - 1);
    if Seen(all, r, k, n - 1) { FirstWithSnoc(all, x, r, k, n - 1); }
  }

  /** Only the slot of the newcomer's key can change. */
  lemma SlotOfSnoc<T, K>(all: seq<T>, x: T, r: Rule<T, K>, i: nat)
    requires i < |all|
    ensures SlotOf(all + [x], r, i)
            == if r.key(all[i]) != r.none && r.key(all[i]) == r.key(x) && !Seen(all, r, r.key(x), i)
               then (SeenAt(all, r, i, |all|); HasKeySnoc(all, x, r, r.key(x));
                 [(all + [x])[Winner(all + [x], r, r.key(x))]])
               else SlotOf(all, r, i)
  {
    var k := r.key(all[i]);
    assert (all + [x])[i] == all[i];
    SeenSnoc(all, x, r, k, i);
    if k != r.none && !Seen(all, r, k, i) {
      SeenAt(all, r, i, |all|);
      WinnerSnoc(all, x, r, k);
    }
  }

  lemma {:induction false} SlotsUpToSnoc<T, K>(all: seq<T>, x: T, r: Rule<T, K>, n: nat)
    requires n <= |all|
    requires r.key(x) == r.none || !Seen(all, r, r.key(x), n)
    ensures SlotsUpTo(all + [x], r, n) == SlotsUpTo(all, r, n)
  {
    if n > 0 {
      SlotsUpToSnoc(all, x, r, n - 1);
      SlotOfSnoc(all, x, r, n - 1);
      SlotsUpToStep(all, r, n - 1);
      SlotsUpToStep(all + [x], r, n - 1);
    }
  }

  lemma SlotsUpToStep<T, K>(all: seq<T>, r: Rule<T, K>, n: nat)
    requires n < |all|
    ensures SlotsUpTo(all, r, n + 1) == SlotsUpTo(all, r, n) + SlotOf(all, r, n)
  {
    assert SlotList(all, r)[n] == SlotOf(all, r, n);
  }

  lemma LastSlot<T, K>(all: seq<T>, x: T, r: Rule<T, K>)
    ensures SlotOf(all + [x], r, |all|) == if r.key(x) != r.none && HasKey(all, r, r.key(x)) then [] else [x]
  {
    var more := all + [x];
    assert more[|all|] == x;
    SeenSnoc(all, x, r, r.key(x), |all|);
  }

  /** The loop step for a record without a key, or with a key not met before: it is appended. */
  lemma SlotsSnocNew<T, K>(all: seq<T>, x: T, r: Rule<T, K>)
    requires r.key(x) == r.none || !HasKey(all, r, r.key(x))
    ensures Slots(all + [x], r) == Slots(all, r) + [x]
  {
    SlotsUpToSnoc(all, x, r, |all|);
    SlotsUpToStep(all + [x], r, |all|);
    LastSlot(all, x, r);
  }

  lemma NewPosition<T, K>(all: seq<T>, x: T, r: Rule<T, K>)
    requires r.key(x) != r.none && !HasKey(all, r, r.key(x))
    ensures HasKey(all + [x], r, r.key(x)) && Position(all + [x], r, r.key(x)) == |Slots(all, r)|
  {
    HasKeySnoc(all, x, r, r.key(x));
    SeenSnoc(all, x, r, r.key(x), |all|);
    SlotsUpToSnoc(all, x, r, |all|);
  }

  lemma {:induction false} JoinAt<T>(xs: seq<seq<T>>, f: nat, n: nat)
    requires f < n <= |xs| && |xs[f]| == 1
    ensures |Join(xs, f)| < |Join(xs, n)| && Join(xs, n)[|Join(xs, f)|] == xs[f][0]
  {
    if f < n - 1 { JoinAt(xs, f, n - 1); }
  }

  lemma {:induction false} JoinSame<T>(xs: seq<seq<T>>, ys: seq<seq<T>>, n: nat)
    requires n <= |xs| && n <= |ys|
    requires forall i :: 0 <= i < n ==> ys[i] == xs[i]
    ensures Join(ys, n) == Join(xs, n)
  {
    if n > 0 { JoinSame(xs, ys, n - 1); }
  }

  lemma UpdateBeforeAppend<T>(a: seq<T>, b: seq<T>, p: nat, v: T)
    requires p < |a|
    ensures (a + b)[p := v] == a[p := v] + b
  {
  }

  lemma UpdateAtEnd<T>(a: seq<T>, b: seq<T>, v: T)
    requires |b| == 1
    ensures (a + b)[|a| := v] == a + [v]
  {
  }

  lemma {:induction false} JoinReplace<T>(xs: seq<seq<T>>, ys: seq<seq<T>>, f: nat, v: T, n: nat)
    requires f < n <= |xs| && n <= |ys| && |xs[f]| == 1 && ys[f] == [v]
    requires forall i :: 0 <= i < n && i != f ==> ys[i] == xs[i]
    ensures |Join(xs, f)| < |Join(xs, n)|
    ensures Join(ys, n) == Join(xs, n)[|Join(xs, f)| := v]
  {
    JoinAt(xs, f, n);
    if f == n - 1 {
      JoinSame(xs, ys, f);
      UpdateAtEnd(Join(xs, f), xs[f], v);
    } else {
      JoinReplace(xs, ys, f, v, n - 1);
      UpdateBeforeAppend(Join(xs, n - 1), xs[n - 1], |Join(xs, f)|, v);
    }
  }

  lemma SlotUnchanged<T, K>(all: seq<T>, x: T, r: Rule<T, K>, f: nat, i: nat)
    requires f < |all| && i < |all| && i != f
    requires r.key(x) != r.none && r.key(all[f]) == r.key(x) && !Seen(all, r, r.key(x), f)
    ensures SlotOf(all + [x], r, i) == SlotOf(all, r, i)
  {
    SlotOfSnoc(all, x, r, i);
    if f < i { SeenAt(all, r, f, i); }
    if i < f && r.key(all[i]) == r.key(x) { SeenAt(all, r, i, f); }
  }

  /** Once `f`, the first record of a key, is passed, the slots of the longer list are those of
      the shorter one with that key's slot overwritten by the new winner. */
  lemma SlotsReplace<T, K>(all: seq<T>, x: T, r: Rule<T, K>, f: nat, v: T)
    requires f < |all|
    requires r.key(x) != r.none && r.key(all[f]) == r.key(x) && !Seen(all, r, r.key(x), f)
    requires SlotOf(all + [x], r, f) == [v]
    ensures |SlotsUpTo(all, r, f)| < |Slots(all, r)|
    ensures SlotsUpTo(all + [x], r, |all|) == Slots(all, r)[|SlotsUpTo(all, r, f)| := v]
  {
    var xs, ys := SlotList(all, r), SlotList(all + [x], r);
    forall i | 0 <= i < |all| && i != f ensures ys[i] == xs[i] {
      SlotUnchanged(all, x, r, f, i);
    }
    SlotOfSnoc(all, x, r, f);
    JoinReplace(xs, ys, f, v, |all|);
  }

  /** The slot of `k` holds its winner. */
  lemma SlotAtPosition<T, K>(all: seq<T>, r: Rule<T, K>, k: K, n: nat)
    requires k != r.none && HasKey(all, r, k)
    requires FirstWith(all, r, k, |all|) < n <= |all|
    ensures Position(all, r, k) < |SlotsUpTo(all, r, n)|
    ensures SlotsUpTo(all, r, n)[Position(all, r, k)] == all[Winner(all, r, k)]
  {
    var f, xs := FirstWith(all, r, k, |all|), SlotList(all, r);
    assert xs[f] == [all[Winner(all, r, k)]];
    JoinAt(xs, f, n);
  }

  /** The loop step for a key met before: its slot is overwritten exactly when the newcomer wins. */
  lemma SlotsSnocRival<T, K>(all: seq<T>, x: T, r: Rule<T, K>)
    requires r.key(x) != r.none && HasKey(all, r, r.key(x))
    ensures Position(all, r, r.key(x)) < |Slots(all, r)|
    ensures Slots(all, r)[Position(all, r, r.key(x))] == all[Winner(all, r, r.key(x))]
    ensures Slots(all + [x], r)
            == if r.beats(x, all[Winner(all, r, r.key(x))])
               then Slots(all, r)[Position(all, r, r.key(x)) := x]
               else Slots(all, r)
  {
    var f := FirstWith(all, r, r.key(x), |all|);
    SlotOfSnoc(all, x, r, f);
    WinnerSnoc(all, x, r, r.key(x));
    SlotsReplace(all, x, r, f, SlotOf(all + [x], r, f)[0]);
    SlotAtPosition(all, r, r.key(x), |all|);
    SlotsUpToStep(all + [x], r, |all|);
    LastSlot(all, x, r);
  }

  /** More arrivals do not move a key. */
  lemma PositionSnoc<T, K>(all: seq<T>, x: T, r: Rule<T, K>, k: K)
    requires k != r.none && HasKey(all, r, k)
    ensures HasKey(all + [x], r, k)
    ensures Position(all + [x], r, k) == Position(all, r, k)
  {
    HasKeySnoc(all, x, r, k);
    SeenSnoc(all, x, r, k, |all|);
    FirstWithSnoc(all, x, r, k, |all|);
    SameLength(all, x, r, FirstWith(all, r, k, |all|));
  }

  lemma {:induction false} SameLength<T, K>(all: seq<T>, x: T, r: Rule<T, K>, n: nat)
    requires n <= |all|
    ensures |SlotsUpTo(all + [x], r, n)| == |SlotsUpTo(all, r, n)|
  {
    if n > 0 {
      SameLength(all, x, r, n - 1);
      SlotOfSnoc(all, x, r, n - 1);
      SlotsUpToStep(all, r, n - 1);
      SlotsUpToStep(all + [x], r, n - 1);
    }
  }

  /** Keys keep the order in which they were first seen. */
  lemma PositionsFollowFirstOccurrence<T, K>(all: seq<T>, r: Rule<T, K>, j: K, k: K)
    requires j != r.none && k != r.none && HasKey(all, r, j) && HasKey(all, r, k)
    requires FirstWith(all, r, j, |all|) < FirstWith(all, r, k, |all|)
    ensures Position(all, r, j) < Position(all, r, k)
  {
    SlotAtPosition(all, r, j, FirstWith(all, r, k, |all|));
  }

  // ---- what the loop keeps ----

  /** No two records share a key. */
  ghost predicate DistinctKeys<T, K>(s: seq<T>, r: Rule<T, K>) {
    forall i, j :: 0 <= i < j < |s| && r.key(s[i]) == r.key(s[j]) ==> r.key(s[i]) == r.none
  }

  /** The records without a key among the first `n`, in their order. */
  function KeylessUpTo<T, K(==)>(s: seq<T>, r: Rule<T, K>, n: nat): seq<T>
    requires n <= |s|
  {
    if n == 0 then []
    else KeylessUpTo(s, r, n - 1) + if r.key(s[n - 1]) == r.none then [s[n - 1]] else []
  }

  function Keyless<T, K(==)>(s: seq<T>, r: Rule<T, K>): seq<T> { KeylessUpTo(s, r, |s|) }

  lemma {:induction false} KeylessPrefix<T, K>(s: seq<T>, t: seq<T>, r: Rule<T, K>, n: nat)
    requires n <= |s|
    ensures KeylessUpTo(s + t, r, n) == KeylessUpTo(s, r, n)
  {
    if n > 0 {
      KeylessPrefix(s, t, r, n - 1);
      assert (s + t)[n - 1] == s[n - 1];
    }
  }

  lemma KeylessSnoc<T, K>(s: seq<T>, x: T, r: Rule<T, K>)
    ensures Keyless(s + [x], r) == Keyless(s, r) + if r.key(x) == r.none then [x] else []
  {
    KeylessPrefix(s, [x], r, |s|);
    assert (s + [x])[|s|] == x;
  }

  lemma DistinctKeysSnoc<T, K>(s: seq<T>, x: T, r: Rule<T, K>)
    requires DistinctKeys(s, r) && (r.key(x) == r.none || !HasKey(s, r, r.key(x)))
    ensures DistinctKeys(s + [x], r)
  {
    forall i | 0 <= i < |s| && r.key(s[i]) == r.key(x) ensures r.key(x) == r.none {
      SeenAt(s, r, i, |s|);
    }
  }

  /** The slots so far hold exactly the keys so far, each once. */
  lemma {:induction false} SlotKeys<T, K(!new)>(all: seq<T>, r: Rule<T, K>, n: nat)
    requires n <= |all|
    ensures DistinctKeys(SlotsUpTo(all, r, n), r)
    ensures forall k :: k != r.none ==> (HasKey(SlotsUpTo(all, r, n), r, k) <==> Seen(all, r, k, n))
  {
    if n > 0 {
      SlotKeys(all, r, n - 1);
      SlotsUpToStep(all, r, n - 1);
      SlotKeysStep(SlotsUpTo(all, r, n - 1), all, r, n - 1);
    }
  }

  lemma SlotKeysStep<T, K(!new)>(before: seq<T>, all: seq<T>, r: Rule<T, K>, i: nat)
    requires i < |all| && DistinctKeys(before, r)
    requires forall k :: k != r.none ==> (HasKey(before, r, k) <==> Seen(all, r, k, i))
    ensures DistinctKeys(before + SlotOf(all, r, i), r)
    ensures forall k :: k != r.none ==> (HasKey(before + SlotOf(all, r, i), r, k) <==> Seen(all, r, k, i + 1))
  {
    var slot := SlotOf(all, r, i);
    if slot == [] {
      assert before + slot == before;
    } else {
      assert r.key(slot[0]) == r.key(all[i]);
      DistinctKeysSnoc(before, slot[0], r);
      assert before + slot == before + [slot[0]];
      KeysSnoc(before, slot[0], r);
    }
  }

  /** A slot with a key holds that key's winner. */
  ghost predicate HoldsWinner<T, K>(v: T, all: seq<T>, r: Rule<T, K>) {
    r.key(v) != r.none ==> HasKey(all, r, r.key(v)) && v == all[Winner(all, r, r.key(v))]
  }

  lemma {:induction false} SlotValues<T, K>(all: seq<T>, r: Rule<T, K>, n: nat)
    requires n <= |all|
    ensures forall i :: 0 <= i < |SlotsUpTo(all, r, n)| ==> HoldsWinner(SlotsUpTo(all, r, n)[i], all, r)
  {
    if n > 0 {
      SlotValues(all, r, n - 1);
      SlotsUpToStep(all, r, n - 1);
      SlotHoldsWinner(all, r, n - 1);
    }
  }

  lemma SlotHoldsWinner<T, K>(all: seq<T>, r: Rule<T, K>, i: nat)
    requires i < |all|
    ensures forall j :: 0 <= j < |SlotOf(all, r, i)| ==> HoldsWinner(SlotOf(all, r, i)[j], all, r)
  {
  }

  lemma KeylessAppend<T, K>(s: seq<T>, slot: seq<T>, r: Rule<T, K>)
    requires |slot| <= 1
    ensures Keyless(s + slot, r) == Keyless(s, r) + if slot != [] && r.key(slot[0]) == r.none then slot else []
  {
    if slot == [] { assert s + slot == s; } else { KeylessSnoc(s, slot[0], r); assert slot == [slot[0]]; }
  }

  lemma SlotKeylessPart<T, K>(all: seq<T>, r: Rule<T, K>, i: nat)
    requires i < |all|
    ensures var slot := SlotOf(all, r, i);
            if r.key(all[i]) == r.none then slot == [all[i]] else slot == [] || r.key(slot[0]) != r.none
  {
  }

  lemma KeylessStep<T, K>(before: seq<T>, slot: seq<T>, after: seq<T>, done: seq<T>, x: T, r: Rule<T, K>)
    requires Keyless(before, r) == done && after == before + slot
    requires |slot| <= 1 && (if r.key(x) == r.none then slot == [x] else slot == [] || r.key(slot[0]) != r.none)
    ensures Keyless(after, r) == done + if r.key(x) == r.none then [x] else []
  {
    KeylessAppend(before, slot, r);
  }

  lemma {:induction false} SlotsKeyless<T, K>(all: seq<T>, r: Rule<T, K>, n: nat)
    requires n <= |all|
    ensures Keyless(SlotsUpTo(all, r, n), r) == KeylessUpTo(all, r, n)
  {
    if n > 0 {
      SlotsKeyless(all, r, n - 1);
      SlotKeylessPart(all, r, n - 1);
      SlotsUpToStep(all, r, n - 1);
      KeylessStep(SlotsUpTo(all, r, n - 1), SlotOf(all, r, n - 1), SlotsUpTo(all, r, n), KeylessUpTo(all, r, n - 1),
                  all[n - 1], r);
    }
  }

  /** What the loop keeps: every key once, represented by its winner, and every keyless record. */
  lemma SlotsFaithful<T(!new), K(!new)>(all: seq<T>, r: Rule<T, K>)
    requires StrictWeakOrder(r.beats)
    ensures var s := Slots(all, r);
            && DistinctKeys(s, r)
            && (forall k :: k != r.none ==> (HasKey(s, r, k) <==> HasKey(all, r, k)))
            && (forall i :: 0 <= i < |s| && r.key(s[i]) != r.none ==>
                              exists w :: IsWinner(all, r, r.key(s[i]), w) && s[i] == all[w])
            && Keyless(s, r) == Keyless(all, r)
  {
    SlotKeys(all, r, |all|);
    SlotValues(all, r, |all|);
    SlotsKeyless(all, r, |all|);
    var s := Slots(all, r);
    forall i | 0 <= i < |s| && r.key(s[i]) != r.none
      ensures exists w :: IsWinner(all, r, r.key(s[i]), w) && s[i] == all[w]
    {
      assert HoldsWinner(s[i], all, r);
      WinnerIsWinner(all, r, r.key(s[i]));
    }
  }

  /** The place of a keyed representative is the position of its key. */
  lemma PlaceIsPosition<T, K(!new)>(all: seq<T>, r: Rule<T, K>, i: nat)
    requires i < |Slots(all, r)| && r.key(Slots(all, r)[i]) != r.none
    ensures var k := r.key(Slots(all, r)[i]); HasKey(all, r, k) && Position(all, r, k) == i
  {
    var k := r.key(Slots(all, r)[i]);
    SlotKeys(all, r, |all|);
    SeenAt(Slots(all, r), r, i, |Slots(all, r)|);
    SlotAtPosition(all, r, k, |all|);
  }

  /** Representatives stand in the order in which their keys were first seen. */
  lemma SlotsFollowFirstOccurrence<T, K(!new)>(all: seq<T>, r: Rule<T, K>, i: nat, j: nat)
    requires i < j < |Slots(all, r)|
    requires r.key(Slots(all, r)[i]) != r.none && r.key(Slots(all, r)[j]) != r.none
    ensures var a, b := r.key(Slots(all, r)[i]), r.key(Slots(all, r)[j]);
            HasKey(all, r, a) && HasKey(all, r, b) && FirstWith(all, r, a, |all|) < FirstWith(all, r, b, |all|)
  {
    var a, b := r.key(Slots(all, r)[i]), r.key(Slots(all, r)[j]);
    PlaceIsPosition(all, r, i);
    PlaceIsPosition(all, r, j);
    if FirstWith(all, r, b, |all|) < FirstWith(all, r, a, |all|) {
      PositionsFollowFirstOccurrence(all, r, b, a);
    }
  }

  lemma {:induction false} SlotsOfDistinct<T, K>(s: seq<T>, r: Rule<T, K>)
    requires DistinctKeys(s, r)
    ensures Slots(s, r) == s
  {
    if s != [] {
      var init, last := s[..|s| - 1], s[|s| - 1];
      assert s == init + [last];
      SlotsOfDistinct(init, r);
      if r.key(last) != r.none && HasKey(init, r, r.key(last)) {
        var i := SeenWhere(init, r, r.key(last), |init|);
      } else {
        SlotsSnocNew(init, last, r);
      }
    }
  }

  // ---- the dictionary loop ----

  /** The position recorded for `k` is right. */
  ghost predicate Located<T, K>(slots: seq<T>, p: nat, done: seq<T>, r: Rule<T, K>, k: K) {
    HasKey(done, r, k) && p < |slots| && p == Position(done, r, k) && r.key(slots[p]) == k
  }

  /** The list and the dictionary (key to position) after the records `done`. */
  ghost predicate InStep<T, K(!new)>(slots: seq<T>, index: map<K, nat>, done: seq<T>, r: Rule<T, K>) {
    && slots == Slots(done, r)
    && (forall k :: k in index <==> k != r.none && HasKey(done, r, k))
    && (forall k :: k in index ==> Located(slots, index[k], done, r, k))
  }

  lemma KeysSnoc<T, K(!new)>(done: seq<T>, x: T, r: Rule<T, K>)
    ensures forall k :: HasKey(done + [x], r, k) <==> HasKey(done, r, k) || r.key(x) == k
  {
    forall k ensures HasKey(done + [x], r, k) <==> HasKey(done, r, k) || r.key(x) == k {
      HasKeySnoc(done, x, r, k);
    }
  }

  lemma LocatedSnoc<T, K>(slots: seq<T>, slots': seq<T>, p: nat, done: seq<T>, x: T, r: Rule<T, K>, k: K)
    requires k != r.none && Located(slots, p, done, r, k)
    requires p < |slots'| && r.key(slots'[p]) == k
    ensures Located(slots', p, done + [x], r, k)
  {
    PositionSnoc(done, x, r, k);
  }

  lemma StepKeyless<T, K(!new)>(slots: seq<T>, index: map<K, nat>, done: seq<T>, x: T, r: Rule<T, K>)
    requires InStep(slots, index, done, r)
    requires r.key(x) == r.none
    ensures InStep(slots + [x], index, done + [x], r)
  {
    SlotsSnocNew(done, x, r);
    KeysSnoc(done, x, r);
    forall k | k in index ensures Located(slots + [x], index[k], done + [x], r, k) {
      LocatedSnoc(slots, slots + [x], index[k], done, x, r, k);
    }
  }

  lemma StepNew<T, K(!new)>(slots: seq<T>, index: map<K, nat>, done: seq<T>, x: T, r: Rule<T, K>)
    requires InStep(slots, index, done, r)
    requires r.key(x) != r.none && r.key(x) !in index
    ensures InStep(slots + [x], index[r.key(x) := |slots|], done + [x], r)
  {
    SlotsSnocNew(done, x, r);
    NewPosition(done, x, r);
    KeysSnoc(done, x, r);
    var index' := index[r.key(x) := |slots|];
    forall k | k in index' ensures Located(slots + [x], index'[k], done + [x], r, k) {
      if k != r.key(x) { LocatedSnoc(slots, slots + [x], index[k], done, x, r, k); }
    }
  }

  lemma StepRival<T, K(!new)>(slots: seq<T>, index: map<K, nat>, done: seq<T>, x: T, r: Rule<T, K>)
    requires InStep(slots, index, done, r)
    requires r.key(x) in index
    ensures index[r.key(x)] < |slots| && r.key(slots[index[r.key(x)]]) == r.key(x)
    ensures InStep(if r.beats(x, slots[index[r.key(x)]]) then slots[index[r.key(x)] := x] else slots, index,
                   done + [x], r)
  {
    assert Located(slots, index[r.key(x)], done, r, r.key(x));
    SlotsSnocRival(done, x, r);
    KeysSnoc(done, x, r);
    var slots' := if r.beats(x, slots[index[r.key(x)]]) then slots[index[r.key(x)] := x] else slots;
    forall k | k in index ensures Located(slots', index[k], done + [x], r, k) {
      LocatedSnoc(slots, slots', index[k], done, x, r, k);
    }
  }

  /** A comparison by rank is a strict weak order when the ranks are. */
  lemma StrictWeakOrderByRank<T(!new), R(!new)>(beats: (T, T) -> bool, rank: T -> R, above: (R, R) -> bool)
    requires StrictWeakOrder(above)
    requires forall a, b :: beats(a, b) == above(rank(a), rank(b))
    ensures StrictWeakOrder(beats)
  {
    forall a, b, c | beats(a, c) ensures beats(a, b) || beats(b, c) {
      assert above(rank(a), rank(b)) || above(rank(b), rank(c));
    }
  }

  // ---- permutations of the result ----

  lemma {:induction false} TwiceMeansTwoPlaces<T>(s: seq<T>, x: T)
    requires multiset(s)[x] >= 2
    ensures exists p, q :: 0 <= p < q < |s| && s[p] == x && s[q] == x
  {
    var last := |s| - 1;
    assert s == s[..last] + [s[last]];
    if s[last] == x {
      assert x in multiset(s[..last]);
      var p :| 0 <= p < last && s[p] == x;
      assert s[p] == x && s[last] == x;
    } else {
      TwiceMeansTwoPlaces(s[..last], x);
      var p, q :| 0 <= p < q < last && s[..last][p] == x && s[..last][q] == x;
      assert s[p] == x && s[q] == x;
    }
  }

  lemma {:induction false} TwoPlacesMeanTwice<T>(s: seq<T>, p: nat, q: nat)
    requires p < q < |s| && s[p] == s[q]
    ensures multiset(s)[s[p]] >= 2
  {
    assert s == s[..q] + [s[q]] + s[q + 1..];
    assert s[..q][p] == s[p];
    assert s[p] in multiset(s[..q]);
  }

  /** Reordering keeps keys distinct. */
  lemma PermutationKeepsDistinct<T, K>(a: seq<T>, b: seq<T>, r: Rule<T, K>)
    requires DistinctKeys(a, r) && multiset(a) == multiset(b)
    ensures DistinctKeys(b, r)
  {
    forall i, j | 0 <= i < j < |b| && r.key(b[i]) == r.key(b[j]) ensures r.key(b[i]) == r.none {
      if b[i] == b[j] {
        TwoPlacesMeanTwice(b, i, j);
        TwiceMeansTwoPlaces(a, b[i]);
      } else {
        assert b[i] in multiset(a) && b[j] in multiset(a);
        var p :| 0 <= p < |a| && a[p] == b[i];
        var q :| 0 <= q < |a| && a[q] == b[j];
        assert r.key(a[p]) == r.key(a[q]) && p != q;
      }
    }
  }

  lemma {:induction false} KeylessMember<T, K>(s: seq<T>, r: Rule<T, K>, x: T, n: nat)
    requires n <= |s|
    ensures x in KeylessUpTo(s, r, n) <==> x in s[..n] && r.key(x) == r.none
  {
    if n > 0 {
      KeylessMember(s, r, x, n - 1);
      assert s[..n] == s[..n - 1] + [s[n - 1]];
    }
  }

  lemma {:induction false} NoneKeyless<T, K>(s: seq<T>, r: Rule<T, K>, n: nat)
    requires n <= |s| && forall i :: 0 <= i < |s| ==> r.key(s[i]) != r.none
    ensures KeylessUpTo(s, r, n) == []
  {
    if n > 0 { NoneKeyless(s, r, n - 1); }
  }

  lemma KeylessIff<T, K>(s: seq<T>, r: Rule<T, K>, x: T)
    ensures x in Keyless(s, r) <==> x in s && r.key(x) == r.none
  {
    KeylessMember(s, r, x, |s|);
    assert s[..|s|] == s;
  }
}
