/** Which messages a collection hands out: the first-come copy of every id, oldest first. */
module MailboxOrder {
  import opened Sorting
  import opened Mailboxes

  // ---- first come ----

  /** The first `n` requested boxes, one behind the other. */
  function Waiting<B, M>(boxes: map<B, seq<M>>, keys: seq<B>, n: nat): seq<M>
    requires n <= |keys|
  {
    if n == 0 then [] else Waiting(boxes, keys, n - 1) + BoxOf(boxes, keys[n - 1])
  }

  /** No earlier message that counts has the id of message `i`, which counts itself. */
  ghost predicate IsFirst<M, K>(all: seq<M>, kind: Kind<M, K>, i: int) {
    && 0 <= i < |all| && !kind.ignored(all[i])
    && forall j :: 0 <= j < i && !kind.ignored(all[j]) ==> kind.id(all[j]) != kind.id(all[i])
  }

  ghost function Firsts<M, K>(all: seq<M>, kind: Kind<M, K>, n: nat): seq<M>
    requires n <= |all|
  {
    if n == 0 then [] else Firsts(all, kind, n - 1) + if IsFirst(all, kind, n - 1) then [all[n - 1]] else []
  }

  /** An id is among the firsts exactly if a message that counts has it. */
  lemma {:induction false} FirstsHaveIds<M, K(!new)>(all: seq<M>, kind: Kind<M, K>, n: nat)
    requires n <= |all|
    ensures forall k :: HasId(Firsts(all, kind, n), kind.id, k)
                        <==> exists j :: 0 <= j < n && !kind.ignored(all[j]) && kind.id(all[j]) == k
  {
    if n > 0 {
      FirstsHaveIds(all, kind, n - 1);
      var before, m := Firsts(all, kind, n - 1), all[n - 1];
      IdsSnoc(before, m, kind.id);
      forall k ensures HasId(Firsts(all, kind, n), kind.id, k)
                       <==> exists j :: 0 <= j < n && !kind.ignored(all[j]) && kind.id(all[j]) == k
      {
        FirstsIdNext(all, kind, n - 1, k);
      }
    }
  }

  lemma FirstsIdNext<M, K>(all: seq<M>, kind: Kind<M, K>, n: nat, k: K)
    requires n < |all|
    requires HasId(Firsts(all, kind, n), kind.id, k)
             <==> exists j :: 0 <= j < n && !kind.ignored(all[j]) && kind.id(all[j]) == k
    ensures HasId(Firsts(all, kind, n + 1), kind.id, k)
            <==> exists j :: 0 <= j < n + 1 && !kind.ignored(all[j]) && kind.id(all[j]) == k
  {
    var before, m := Firsts(all, kind, n), all[n];
    IdsSnoc(before, m, kind.id);
    if IsFirst(all, kind, n) {
      assert Firsts(all, kind, n + 1) == before + [m];
    } else {
      assert Firsts(all, kind, n + 1) == before;
    }
  }

  lemma {:induction false} FirstsPrefix<M, K>(all: seq<M>, more: seq<M>, kind: Kind<M, K>, n: nat)
    requires n <= |all|
    ensures Firsts(all + more, kind, n) == Firsts(all, kind, n)
  {
    if n > 0 {
      FirstsPrefix(all, more, kind, n - 1);
      assert forall j :: 0 <= j < n ==> (all + more)[j] == all[j];
    }
  }

  /** Taking one more box in. */
  lemma {:induction false} AbsorbFirsts<M, K(!new)>(all: seq<M>, box: seq<M>, kind: Kind<M, K>, n: nat)
    requires n <= |box|
    ensures Absorb(Firsts(all, kind, |all|), box, kind, n) == Firsts(all + box, kind, |all| + n)
  {
    if n == 0 {
      FirstsPrefix(all, box, kind, |all|);
    } else {
      AbsorbFirsts(all, box, kind, n - 1);
      var i := |all| + n - 1;
      assert (all + box)[i] == box[n - 1];
      FirstsHaveIds(all + box, kind, i);
    }
  }

  /** What a collection gathers: of every id the copy that comes first in the boxes as requested, in that order,
      messages that do not count left out. */
  lemma {:induction false} GatherIsFirsts<B, M, K(!new)>(boxes: map<B, seq<M>>, keys: seq<B>, kind: Kind<M, K>, n: nat)
    requires n <= |keys|
    ensures Gather(boxes, keys, kind, n) == Firsts(Waiting(boxes, keys, n), kind, |Waiting(boxes, keys, n)|)
  {
    if n > 0 {
      GatherIsFirsts(boxes, keys, kind, n - 1);
      var box := BoxOf(boxes, keys[n - 1]);
      AbsorbFirsts(Waiting(boxes, keys, n - 1), box, kind, |box|);
    }
  }

  // ---- oldest first ----

  ghost predicate DistinctIds<M, K>(s: seq<M>, id: M -> K) {
    forall i, j :: 0 <= i < j < |s| ==> id(s[i]) != id(s[j])
  }

  lemma {:induction false} FirstsAreDistinct<M, K(!new)>(all: seq<M>, kind: Kind<M, K>, n: nat)
    requires n <= |all|
    ensures DistinctIds(Firsts(all, kind, n), kind.id)
  {
    if n > 0 {
      FirstsAreDistinct(all, kind, n - 1);
      FirstsHaveIds(all, kind, n - 1);
      var before := Firsts(all, kind, n - 1);
      forall i | 0 <= i < |before| ensures HasId(before, kind.id, kind.id(before[i])) {
        IdAt(before, kind.id, i, |before|);
      }
    }
  }

  /** The place of an element with key `v` among those with that key. */
  lemma {:induction false} PlaceInKey<M>(s: seq<M>, key: M -> real, v: real, p: nat) returns (i: nat)
    requires p < |s| && key(s[p]) == v
    ensures i < |WithKey(s, key, v)| && WithKey(s, key, v)[i] == s[p]
    ensures i == |WithKey(s[..p], key, v)|
  {
    var init := s[..|s| - 1];
    if p == |s| - 1 {
      i := |WithKey(init, key, v)|;
      assert s[..p] == init;
    } else {
      i := PlaceInKey(init, key, v, p);
      assert init[..p] == s[..p];
    }
  }

  lemma {:induction false} WithKeyGrows<M>(s: seq<M>, key: M -> real, v: real, p: nat, q: nat)
    requires p < q <= |s| && key(s[p]) == v
    ensures |WithKey(s[..p], key, v)| < |WithKey(s[..q], key, v)|
  {
    assert s[..q][..q - 1] == s[..q - 1] && s[..q][q - 1] == s[q - 1];
    if p < q - 1 { WithKeyGrows(s, key, v, p, q - 1); }
  }

  ghost predicate AllDiffer<M>(s: seq<M>) { forall i, j :: 0 <= i < j < |s| ==> s[i] != s[j] }

  lemma {:induction false} WithKeyDiffer<M>(s: seq<M>, key: M -> real, v: real)
    requires AllDiffer(s)
    ensures AllDiffer(WithKey(s, key, v))
  {
    if s != [] {
      var init, last := s[..|s| - 1], s[|s| - 1];
      WithKeyDiffer(init, key, v);
      WithKeyMember(init, key, v, last);
      assert last !in init;
    }
  }

  /** The stable sort leaves elements with equal keys in their order. */
  lemma StableKeepsOrder<M>(s: seq<M>, key: M -> real, a: nat, b: nat, p: nat, q: nat)
    requires AllDiffer(s) && a < |s| && b < |s| && p < q < |s|
    requires StableSort(s, key)[p] == s[a] && StableSort(s, key)[q] == s[b] && key(s[a]) == key(s[b])
    ensures a < b
  {
    var t, v := StableSort(s, key), key(s[a]);
    StableSortCorrect(s, key);
    WithKeyDiffer(s, key, v);
    var i := PlaceInKey(s, key, v, a);
    var j := PlaceInKey(s, key, v, b);
    var k := PlaceInKey(t, key, v, p);
    var l := PlaceInKey(t, key, v, q);
    assert WithKey(t, key, v) == WithKey(s, key, v);
    assert i == k && j == l;
    WithKeyGrows(t, key, v, p, q);
    if b < a { WithKeyGrows(s, key, v, b, a); }
  }

  /** Gathered message `a` comes before gathered message `b`: it is older, or as old and found earlier. */
  ghost predicate Precedes<M, K>(gathered: seq<M>, kind: Kind<M, K>, a: nat, b: nat)
    requires a < |gathered| && b < |gathered|
  {
    kind.when(gathered[a]) < kind.when(gathered[b]) || (kind.when(gathered[a]) == kind.when(gathered[b]) && a < b)
  }

  lemma SortedPrecedes<M, K>(g: seq<M>, kind: Kind<M, K>, a: nat, b: nat, p: nat, q: nat)
    requires AllDiffer(g) && a < |g| && b < |g| && p < q < |g|
    requires StableSort(g, kind.when)[p] == g[a] && StableSort(g, kind.when)[q] == g[b]
    ensures Precedes(g, kind, a, b)
  {
    StableSortCorrect(g, kind.when);
    assert kind.when(g[a]) <= kind.when(g[b]);
    if kind.when(g[a]) == kind.when(g[b]) { StableKeepsOrder(g, kind.when, a, b, p, q); }
  }

  lemma SortedPlace<M>(s: seq<M>, key: M -> real, a: nat) returns (p: nat)
    requires a < |s|
    ensures p < |StableSort(s, key)| && StableSort(s, key)[p] == s[a]
  {
    StableSortCorrect(s, key);
    assert s[a] in multiset(StableSort(s, key));
    p :| 0 <= p < |StableSort(s, key)| && StableSort(s, key)[p] == s[a];
  }

  lemma GatheredDiffer<B, M, K(!new)>(boxes: map<B, seq<M>>, keys: seq<B>, kind: Kind<M, K>)
    ensures DistinctIds(Gather(boxes, keys, kind, |keys|), kind.id)
    ensures AllDiffer(Gather(boxes, keys, kind, |keys|))
  {
    var all := Waiting(boxes, keys, |keys|);
    GatherIsFirsts(boxes, keys, kind, |keys|);
    FirstsAreDistinct(all, kind, |all|);
  }

  ghost predicate IsAt<M>(s: seq<M>, a: int, m: M) { 0 <= a < |s| && s[a] == m }

  ghost predicate IsHandedOut<M, K>(gathered: seq<M>, a: int, out: seq<M>, kind: Kind<M, K>) {
    0 <= a < |gathered| && HasId(out, kind.id, kind.id(gathered[a]))
  }

  ghost predicate IsLeft<M, K>(gathered: seq<M>, b: int, out: seq<M>, kind: Kind<M, K>) {
    0 <= b < |gathered| && !HasId(out, kind.id, kind.id(gathered[b]))
  }

  /** What is handed out, in terms of what was gathered: sorted by time with ties in the order found, and every
      gathered message that is handed out precedes every one that is not. */
  ghost predicate OldestFirst<M, K>(out: seq<M>, gathered: seq<M>, kind: Kind<M, K>) {
    && Sorted(out, kind.when) && (forall x :: x in out ==> x in gathered)
    && (forall p, q, a, b :: 0 <= p < q < |out| && IsAt(gathered, a, out[p]) && IsAt(gathered, b, out[q]) ==>
          Precedes(gathered, kind, a, b))
    && (forall a, b :: IsHandedOut(gathered, a, out, kind) && IsLeft(gathered, b, out, kind) ==>
          Precedes(gathered, kind, a, b))
  }

  lemma HandedOutPrecedes<B, M, K(!new)>(boxes: map<B, seq<M>>, keys: seq<B>, limit: int, kind: Kind<M, K>, a: nat,
                                         b: nat)
    requires a < |Gather(boxes, keys, kind, |keys|)| && b < |Gather(boxes, keys, kind, |keys|)|
    requires var g, out := Gather(boxes, keys, kind, |keys|), Collect(boxes, keys, limit, kind).out;
             HasId(out, kind.id, kind.id(g[a])) && !HasId(out, kind.id, kind.id(g[b]))
    ensures Precedes(Gather(boxes, keys, kind, |keys|), kind, a, b)
  {
    var g, out := Gather(boxes, keys, kind, |keys|), Collect(boxes, keys, limit, kind).out;
    GatheredDiffer(boxes, keys, kind);
    var p := IdWhere(out, kind.id, kind.id(g[a]), |out|);
    var c := HandedOutIsGathered(boxes, keys, limit, kind, p);
    var q := SortedPlace(g, kind.when, b);
    if q < |out| { IdAt(out, kind.id, q, |out|); }
    SortedPrecedes(g, kind, a, b, p, q);
  }

  lemma HandedOutIsGathered<B, M, K>(boxes: map<B, seq<M>>, keys: seq<B>, limit: int, kind: Kind<M, K>, p: nat)
    returns (a: nat)
    requires p < |Collect(boxes, keys, limit, kind).out|
    ensures a < |Gather(boxes, keys, kind, |keys|)|
    ensures Collect(boxes, keys, limit, kind).out[p] == Gather(boxes, keys, kind, |keys|)[a]
  {
    var g := Gather(boxes, keys, kind, |keys|);
    var t := StableSort(g, kind.when);
    StableSortCorrect(g, kind.when);
    assert t[p] in multiset(g);
    a :| 0 <= a < |g| && g[a] == t[p];
  }

  /** A collection that cannot hand out everything hands out the oldest, ties going to the message found first; and
      what it hands out is in that order. */
  lemma CollectIsOldestFirst<B, M, K(!new)>(boxes: map<B, seq<M>>, keys: seq<B>, limit: int, kind: Kind<M, K>)
    ensures OldestFirst(Collect(boxes, keys, limit, kind).out, Gather(boxes, keys, kind, |keys|), kind)
  {
    var g, out := Gather(boxes, keys, kind, |keys|), Collect(boxes, keys, limit, kind).out;
    var t := StableSort(g, kind.when);
    GatheredDiffer(boxes, keys, kind);
    StableSortCorrect(g, kind.when);
    assert out == t[..|out|];
    forall x | x in out ensures x in g {
      var p :| 0 <= p < |out| && out[p] == x;
      var a := HandedOutIsGathered(boxes, keys, limit, kind, p);
    }
    forall p, q, a, b | 0 <= p < q < |out| && IsAt(g, a, out[p]) && IsAt(g, b, out[q])
      ensures Precedes(g, kind, a, b)
    {
      SortedPrecedes(g, kind, a, b, p, q);
    }
    forall a, b | IsHandedOut(g, a, out, kind) && IsLeft(g, b, out, kind)
      ensures Precedes(g, kind, a, b)
    {
      HandedOutPrecedes(boxes, keys, limit, kind, a, b);
    }
  }

  /** No requested box keeps a first copy that is older than a message handed out. (A later copy of an id may be older:
      it goes by the time of the first.) */
  lemma NothingOlderStays<B, M, K(!new)>(
        boxes: map<B, seq<M>>, keys: seq<B>, limit: int, kind: Kind<M, K>, k: B, i: nat,
                                         x: M)
    requires Distinct(keys) && k in keys && x in Collect(boxes, keys, limit, kind).out
    requires var all := Waiting(boxes, keys, |keys|);
             IsFirst(all, kind, i) && all[i] in BoxOf(Collect(boxes, keys, limit, kind).boxes, k)
    ensures kind.when(x) <= kind.when(Waiting(boxes, keys, |keys|)[i])
  {
    var c, g, all := Collect(boxes, keys, limit, kind), Gather(boxes, keys, kind, |keys|), Waiting(boxes, keys, |keys|);
    var box := BoxOf(boxes, k);
    CollectLookup(boxes, keys, limit, kind, k);
    RemainingMember(box, c.out, kind, |box|, all[i]);
    GatherIsFirsts(boxes, keys, kind, |keys|);
    var b := FirstIsThere(all, kind, |all|, i);
    var p :| 0 <= p < |c.out| && c.out[p] == x;
    var a := HandedOutIsGathered(boxes, keys, limit, kind, p);
    IdAt(c.out, kind.id, p, |c.out|);
    HandedOutPrecedes(boxes, keys, limit, kind, a, b);
  }

  lemma {:induction false} FirstIsThere<M, K>(all: seq<M>, kind: Kind<M, K>, n: nat, i: nat) returns (b: nat)
    requires n <= |all| && i < n && IsFirst(all, kind, i)
    ensures b < |Firsts(all, kind, n)| && Firsts(all, kind, n)[b] == all[i]
  {
    if i == n - 1 { b := |Firsts(all, kind, n - 1)|; } else { b := FirstIsThere(all, kind, n - 1, i); }
  }

  // ---- what stays ----

  ghost predicate Ascending(s: seq<nat>) { forall p, q :: 0 <= p < q < |s| ==> s[p] < s[q] }

  /** `left` are the messages of `box` whose ids were not handed out, each copy of them and in their order; `places` are
      their places. */
  ghost predicate LeftInPlace<M, K>(left: seq<M>, box: seq<M>, out: seq<M>, kind: Kind<M, K>, places: seq<nat>) {
    && |places| == |left| && Ascending(places)
    && (forall i: nat :: i in places <==> i < |box| && !HasId(out, kind.id, kind.id(box[i])))
    && forall p :: 0 <= p < |left| ==> places[p] < |box| && left[p] == box[places[p]]
  }

  lemma {:induction false} RemainingInPlace<M, K>(box: seq<M>, out: seq<M>, kind: Kind<M, K>, n: nat)
    returns (places: seq<nat>)
    requires n <= |box|
    ensures LeftInPlace(Remaining(box, out, kind, n), box[..n], out, kind, places)
  {
    if n == 0 {
      places := [];
    } else {
      var before := RemainingInPlace(box, out, kind, n - 1);
      OneMorePlace(before, n - 1);
      places := if HasId(out, kind.id, kind.id(box[n - 1])) then before else before + [n - 1];
      assert forall i :: 0 <= i < n - 1 ==> box[..n][i] == box[..n - 1][i];
    }
  }

  lemma OneMorePlace(s: seq<nat>, n: nat)
    requires Ascending(s) && forall i: nat :: i in s ==> i < n
    ensures Ascending(s + [n]) && forall i: nat :: i in s + [n] <==> i in s || i == n
  {
    forall p | 0 <= p < |s| ensures s[p] < n { assert s[p] in s; }
  }

  /** When there is more, a requested box keeps all its messages that were not handed out, in place; other boxes are as
      they were. */
  lemma CollectLeavesInPlace<B, M, K>(boxes: map<B, seq<M>>, keys: seq<B>, limit: int, kind: Kind<M, K>, k: B)
    returns (places: seq<nat>)
    requires Distinct(keys)
    ensures var c := Collect(boxes, keys, limit, kind);
            && (k !in keys ==> BoxOf(c.boxes, k) == BoxOf(boxes, k))
            && (k in keys && c.hasMore ==> LeftInPlace(BoxOf(c.boxes, k), BoxOf(boxes, k), c.out, kind, places))
  {
    var c, box := Collect(boxes, keys, limit, kind), BoxOf(boxes, k);
    CollectLookup(boxes, keys, limit, kind, k);
    places := RemainingInPlace(box, c.out, kind, |box|);
    assert box[..|box|] == box;
  }
}
