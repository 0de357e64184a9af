/** Destructive, bounded collection from keyed mailboxes: `_collect_from_keys` of
    backend/services/mesh/mesh_dm_relay.py and `collect_private_dm` of
    backend/services/mesh/mesh_rns.py. The two differ in what they skip (`ignored`). */
module Mailboxes {
  import opened Sorting

  /** How a store reads its messages. */
  datatype Kind<!M, !K> = Kind(id: M -> K, when: M -> real, ignored: M -> bool)

  /** The ids of the first `n` messages. */
  function IdsUpTo<M, K(==)>(s: seq<M>, id: M -> K, n: nat): set<K>
    requires n <= |s|
  {
    if n == 0 then {} else IdsUpTo(s, id, n - 1) + {id(s[n - 1])}
  }

  function Ids<M, K(==)>(s: seq<M>, id: M -> K): set<K> { IdsUpTo(s, id, |s|) }

  predicate HasId<M, K(==)>(s: seq<M>, id: M -> K, k: K) { k in Ids(s, id) }

  function BoxOf<B, M>(boxes: map<B, seq<M>>, k: B): seq<M> {
    if k in boxes then boxes[k] else []
  }

  ghost predicate Distinct<B>(keys: seq<B>) {
    forall i, j :: 0 <= i < j < |keys| ==> keys[i] != keys[j]
  }

  /** The first `n` messages of a box, added to `acc` unless ignored or already there by id. */
  function Absorb<M, K(==)>(acc: seq<M>, box: seq<M>, kind: Kind<M, K>, n: nat): seq<M>
    requires n <= |box|
  {
    if n == 0 then acc
    else
      var before, m := Absorb(acc, box, kind, n - 1), box[n - 1];
      if kind.ignored(m) || HasId(before, kind.id, kind.id(m)) then before else before + [m]
  }

  /** One message per id from the first `n` boxes, first come. */
  function Gather<B, M, K(==)>(boxes: map<B, seq<M>>, keys: seq<B>, kind: Kind<M, K>, n: nat): seq<M>
    requires n <= |keys|
  {
    if n == 0 then []
    else
      var box := BoxOf(boxes, keys[n - 1]);
      Absorb(Gather(boxes, keys, kind, n - 1), box, kind, |box|)
  }

  /** The messages of the first `n` whose id was not handed out. */
  function Remaining<M, K(==)>(box: seq<M>, out: seq<M>, kind: Kind<M, K>, n: nat): seq<M>
    requires n <= |box|
  {
    if n == 0 then []
    else Remaining(box, out, kind, n - 1) + if HasId(out, kind.id, kind.id(box[n - 1])) then [] else [box[n - 1]]
  }

  function Without<B, M>(boxes: map<B, seq<M>>, keys: seq<B>, n: nat): map<B, seq<M>>
    requires n <= |keys|
  {
    if n == 0 then boxes else Without(boxes, keys, n - 1) - {keys[n - 1]}
  }

  /** The first `n` boxes put back without what was handed out; empty boxes stay away. */
  function PutBack<B, M, K(==)>(
        boxes: map<B, seq<M>>, keys: seq<B>, out: seq<M>, kind: Kind<M, K>, n: nat): map<B, seq<M>>
    requires n <= |keys|
  {
    if n == 0 then Without(boxes, keys, |keys|)
    else
      var box := BoxOf(boxes, keys[n - 1]);
      var rest, left := PutBack(boxes, keys, out, kind, n - 1), Remaining(box, out, kind, |box|);
      if left == [] then rest else rest[keys[n - 1] := left]
  }

  datatype Collected<B, M> = Collected(out: seq<M>, boxes: map<B, seq<M>>, hasMore: bool)

  function Collect<B, M, K(==)>(boxes: map<B, seq<M>>, keys: seq<B>, limit: int, kind: Kind<M, K>): Collected<B, M> {
    var sorted := StableSort(Gather(boxes, keys, kind, |keys|), kind.when);
    if 0 < limit < |sorted|
    then Collected(sorted[..limit], PutBack(boxes, keys, sorted[..limit], kind, |keys|), true)
    else Collected(sorted, Without(boxes, keys, |keys|), false)
  }

  class Store<B(==), M> {
    var boxes: map<B, seq<M>>

    constructor (initial: map<B, seq<M>>)
      ensures boxes == initial
    {
      boxes := initial;
    }

    /** Both collectors: pop every box, keep one message per id, sort by time, keep `limit`, put the
        rest back. Both callers hand over duplicate-free keys. */
    method CollectFromKeys<K(==)>(keys: seq<B>, limit: int, kind: Kind<M, K>) returns (out: seq<M>, hasMore: bool)
      requires Distinct(keys)
      modifies this
      ensures Collected(out, boxes, hasMore) == Collect(old(boxes), keys, limit, kind)
    {
      var messages: seq<M>, seen: set<K>, popped: map<B, seq<M>> := [], {}, map[];
      for i := 0 to |keys|
        invariant boxes == Without(old(boxes), keys, i)
        invariant messages == Gather(old(boxes), keys, kind, i)
        invariant seen == Ids(messages, kind.id)
        invariant forall j :: 0 <= j < i ==> keys[j] in popped && popped[keys[j]] == BoxOf(old(boxes), keys[j])
      {
        UntouchedBox(old(boxes), keys, i);
        var raw := BoxOf(boxes, keys[i]);
        boxes := boxes - {keys[i]};
        popped := popped[keys[i] := raw];
        messages, seen := AbsorbBox(messages, seen, raw, kind);
      }
      out, hasMore := StableSort(messages, kind.when), false;
      if 0 < limit < |out| {
        hasMore := true;
        out := out[..limit];
        for i := 0 to |keys|
          invariant boxes == PutBack(old(boxes), keys, out, kind, i)
        {
          var original := popped[keys[i]];
          var remaining := Remaining(original, out, kind, |original|);
          if remaining != [] {
            boxes := boxes[keys[i] := remaining];
          }
        }
      }
    }

    /** The inner loop over one box. */
    method AbsorbBox<K(==)>(messages0: seq<M>, seen0: set<K>, raw: seq<M>, kind: Kind<M, K>)
      returns (messages: seq<M>, seen: set<K>)
      requires seen0 == Ids(messages0, kind.id)
      ensures messages == Absorb(messages0, raw, kind, |raw|)
      ensures seen == Ids(messages, kind.id)
    {
      messages, seen := messages0, seen0;
      for i := 0 to |raw|
        invariant messages == Absorb(messages0, raw, kind, i)
        invariant seen == Ids(messages, kind.id)
      {
        if !kind.ignored(raw[i]) && kind.id(raw[i]) !in seen {
          IdsSnoc(messages, raw[i], kind.id);
          seen := seen + {kind.id(raw[i])};
          messages := messages + [raw[i]];
        }
      }
    }
  }

  lemma {:induction false} IdsPrefix<M, K>(s: seq<M>, t: seq<M>, id: M -> K, n: nat)
    requires n <= |s|
    ensures IdsUpTo(s + t, id, n) == IdsUpTo(s, id, n)
  {
    if n > 0 {
      IdsPrefix(s, t, id, n - 1);
      assert (s + t)[n - 1] == s[n - 1];
    }
  }

  lemma IdsSnoc<M, K>(s: seq<M>, m: M, id: M -> K)
    ensures Ids(s + [m], id) == Ids(s, id) + {id(m)}
  {
    IdsPrefix(s, [m], id, |s|);
    assert (s + [m])[|s|] == m;
  }

  lemma {:induction false} IdAt<M, K>(s: seq<M>, id: M -> K, i: nat, n: nat)
    requires i < n <= |s|
    ensures id(s[i]) in IdsUpTo(s, id, n)
  {
    if i < n - 1 { IdAt(s, id, i, n - 1); }
  }

  lemma {:induction false} IdWhere<M, K>(s: seq<M>, id: M -> K, k: K, n: nat) returns (i: nat)
    requires n <= |s| && k in IdsUpTo(s, id, n)
    ensures i < n && id(s[i]) == k
  {
    if id(s[n - 1]) == k { i := n - 1; } else { i := IdWhere(s, id, k, n - 1); }
  }

  lemma {:induction false} UntouchedBox<B, M>(boxes: map<B, seq<M>>, keys: seq<B>, n: nat)
    requires n < |keys| && Distinct(keys)
    ensures BoxOf(Without(boxes, keys, n), keys[n]) == BoxOf(boxes, keys[n])
  {
    WithoutLookup(boxes, keys, n, keys[n]);
  }

  lemma {:induction false} WithoutLookup<B, M>(boxes: map<B, seq<M>>, keys: seq<B>, n: nat, k: B)
    requires n <= |keys|
    ensures k in Without(boxes, keys, n) <==> k in boxes && k !in keys[..n]
    ensures k in Without(boxes, keys, n) ==> Without(boxes, keys, n)[k] == boxes[k]
  {
    if n > 0 {
      WithoutLookup(boxes, keys, n - 1, k);
      assert keys[..n] == keys[..n - 1] + [keys[n - 1]];
    }
  }

  // ---- what a collection does ----

  lemma PrefixSnoc<B>(keys: seq<B>, n: nat, k: B)
    requires n < |keys| && Distinct(keys)
    ensures k in keys[..n + 1] <==> k in keys[..n] || k == keys[n]
    ensures k in keys[n..] <==> k == keys[n] || k in keys[n + 1..]
    ensures keys[n] !in keys[..n] && keys[n] !in keys[n + 1..] && keys[n] in keys
    ensures !(k in keys[..n] && k in keys[n..])
  {
    assert keys[..n + 1] == keys[..n] + [keys[n]];
    assert keys[n..] == [keys[n]] + keys[n + 1..];
  }

  lemma PutBackOne<B, M, K>(boxes: map<B, seq<M>>, keys: seq<B>, out: seq<M>, kind: Kind<M, K>, n: nat, k: B)
    requires n < |keys|
    ensures var before, after := PutBack(boxes, keys, out, kind, n), PutBack(boxes, keys, out, kind, n + 1);
            && (k != keys[n] ==> BoxOf(after, k) == BoxOf(before, k) && (k in after <==> k in before))
            && (k == keys[n] && k !in before ==>
              BoxOf(after, k) == Remaining(BoxOf(boxes, k), out, kind, |BoxOf(boxes, k)|))
  {
  }

  lemma {:induction false} PutBackLookup<B, M, K>(
        boxes: map<B, seq<M>>, keys: seq<B>, out: seq<M>, kind: Kind<M, K>, n: nat, k: B)
    requires n <= |keys| && Distinct(keys)
    ensures k !in keys ==> BoxOf(PutBack(boxes, keys, out, kind, n), k) == BoxOf(boxes, k)
    ensures k in keys[..n] ==> BoxOf(PutBack(boxes, keys, out, kind, n), k)
                               == Remaining(BoxOf(boxes, k), out, kind, |BoxOf(boxes, k)|)
    ensures k in keys[n..] ==> k !in PutBack(boxes, keys, out, kind, n)
  {
    if n == 0 {
      WithoutLookup(boxes, keys, |keys|, k);
      assert keys[..|keys|] == keys && keys[0..] == keys;
    } else {
      PutBackLookup(boxes, keys, out, kind, n - 1, k);
      PrefixSnoc(keys, n - 1, k);
      PutBackOne(boxes, keys, out, kind, n - 1, k);
    }
  }

  /** What each box holds after a collection. */
  lemma CollectLookup<B, M, K>(boxes: map<B, seq<M>>, keys: seq<B>, limit: int, kind: Kind<M, K>, k: B)
    requires Distinct(keys)
    ensures var c := Collect(boxes, keys, limit, kind);
            BoxOf(c.boxes, k)
            == if k !in keys then BoxOf(boxes, k)
               else if c.hasMore then Remaining(BoxOf(boxes, k), c.out, kind, |BoxOf(boxes, k)|)
               else []
  {
    var c := Collect(boxes, keys, limit, kind);
    assert keys[..|keys|] == keys;
    WithoutLookup(boxes, keys, |keys|, k);
    PutBackLookup(boxes, keys, c.out, kind, |keys|, k);
  }

  lemma {:induction false} RemainingMember<M, K>(box: seq<M>, out: seq<M>, kind: Kind<M, K>, n: nat, m: M)
    requires n <= |box|
    ensures m in Remaining(box, out, kind, n) <==> m in box[..n] && !HasId(out, kind.id, kind.id(m))
  {
    if n > 0 {
      RemainingMember(box, out, kind, n - 1, m);
      assert box[..n] == box[..n - 1] + [box[n - 1]];
    }
  }

  lemma {:induction false} AbsorbIds<M, K>(acc: seq<M>, box: seq<M>, kind: Kind<M, K>, n: nat)
    requires n <= |box|
    ensures Ids(acc, kind.id) <= Ids(Absorb(acc, box, kind, n), kind.id)
    ensures forall i :: 0 <= i < n && !kind.ignored(box[i]) ==>
            HasId(Absorb(acc, box, kind, n), kind.id, kind.id(box[i]))
  {
    if n > 0 {
      AbsorbIds(acc, box, kind, n - 1);
      IdsSnoc(Absorb(acc, box, kind, n - 1), box[n - 1], kind.id);
    }
  }

  /** Every message that is not ignored is gathered, or another one with its id is. */
  lemma {:induction false} GatherCovers<B, M, K>(
        boxes: map<B, seq<M>>, keys: seq<B>, kind: Kind<M, K>, n: nat, j: nat, m: M)
    requires j < n <= |keys| && m in BoxOf(boxes, keys[j]) && !kind.ignored(m)
    ensures HasId(Gather(boxes, keys, kind, n), kind.id, kind.id(m))
  {
    var box := BoxOf(boxes, keys[n - 1]);
    AbsorbIds(Gather(boxes, keys, kind, n - 1), box, kind, |box|);
    if j == n - 1 {
      var i :| 0 <= i < |box| && box[i] == m;
    } else {
      GatherCovers(boxes, keys, kind, n - 1, j, m);
    }
  }

  /** Sorting does not change which ids are there. */
  lemma SortKeepsIds<M, K>(s: seq<M>, t: seq<M>, id: M -> K)
    requires multiset(s) == multiset(t)
    ensures Ids(s, id) <= Ids(t, id)
  {
    forall k | k in Ids(s, id) ensures k in Ids(t, id) {
      var i := IdWhere(s, id, k, |s|);
      assert s[i] in multiset(t);
      var j :| 0 <= j < |t| && t[j] == s[i];
      IdAt(t, id, j, |t|);
    }
  }

  /** Nothing is lost: a message that was in a box is still there, or it was handed out, or a
      message with the same id was. The one exception is a message the store ignores. */
  lemma CollectConserves<B, M, K>(boxes: map<B, seq<M>>, keys: seq<B>, limit: int, kind: Kind<M, K>, k: B, m: M)
    requires Distinct(keys)
    requires m in BoxOf(boxes, k)
    ensures var c := Collect(boxes, keys, limit, kind);
            m in BoxOf(c.boxes, k) || HasId(c.out, kind.id, kind.id(m)) || (kind.ignored(m) && k in keys && !c.hasMore)
  {
    var c := Collect(boxes, keys, limit, kind);
    var gathered, box := Gather(boxes, keys, kind, |keys|), BoxOf(boxes, k);
    CollectLookup(boxes, keys, limit, kind, k);
    if k in keys {
      if c.hasMore {
        RemainingMember(box, c.out, kind, |box|, m);
        assert box[..|box|] == box;
      } else if !kind.ignored(m) {
        var j :| 0 <= j < |keys| && keys[j] == k;
        GatherCovers(boxes, keys, kind, |keys|, j, m);
        StableSortCorrect(gathered, kind.when);
        SortKeepsIds(gathered, c.out, kind.id);
      }
    }
  }

  lemma {:induction false} AbsorbFrom<M, K>(acc: seq<M>, box: seq<M>, kind: Kind<M, K>, n: nat, x: M)
    requires n <= |box| && x in Absorb(acc, box, kind, n)
    ensures x in acc || (x in box && !kind.ignored(x))
  {
    if n > 0 && x !in Absorb(acc, box, kind, n - 1) {
    } else if n > 0 {
      AbsorbFrom(acc, box, kind, n - 1, x);
    }
  }

  lemma {:induction false} GatherFrom<B, M, K>(
        boxes: map<B, seq<M>>, keys: seq<B>, kind: Kind<M, K>, n: nat, x: M) returns (j: nat)
    requires n <= |keys| && x in Gather(boxes, keys, kind, n)
    ensures j < n && x in BoxOf(boxes, keys[j]) && !kind.ignored(x)
  {
    var box := BoxOf(boxes, keys[n - 1]);
    AbsorbFrom(Gather(boxes, keys, kind, n - 1), box, kind, |box|, x);
    if x in box && !kind.ignored(x) { j := n - 1; } else { j := GatherFrom(boxes, keys, kind, n - 1, x); }
  }

  /** What is handed out comes from a requested box and is not ignored. */
  lemma HandedOutFrom<B, M, K>(boxes: map<B, seq<M>>, keys: seq<B>, limit: int, kind: Kind<M, K>, x: M) returns (j: nat)
    requires x in Collect(boxes, keys, limit, kind).out
    ensures j < |keys| && x in BoxOf(boxes, keys[j]) && !kind.ignored(x)
  {
    var gathered := Gather(boxes, keys, kind, |keys|);
    StableSortCorrect(gathered, kind.when);
    assert x in multiset(StableSort(gathered, kind.when));
    assert x in multiset(gathered);
    j := GatherFrom(boxes, keys, kind, |keys|, x);
  }

  /** Messages with one id are ignored together or not at all. */
  ghost predicate IgnoredById<M(!new), K>(kind: Kind<M, K>) {
    forall a, b :: kind.id(a) == kind.id(b) ==> kind.ignored(a) == kind.ignored(b)
  }

  lemma IgnoredIsNotHandedOut<B, M(!new), K>(boxes: map<B, seq<M>>, keys: seq<B>, limit: int, kind: Kind<M, K>, m: M)
    requires IgnoredById(kind) && kind.ignored(m)
    ensures !HasId(Collect(boxes, keys, limit, kind).out, kind.id, kind.id(m))
  {
    var out := Collect(boxes, keys, limit, kind).out;
    if HasId(out, kind.id, kind.id(m)) {
      var i := IdWhere(out, kind.id, kind.id(m), |out|);
      var j := HandedOutFrom(boxes, keys, limit, kind, out[i]);
    }
  }

  /** The exception, exactly: an ignored message is neither kept nor represented if and only if its box is
      collected and no more messages were gathered than the limit allows. */
  lemma IgnoredIsLostIff<B, M(!new), K>(boxes: map<B, seq<M>>, keys: seq<B>, limit: int, kind: Kind<M, K>, k: B, m: M)
    requires Distinct(keys) && IgnoredById(kind)
    requires m in BoxOf(boxes, k) && kind.ignored(m)
    ensures var c := Collect(boxes, keys, limit, kind);
            m !in BoxOf(c.boxes, k) && !HasId(c.out, kind.id, kind.id(m))
            <==> k in keys && !(0 < limit < |Gather(boxes, keys, kind, |keys|)|)
  {
    var c, box := Collect(boxes, keys, limit, kind), BoxOf(boxes, k);
    CollectLookup(boxes, keys, limit, kind, k);
    IgnoredIsNotHandedOut(boxes, keys, limit, kind, m);
    RemainingMember(box, c.out, kind, |box|, m);
    assert box[..|box|] == box;
  }

  /** One box with one message, which has the id 0, in a lane that ignores that id: the message is gone. */
  lemma IgnoredLossHappens(limit: int)
    ensures var kind: Kind<nat, nat> := Kind((m: nat) => m, (m: nat) => 0.0, (m: nat) => m == 0);
            var c := Collect(map["box" := [0]], ["box"], limit, kind);
            c.out == [] && 0 !in BoxOf(c.boxes, "box")
  {
    var kind: Kind<nat, nat> := Kind((m: nat) => m, (m: nat) => 0.0, (m: nat) => m == 0);
    var boxes := map["box" := [0]];
    assert Gather(boxes, ["box"], kind, 1) == Absorb([], [0], kind, 1) == [];
    IgnoredIsLostIff(boxes, ["box"], limit, kind, "box", 0);
  }

  /** A collection hands out at most `limit` messages, each of them taken from a requested box; it reports
      more exactly when a positive limit was exceeded, and then it hands out `limit` of them. */
  lemma CollectBounded<B, M, K>(boxes: map<B, seq<M>>, keys: seq<B>, limit: int, kind: Kind<M, K>)
    requires Distinct(keys)
    ensures var c := Collect(boxes, keys, limit, kind);
            && (limit > 0 ==> |c.out| <= limit)
            && (c.hasMore <==> 0 < limit < |Gather(boxes, keys, kind, |keys|)|)
            && (c.hasMore ==> |c.out| == limit)
            && (forall x :: x in c.out ==> exists k :: k in keys && x in BoxOf(boxes, k))
  {
    var c := Collect(boxes, keys, limit, kind);
    forall x | x in c.out ensures exists k :: k in keys && x in BoxOf(boxes, k) {
      var j := HandedOutFrom(boxes, keys, limit, kind, x);
      assert keys[j] in keys;
    }
  }

  /** The ids waiting in the given boxes. */
  function QueuedIds<B, M, K(==)>(boxes: map<B, seq<M>>, keys: seq<B>, kind: Kind<M, K>): set<K> {
    Ids(Gather(boxes, keys, kind, |keys|), kind.id)
  }

  /** A collection that hands out anything shrinks the backlog; one that reports no more empties
      the boxes. */
  lemma CollectProgress<B, M, K>(boxes: map<B, seq<M>>, keys: seq<B>, limit: int, kind: Kind<M, K>)
    requires Distinct(keys)
    ensures var c := Collect(boxes, keys, limit, kind);
            && QueuedIds(c.boxes, keys, kind) <= QueuedIds(boxes, keys, kind)
            && (c.out != [] ==> QueuedIds(c.boxes, keys, kind) < QueuedIds(boxes, keys, kind))
            && (!c.hasMore ==> forall k :: k in keys ==> BoxOf(c.boxes, k) == [])
  {
    var c := Collect(boxes, keys, limit, kind);
    forall k | k in keys && !c.hasMore ensures BoxOf(c.boxes, k) == [] {
      CollectLookup(boxes, keys, limit, kind, k);
    }
    forall id | id in QueuedIds(c.boxes, keys, kind)
      ensures id in QueuedIds(boxes, keys, kind) && !HasId(c.out, kind.id, id)
    {
      StillQueued(boxes, keys, limit, kind, id);
    }
    if c.out != [] {
      IdAt(c.out, kind.id, 0, |c.out|);
      HandedOutWasQueued(boxes, keys, limit, kind, 0);
    }
  }

  lemma StillQueued<B, M, K>(boxes: map<B, seq<M>>, keys: seq<B>, limit: int, kind: Kind<M, K>, id: K)
    requires Distinct(keys)
    requires id in QueuedIds(Collect(boxes, keys, limit, kind).boxes, keys, kind)
    ensures id in QueuedIds(boxes, keys, kind) && !HasId(Collect(boxes, keys, limit, kind).out, kind.id, id)
  {
    var c := Collect(boxes, keys, limit, kind);
    var left := Gather(c.boxes, keys, kind, |keys|);
    var i := IdWhere(left, kind.id, id, |left|);
    var j := GatherFrom(c.boxes, keys, kind, |keys|, left[i]);
    CollectLookup(boxes, keys, limit, kind, keys[j]);
    var box := BoxOf(boxes, keys[j]);
    RemainingMember(box, c.out, kind, |box|, left[i]);
    assert box[..|box|] == box;
    GatherCovers(boxes, keys, kind, |keys|, j, left[i]);
  }

  lemma HandedOutWasQueued<B, M, K>(boxes: map<B, seq<M>>, keys: seq<B>, limit: int, kind: Kind<M, K>, i: nat)
    requires Distinct(keys) && i < |Collect(boxes, keys, limit, kind).out|
    ensures kind.id(Collect(boxes, keys, limit, kind).out[i]) in QueuedIds(boxes, keys, kind)
  {
    var c, gathered := Collect(boxes, keys, limit, kind), Gather(boxes, keys, kind, |keys|);
    StableSortCorrect(gathered, kind.when);
    assert c.out[i] in multiset(StableSort(gathered, kind.when));
    assert c.out[i] in multiset(gathered);
    var j :| 0 <= j < |gathered| && gathered[j] == c.out[i];
    IdAt(gathered, kind.id, j, |gathered|);
  }

  /** A collection adds nothing to any box. */
  lemma CollectOnlyRemoves<B, M, K>(boxes: map<B, seq<M>>, keys: seq<B>, limit: int, kind: Kind<M, K>, k: B, m: M)
    requires Distinct(keys)
    requires m in BoxOf(Collect(boxes, keys, limit, kind).boxes, k)
    ensures m in BoxOf(boxes, k)
  {
    CollectLookup(boxes, keys, limit, kind, k);
    var box := BoxOf(boxes, k);
    if k in keys {
      RemainingMember(box, Collect(boxes, keys, limit, kind).out, kind, |box|, m);
    }
  }

  /** A box that is empty stays empty. */
  lemma EmptyStaysEmpty<B, M, K>(boxes: map<B, seq<M>>, keys: seq<B>, limit: int, kind: Kind<M, K>, k: B)
    requires Distinct(keys) && BoxOf(boxes, k) == []
    ensures BoxOf(Collect(boxes, keys, limit, kind).boxes, k) == []
  {
    CollectLookup(boxes, keys, limit, kind, k);
  }

  lemma {:induction false} IdsConcat<M, K>(a: seq<M>, b: seq<M>, id: M -> K)
    ensures Ids(a + b, id) == Ids(a, id) + Ids(b, id)
  {
    if b == [] {
      assert a + b == a;
    } else {
      var init, last := b[..|b| - 1], b[|b| - 1];
      IdsConcat(a, init, id);
      IdsSnoc(a + init, last, id);
      IdsSnoc(init, last, id);
      assert a + b == (a + init) + [last] && b == init + [last];
    }
  }
}
