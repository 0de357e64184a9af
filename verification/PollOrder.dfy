/** The order in which polls take messages, and when the legacy poll reports more. */
module PollOrder {
  import opened Mailboxes
  import opened MailboxOrder
  import opened Polling
  import opened Runs

  /** A poll takes the oldest from each lane: no box it reaches keeps the first copy of an id that is older than a
      message taken from that lane, and what it takes from a lane is in the order of time. */
  lemma PollTakesTheOldest<B(!new), M(!new), K(!new)>(p: Poller<M, K>, q: Queues<B, M>, r: Request<B>)
    requires ValidRequest(r)
    ensures var rc, dc := RelayPart(p, q, r), DirectPart(p, q, r);
            && OldestFirst(rc.out, Gather(q.relay, r.relayKeys, p.RelayKind(), |r.relayKeys|), p.RelayKind())
            && OldestFirst(dc.out, Gather(q.direct, r.directKeys, p.DirectKind(), |r.directKeys|), p.DirectKind())
            && NoneOlder(rc, q.relay, r.relayKeys, p.RelayKind())
            && NoneOlder(dc, q.direct, r.directKeys, p.DirectKind())
  {
    var budget := BATCH_LIMIT - |RelayPart(p, q, r).out|;
    CollectIsOldestFirst(q.relay, r.relayKeys, BATCH_LIMIT, p.RelayKind());
    CollectIsOldestFirst(q.direct, r.directKeys, budget, p.DirectKind());
    LaneLeavesNoneOlder(q.relay, r.relayKeys, BATCH_LIMIT, p.RelayKind());
    LaneLeavesNoneOlder(q.direct, r.directKeys, budget, p.DirectKind());
  }

  ghost predicate NoneOlder<B(!new), M(!new), K>(c: Collected<B, M>, boxes: map<B, seq<M>>, keys: seq<B>,
                                                 kind: Kind<M, K>) {
    forall k, i: nat, x :: LeftFirst(c, boxes, keys, kind, k, i) && x in c.out ==>
      kind.when(x) <= kind.when(Waiting(boxes, keys, |keys|)[i])
  }

  /** The first copy of its id, number `i` of what waited, is still in box `k`. */
  ghost predicate LeftFirst<B, M, K>(c: Collected<B, M>, boxes: map<B, seq<M>>, keys: seq<B>, kind: Kind<M, K>, k: B,
                                     i: nat)
  {
    var all := Waiting(boxes, keys, |keys|);
    k in keys && IsFirst(all, kind, i) && all[i] in BoxOf(c.boxes, k)
  }

  lemma LaneLeavesNoneOlder<B(!new), M(!new), K(!new)>(boxes: map<B, seq<M>>, keys: seq<B>, limit: int,
                                                       kind: Kind<M, K>)
    requires Distinct(keys)
    ensures NoneOlder(Collect(boxes, keys, limit, kind), boxes, keys, kind)
  {
    var c := Collect(boxes, keys, limit, kind);
    forall k, i: nat, x | LeftFirst(c, boxes, keys, kind, k, i) && x in c.out
      ensures kind.when(x) <= kind.when(Waiting(boxes, keys, |keys|)[i])
    {
      NothingOlderStays(boxes, keys, limit, kind, k, i, x);
    }
  }

  /** A poll takes at most eight messages, and it reports more only when it has taken eight. */
  lemma PollTakesEight<B(!new), M(!new), K(!new)>(p: Poller<M, K>, q: Queues<B, M>, r: Request<B>)
    requires ValidRequest(r)
    ensures var rc, dc := RelayPart(p, q, r), DirectPart(p, q, r);
            |rc.out| + |dc.out| <= 8 && (rc.hasMore || dc.hasMore ==> |rc.out| + |dc.out| == 8)
  {
    CollectBounded(q.relay, r.relayKeys, BATCH_LIMIT, p.RelayKind());
    CollectBounded(q.direct, r.directKeys, BATCH_LIMIT - |RelayPart(p, q, r).out|, p.DirectKind());
  }

  // ---- no id twice in a box of the direct lane ----

  ghost predicate DistinctBoxes<B(!new), M, K>(boxes: map<B, seq<M>>, id: M -> K) {
    forall k :: DistinctIds(BoxOf(boxes, k), id)
  }

  lemma SubsequenceIsDistinct<M, K>(left: seq<M>, box: seq<M>, out: seq<M>, kind: Kind<M, K>, places: seq<nat>)
    requires LeftInPlace(left, box, out, kind, places) && DistinctIds(box, kind.id)
    ensures DistinctIds(left, kind.id)
  {
  }

  lemma CollectKeepsDistinct<B(!new), M, K>(boxes: map<B, seq<M>>, keys: seq<B>, limit: int, kind: Kind<M, K>)
    requires Distinct(keys) && DistinctBoxes(boxes, kind.id)
    ensures DistinctBoxes(Collect(boxes, keys, limit, kind).boxes, kind.id)
  {
    var c := Collect(boxes, keys, limit, kind);
    forall k ensures DistinctIds(BoxOf(c.boxes, k), kind.id) {
      var places := CollectLeavesInPlace(boxes, keys, limit, kind, k);
      if k in keys && c.hasMore {
        SubsequenceIsDistinct(BoxOf(c.boxes, k), BoxOf(boxes, k), c.out, kind, places);
      } else if k in keys {
        CollectLookup(boxes, keys, limit, kind, k);
      }
    }
  }

  /** Over every step a box of the direct lane holds no id twice. */
  lemma ApplyKeepsDistinct<B(!new), M(!new), K(!new)>(p: Poller<M, K>, q: Queues<B, M>, s: Step<B, M>)
    requires ValidStep(p, s) && DistinctBoxes(q.direct, p.id)
    ensures DistinctBoxes(Apply(p, q, s).0.direct, p.id)
  {
    match s
    case DepositRelay(_, _) =>
    case StoreDirect(key, m) => StoreKeepsDistinct(p, q, key, m);
    case Ask(r) =>
      var budget := BATCH_LIMIT - |RelayPart(p, q, r).out|;
      CollectKeepsDistinct(q.direct, r.directKeys, budget, p.DirectKind());
  }

  lemma StoreKeepsDistinct<B(!new), M(!new), K(!new)>(p: Poller<M, K>, q: Queues<B, M>, key: B, m: M)
    requires DistinctBoxes(q.direct, p.id)
    ensures DistinctBoxes(Apply(p, q, StoreDirect(key, m)).0.direct, p.id)
  {
    var box, after := BoxOf(q.direct, key), Apply(p, q, StoreDirect(key, m)).0;
    forall k ensures DistinctIds(BoxOf(after.direct, k), p.id) {
      assert DistinctIds(BoxOf(q.direct, k), p.id);
      if k == key && !HasId(box, p.id, p.id(m)) { AppendIsDistinct(box, m, p.id); }
    }
  }

  lemma AppendIsDistinct<M, K>(box: seq<M>, m: M, id: M -> K)
    requires DistinctIds(box, id) && !HasId(box, id, id(m))
    ensures DistinctIds(box + [m], id)
  {
    forall i | 0 <= i < |box| ensures id(box[i]) != id(m) { IdAt(box, id, i, |box|); }
  }

  /** Over every run that starts so. */
  lemma {:induction false} BoxesStayDistinct<B(!new), M(!new), K(!new)>(p: Poller<M, K>, q: Queues<B, M>,
                                                                        steps: seq<Step<B, M>>, n: nat)
    requires n <= |steps| && (forall j :: 0 <= j < |steps| ==> ValidStep(p, steps[j])) && DistinctBoxes(q.direct, p.id)
    ensures DistinctBoxes(StateAfter((s: Queues<B, M>, a: Step<B, M>) => Apply(p, s, a), q, steps, n).direct, p.id)
  {
    if n > 0 {
      BoxesStayDistinct(p, q, steps, n - 1);
      ApplyKeepsDistinct(p, StateAfter((s: Queues<B, M>, a: Step<B, M>) => Apply(p, s, a), q, steps, n - 1),
                         steps[n - 1]);
    }
  }

  // ---- the legacy endpoint ----

  predicate MoreIffFull<B, M>(s: Legacy<B, M>) { |s.msgs| <= 8 && (s.hasMore <==> |s.msgs| == 8) }

  lemma TokenTakerFills<B(!new), M(!new), K(!new)>(tokens: seq<seq<B>>, kind: Kind<M, K>, s: Legacy<B, M>, i: nat)
    requires i < |tokens| ==> Distinct(tokens[i])
    requires MoreIffFull(s)
    ensures MoreIffFull(LegacyStep(TokenTaker(tokens, kind), s, i))
  {
    if i < |tokens| && |s.msgs| < BATCH_LIMIT {
      CollectBounded(s.boxes, tokens[i], BATCH_LIMIT - |s.msgs|, kind);
    }
  }

  /** The legacy loop reports more if and only if its batch of eight is full, whether or not anything is left. */
  lemma {:induction false} LegacyMoreIffFull<B(!new), M(!new), K(!new)>(
        kind: Kind<M, K>, boxes: map<B, seq<M>>, tokens: seq<seq<B>>, n: nat)
    requires n <= |tokens| && forall i :: 0 <= i < |tokens| ==> Distinct(tokens[i])
    ensures MoreIffFull(LegacyRun(TokenTaker(tokens, kind), boxes, n))
  {
    if n > 0 {
      LegacyMoreIffFull(kind, boxes, tokens, n - 1);
      TokenTakerFills(tokens, kind, LegacyRun(TokenTaker(tokens, kind), boxes, n - 1), n - 1);
    }
  }
}
