/** A poll of two message lanes with a shared budget, and whole runs of polls and deliveries.

    Written over an arbitrary message type; `combine` (annotate and merge) is only known to be
    `Sound`. DmPollService shows that the poll of backend/main.py is an instance. */
module Polling {
  import opened Mailboxes
  import opened Runs

  const BATCH_LIMIT := 8

  datatype Option<T> = None | Some(value: T)

  /** `id` is what the stores compare, `tag` what the merge compares, `readable` says that the
      timestamp is a number, `idless` that there is no id to compare. */
  datatype Poller<!M, !K> = Poller(id: M -> K, tag: M -> K, when: M -> real, readable: M -> bool, idless: M -> bool,
                                   combine: (seq<M>, seq<M>) -> Option<seq<M>>)
  {
    /** The relay compares empty ids like any other; the direct lane skips messages without one. */
    function RelayKind(): Kind<M, K> { Kind(id, when, (m: M) => false) }

    function DirectKind(): Kind<M, K> { Kind(id, when, idless) }
  }

  /** A message with the tag of `m` is among `out`. */
  ghost predicate Answered<M, K>(p: Poller<M, K>, out: seq<M>, m: M) {
    exists i :: 0 <= i < |out| && p.tag(out[i]) == p.tag(m)
  }

  ghost predicate AllReadable<M, K>(p: Poller<M, K>, s: seq<M>) {
    forall i :: 0 <= i < |s| ==> p.readable(s[i])
  }

  /** What the merge must promise: it succeeds on readable timestamps, does not invent messages,
      and answers for every message it is given. */
  ghost predicate Sound<M(!new), K(!new)>(p: Poller<M, K>) {
    && (forall a, b :: p.id(a) == p.id(b) ==> p.tag(a) == p.tag(b))
    && (forall relay, direct :: AllReadable(p, relay) && AllReadable(p, direct) ==> GoodCombination(p, relay, direct))
  }

  ghost predicate GoodCombination<M(!new), K(!new)>(p: Poller<M, K>, relay: seq<M>, direct: seq<M>) {
    var r := p.combine(relay, direct);
    && r.Some?
    && |r.value| <= |relay| + |direct|
    && (forall m :: m in relay || m in direct ==> Answered(p, r.value, m))
  }

  /** The relay's mailboxes and the blinded mailboxes of the direct lane. */
  datatype Queues<B, M> = Queues(relay: map<B, seq<M>>, direct: map<B, seq<M>>)

  /** What both stores guarantee of what they hold: float timestamps, and in the direct lane an id. */
  ghost predicate WellFormed<B(!new), M(!new), K(!new)>(p: Poller<M, K>, q: Queues<B, M>) {
    && (forall k, m :: m in BoxOf(q.relay, k) ==> p.readable(m))
    && (forall k, m :: m in BoxOf(q.direct, k) ==> p.readable(m) && !p.idless(m))
  }

  /** `directKeys` are the boxes of the same claims in the direct lane; `directUp` is false when that
      lane cannot be reached. */
  datatype Request<B> = Request(relayKeys: seq<B>, directKeys: seq<B>, anonymous: bool, directUp: bool)
  {
    /** Anonymous requests are answered from the relay alone. */
    predicate ReachesDirect() { !anonymous && directUp }
  }

  ghost predicate ValidRequest<B>(r: Request<B>) { Distinct(r.relayKeys) && Distinct(r.directKeys) }

  datatype Reply<M> = Reply(messages: seq<M>, hasMore: bool) | Raised

  function RelayPart<B, M, K(==)>(p: Poller<M, K>, q: Queues<B, M>, r: Request<B>): Collected<B, M> {
    Collect(q.relay, r.relayKeys, BATCH_LIMIT, p.RelayKind())
  }

  /** The direct lane gets what the relay left of the budget. */
  function DirectPart<B, M, K(==)>(p: Poller<M, K>, q: Queues<B, M>, r: Request<B>): Collected<B, M> {
    var budget := BATCH_LIMIT - |RelayPart(p, q, r).out|;
    if budget > 0 && !r.anonymous && r.directUp then Collect(q.direct, r.directKeys, budget, p.DirectKind())
    else Collected([], q.direct, budget <= 0 && !r.anonymous)
  }

  /** Merge, then cut to the batch limit. */
  function Answer<M, K>(p: Poller<M, K>, relay: seq<M>, direct: seq<M>, hasMore: bool): Reply<M> {
    match p.combine(relay, direct)
    case None => Raised
    case Some(merged) => Reply(if |merged| <= BATCH_LIMIT then merged else merged[..BATCH_LIMIT], hasMore)
  }

  function Poll<B, M, K(==)>(p: Poller<M, K>, q: Queues<B, M>, r: Request<B>): (Reply<M>, Queues<B, M>) {
    var rc, dc := RelayPart(p, q, r), DirectPart(p, q, r);
    (Answer(p, rc.out, dc.out, rc.hasMore || dc.hasMore), Queues(rc.boxes, dc.boxes))
  }

  class Service<B(==), M, K(==)> {
    const relay: Store<B, M>
    const direct: Store<B, M>
    const p: Poller<M, K>

    constructor (p: Poller<M, K>, relay: Store<B, M>, direct: Store<B, M>)
      ensures this.p == p && this.relay == relay && this.direct == direct
    {
      this.p, this.relay, this.direct := p, relay, direct;
    }

    ghost function Contents(): Queues<B, M>
      reads relay, direct
    {
      Queues(relay.boxes, direct.boxes)
    }

    /** The body of `_dm_poll_secure_from_signed_request` after the claims are verified. */
    method PollOnce(r: Request<B>) returns (reply: Reply<M>)
      requires relay != direct && ValidRequest(r)
      modifies relay, direct
      ensures (reply, Contents()) == Poll(p, old(Contents()), r)
    {
      var relayMsgs, relayMore := relay.CollectFromKeys(r.relayKeys, BATCH_LIMIT, p.RelayKind());
      var directMsgs: seq<M>, directMore := [], false;
      var directBudget := BATCH_LIMIT - |relayMsgs|;
      if directBudget > 0 && !r.anonymous {
        if r.directUp {
          directMsgs, directMore := direct.CollectFromKeys(r.directKeys, directBudget, p.DirectKind());
        }
      } else if directBudget <= 0 {
        directMore := !r.anonymous;
      }
      var hasMore := relayMore || directMore;
      var merged := p.combine(relayMsgs, directMsgs);
      if merged.None? {
        return Raised;
      }
      var msgs := if |merged.value| <= BATCH_LIMIT then merged.value else merged.value[..BATCH_LIMIT];
      reply := Reply(msgs, hasMore);
    }
  }

  // ---- one poll ----

  lemma CollectedReadable<B(!new), M(!new), K(!new)>(
        p: Poller<M, K>, boxes: map<B, seq<M>>, keys: seq<B>, limit: int, kind: Kind<M, K>)
    requires Distinct(keys)
    requires forall k, m :: m in BoxOf(boxes, k) ==> p.readable(m)
    ensures AllReadable(p, Collect(boxes, keys, limit, kind).out)
  {
    CollectBounded(boxes, keys, limit, kind);
    var c := Collect(boxes, keys, limit, kind);
    forall i | 0 <= i < |c.out| ensures p.readable(c.out[i]) {
      assert c.out[i] in c.out;
      var k :| k in keys && c.out[i] in BoxOf(boxes, k);
    }
  }

  /** When both collectors honour their limits, the cut to the batch limit drops nothing. */
  lemma PollAnswersWhole<B(!new), M(!new), K(!new)>(p: Poller<M, K>, q: Queues<B, M>, r: Request<B>)
    requires Sound(p) && WellFormed(p, q) && ValidRequest(r)
    ensures var rc, dc := RelayPart(p, q, r), DirectPart(p, q, r);
            && |rc.out| + |dc.out| <= BATCH_LIMIT
            && GoodCombination(p, rc.out, dc.out)
            && Answer(p, rc.out, dc.out, rc.hasMore || dc.hasMore)
              == Reply(p.combine(rc.out, dc.out).value, rc.hasMore || dc.hasMore)
  {
    var rc, dc := RelayPart(p, q, r), DirectPart(p, q, r);
    var budget := BATCH_LIMIT - |rc.out|;
    CollectBounded(q.relay, r.relayKeys, BATCH_LIMIT, p.RelayKind());
    CollectBounded(q.direct, r.directKeys, budget, p.DirectKind());
    CollectedReadable(p, q.relay, r.relayKeys, BATCH_LIMIT, p.RelayKind());
    CollectedReadable(p, q.direct, r.directKeys, budget, p.DirectKind());
  }

  lemma HandedOutIsAnswered<M(!new), K(!new)>(p: Poller<M, K>, relay: seq<M>, direct: seq<M>, lane: seq<M>, m: M)
    requires Sound(p) && GoodCombination(p, relay, direct)
    requires lane == relay || lane == direct
    requires HasId(lane, p.id, p.id(m))
    ensures Answered(p, p.combine(relay, direct).value, m)
  {
    var i := IdWhere(lane, p.id, p.id(m), |lane|);
    assert Answered(p, p.combine(relay, direct).value, lane[i]);
  }

  /** A poll of well-formed queues answers, returns at most the batch limit, and loses nothing:
      every message that was waiting still is, or the answer holds a message with its tag. */
  lemma PollConserves<B(!new), M(!new), K(!new)>(p: Poller<M, K>, q: Queues<B, M>, r: Request<B>, k: B, m: M)
    requires Sound(p) && WellFormed(p, q) && ValidRequest(r)
    ensures var (reply, after) := Poll(p, q, r);
            && reply.Reply? && |reply.messages| <= BATCH_LIMIT
            && (m in BoxOf(q.relay, k) ==> m in BoxOf(after.relay, k) || Answered(p, reply.messages, m))
            && (m in BoxOf(q.direct, k) ==> m in BoxOf(after.direct, k) || Answered(p, reply.messages, m))
  {
    var rc, dc := RelayPart(p, q, r), DirectPart(p, q, r);
    PollAnswersWhole(p, q, r);
    if m in BoxOf(q.relay, k) {
      CollectConserves(q.relay, r.relayKeys, BATCH_LIMIT, p.RelayKind(), k, m);
      if m !in BoxOf(rc.boxes, k) { HandedOutIsAnswered(p, rc.out, dc.out, rc.out, m); }
    }
    if m in BoxOf(q.direct, k) {
      CollectConserves(q.direct, r.directKeys, BATCH_LIMIT - |rc.out|, p.DirectKind(), k, m);
      if m !in BoxOf(dc.boxes, k) { HandedOutIsAnswered(p, rc.out, dc.out, dc.out, m); }
    }
  }

  lemma PollOnlyRemoves<B(!new), M(!new), K(!new)>(p: Poller<M, K>, q: Queues<B, M>, r: Request<B>, k: B, m: M)
    requires ValidRequest(r)
    ensures m in BoxOf(Poll(p, q, r).1.relay, k) ==> m in BoxOf(q.relay, k)
    ensures m in BoxOf(Poll(p, q, r).1.direct, k) ==> m in BoxOf(q.direct, k)
  {
    var rc, dc := RelayPart(p, q, r), DirectPart(p, q, r);
    var budget := BATCH_LIMIT - |rc.out|;
    if m in BoxOf(rc.boxes, k) { CollectOnlyRemoves(q.relay, r.relayKeys, BATCH_LIMIT, p.RelayKind(), k, m); }
    if m in BoxOf(dc.boxes, k) && budget > 0 && !r.anonymous && r.directUp {
      CollectOnlyRemoves(q.direct, r.directKeys, budget, p.DirectKind(), k, m);
    }
  }

  lemma PollKeepsWellFormed<B(!new), M(!new), K(!new)>(p: Poller<M, K>, q: Queues<B, M>, r: Request<B>)
    requires WellFormed(p, q) && ValidRequest(r)
    ensures WellFormed(p, Poll(p, q, r).1)
  {
    var after := Poll(p, q, r).1;
    forall k, m | m in BoxOf(after.relay, k) ensures p.readable(m) { PollOnlyRemoves(p, q, r, k, m); }
    forall k, m | m in BoxOf(after.direct, k) ensures p.readable(m) && !p.idless(m) { PollOnlyRemoves(p, q, r, k, m); }
  }

  // ---- whole runs ----

  datatype Step<B, M> = DepositRelay(key: B, message: M) | StoreDirect(key: B, message: M) | Ask(request: Request<B>)

  function Deliver<B, M>(boxes: map<B, seq<M>>, key: B, m: M): map<B, seq<M>> {
    boxes[key := BoxOf(boxes, key) + [m]]
  }

  /** The direct lane refuses a message without id and a second one with an id already in the box. */
  function Apply<B, M, K(==)>(p: Poller<M, K>, q: Queues<B, M>, s: Step<B, M>): (Queues<B, M>, seq<M>) {
    match s
    case DepositRelay(key, m) => (q.(relay := Deliver(q.relay, key, m)), [])
    case StoreDirect(key, m) =>
      if p.idless(m) || HasId(BoxOf(q.direct, key), p.id, p.id(m)) then (q, [])
      else (q.(direct := Deliver(q.direct, key, m)), [])
    case Ask(r) =>
      var (reply, after) := Poll(p, q, r);
      (after, if reply.Raised? then [] else reply.messages)
  }

  ghost predicate ValidStep<B, M, K>(p: Poller<M, K>, s: Step<B, M>) {
    match s
    case DepositRelay(_, m) => p.readable(m)
    case StoreDirect(_, m) => p.readable(m)
    case Ask(r) => ValidRequest(r)
  }

  lemma DeliverKeeps<B(!new), M(!new)>(boxes: map<B, seq<M>>, key: B, x: M)
    ensures forall k, m :: m in BoxOf(Deliver(boxes, key, x), k) <==> m in BoxOf(boxes, k) || (k == key && m == x)
  {
  }

  lemma ApplyKeepsWellFormed<B(!new), M(!new), K(!new)>(p: Poller<M, K>, q: Queues<B, M>, s: Step<B, M>)
    requires WellFormed(p, q) && ValidStep(p, s)
    ensures WellFormed(p, Apply(p, q, s).0)
  {
    match s
    case DepositRelay(key, m) => DeliverKeeps(q.relay, key, m);
    case StoreDirect(key, m) => DeliverKeeps(q.direct, key, m);
    case Ask(r) => PollKeepsWellFormed(p, q, r);
  }

  lemma ApplyConserves<B(!new), M(!new), K(!new)>(p: Poller<M, K>, q: Queues<B, M>, s: Step<B, M>, k: B, m: M)
    requires Sound(p) && WellFormed(p, q) && ValidStep(p, s)
    ensures var (after, out) := Apply(p, q, s);
            && (m in BoxOf(q.relay, k) ==> m in BoxOf(after.relay, k) || Answered(p, out, m))
            && (m in BoxOf(q.direct, k) ==> m in BoxOf(after.direct, k) || Answered(p, out, m))
  {
    match s
    case DepositRelay(key, x) => DeliverKeeps(q.relay, key, x);
    case StoreDirect(key, x) => DeliverKeeps(q.direct, key, x);
    case Ask(r) => PollConserves(p, q, r, k, m);
  }

  lemma AnsweredGrows<M, K>(p: Poller<M, K>, a: seq<M>, b: seq<M>, m: M)
    ensures Answered(p, a, m) || Answered(p, b, m) ==> Answered(p, a + b, m)
  {
    if i :| 0 <= i < |a| && p.tag(a[i]) == p.tag(m) { assert (a + b)[i] == a[i]; }
    if i :| 0 <= i < |b| && p.tag(b[i]) == p.tag(m) { assert (a + b)[|a| + i] == b[i]; }
  }

  /** Over any run of deliveries and polls, a message waiting after the first `i` steps is still
      waiting after `n` steps, or was answered by one of the steps between. */
  lemma NoMessageLost<B(!new), M(!new), K(!new)>(
        p: Poller<M, K>, q: Queues<B, M>, steps: seq<Step<B, M>>, i: nat, n: nat, k: B, m: M)
    requires Sound(p) && WellFormed(p, q)
    requires i <= n <= |steps| && forall j :: 0 <= j < |steps| ==> ValidStep(p, steps[j])
    ensures var step := (s: Queues<B, M>, a: Step<B, M>) => Apply(p, s, a);
            var earlier, now, out := StateAfter(step, q, steps, i), StateAfter(step, q, steps, n),
              OutputOf(step, q, steps, i, n);
            && (m in BoxOf(earlier.relay, k) ==> m in BoxOf(now.relay, k) || Answered(p, out, m))
            && (m in BoxOf(earlier.direct, k) ==> m in BoxOf(now.direct, k) || Answered(p, out, m))
  {
    var step := (s: Queues<B, M>, a: Step<B, M>) => Apply(p, s, a);
    var good, valid := (s: Queues<B, M>) => WellFormed(p, s), (a: Step<B, M>) => ValidStep(p, a);
    var inRelay, inDirect := (s: Queues<B, M>) => m in BoxOf(s.relay, k), (s: Queues<B, M>) => m in BoxOf(s.direct, k);
    var seen := (out: seq<M>) => Answered(p, out, m);
    forall s, a | good(s) && valid(a)
      ensures good(step(s, a).0)
      ensures inRelay(s) ==> inRelay(step(s, a).0) || seen(step(s, a).1)
      ensures inDirect(s) ==> inDirect(step(s, a).0) || seen(step(s, a).1)
    {
      ApplyKeepsWellFormed(p, s, a);
      ApplyConserves(p, s, a, k, m);
    }
    forall a, b ensures seen(a) || seen(b) ==> seen(a + b) { AnsweredGrows(p, a, b, m); }
    RunConserves(step, good, valid, inRelay, seen, q, steps, i, n);
    RunConserves(step, good, valid, inDirect, seen, q, steps, i, n);
  }

  // ---- draining ----

  /** How many ids wait in the requested boxes. */
  function Backlog<B, M, K(==)>(p: Poller<M, K>, q: Queues<B, M>, r: Request<B>): nat {
    |QueuedIds(q.relay, r.relayKeys, p.RelayKind())| + |QueuedIds(q.direct, r.directKeys, p.DirectKind())|
  }

  lemma SmallerSet<T>(a: set<T>, b: set<T>)
    ensures a <= b ==> |a| <= |b|
    ensures a < b ==> |a| < |b|
  {
    if a <= b { assert b == a + (b - a); assert |b| == |a| + |b - a|; }
    if a < b { assert b - a != {}; }
  }

  ghost predicate Emptied<B(!new), M>(boxes: map<B, seq<M>>, keys: seq<B>) {
    forall k :: k in keys ==> BoxOf(boxes, k) == []
  }

  /** One lane: handing out anything shrinks its backlog, and no lane's backlog grows. */
  lemma LaneProgress<B(!new), M(!new), K(!new)>(boxes: map<B, seq<M>>, keys: seq<B>, limit: int, kind: Kind<M, K>)
    requires Distinct(keys) && limit > 0
    ensures var c := Collect(boxes, keys, limit, kind);
            && |QueuedIds(c.boxes, keys, kind)| <= |QueuedIds(boxes, keys, kind)|
            && (c.out != [] || c.hasMore ==> |QueuedIds(c.boxes, keys, kind)| < |QueuedIds(boxes, keys, kind)|)
            && (!c.hasMore ==> Emptied(c.boxes, keys))
  {
    CollectProgress(boxes, keys, limit, kind);
    CollectBounded(boxes, keys, limit, kind);
    SmallerSet(QueuedIds(Collect(boxes, keys, limit, kind).boxes, keys, kind), QueuedIds(boxes, keys, kind));
  }

  /** The direct lane: what waits there never grows, it reports more only when it or the relay handed something out,
      and without more it is empty or was not asked. */
  lemma DirectProgress<B(!new), M(!new), K(!new)>(p: Poller<M, K>, q: Queues<B, M>, r: Request<B>)
    requires ValidRequest(r)
    ensures var rc, dc := RelayPart(p, q, r), DirectPart(p, q, r);
            var before, after := QueuedIds(q.direct, r.directKeys, p.DirectKind()),
                                 QueuedIds(dc.boxes, r.directKeys, p.DirectKind());
            && |after| <= |before|
            && (dc.hasMore ==> |after| < |before| || rc.out != [])
            && (!r.ReachesDirect() ==> dc.boxes == q.direct)
            && (!dc.hasMore && r.ReachesDirect() ==> Emptied(dc.boxes, r.directKeys))
  {
    var budget := BATCH_LIMIT - |RelayPart(p, q, r).out|;
    if budget > 0 { LaneProgress(q.direct, r.directKeys, budget, p.DirectKind()); }
  }

  /** A poll that reports more shrinks the backlog. One that does not leaves the relay boxes empty, and the direct
      boxes too if the request reaches that lane; otherwise they are as they were, so "no more" is reported over
      waiting messages exactly when the lane was not asked and something waits there. */
  lemma PollProgress<B(!new), M(!new), K(!new)>(p: Poller<M, K>, q: Queues<B, M>, r: Request<B>)
    requires ValidRequest(r)
    ensures var rc, dc := RelayPart(p, q, r), DirectPart(p, q, r);
            && (rc.hasMore || dc.hasMore ==> Backlog(p, Queues(rc.boxes, dc.boxes), r) < Backlog(p, q, r))
            && (!rc.hasMore && !dc.hasMore ==>
                  && Emptied(rc.boxes, r.relayKeys)
                  && (Emptied(dc.boxes, r.directKeys) <==> r.ReachesDirect() || Emptied(q.direct, r.directKeys)))
            && (!r.ReachesDirect() ==> dc.boxes == q.direct)
  {
    LaneProgress(q.relay, r.relayKeys, BATCH_LIMIT, p.RelayKind());
    DirectProgress(p, q, r);
  }

  /** A poll as seen by a client that asks again while there is more. */
  function Asking<B, M, K(==)>(p: Poller<M, K>, r: Request<B>): AskFn<Queues<B, M>, M> {
    (q: Queues<B, M>) =>
      var (reply, after) := Poll(p, q, r);
      if reply.Raised? then ([], after, false) else (reply.messages, after, reply.hasMore)
  }

  /** `m` waits in one of the boxes that the request reaches. */
  ghost predicate Waits<B, M>(r: Request<B>, q: Queues<B, M>, k: B, m: M) {
    || (k in r.relayKeys && m in BoxOf(q.relay, k))
    || (r.ReachesDirect() && k in r.directKeys && m in BoxOf(q.direct, k))
  }

  lemma AskingStep<B(!new), M(!new), K(!new)>(p: Poller<M, K>, q: Queues<B, M>, r: Request<B>, k: B, m: M)
    requires Sound(p) && WellFormed(p, q) && ValidRequest(r)
    ensures var (out, after, more) := Asking(p, r)(q);
            && WellFormed(p, after)
            && (Waits(r, q, k, m) ==> Waits(r, after, k, m) || Answered(p, out, m))
            && (if more then Backlog(p, after, r) < Backlog(p, q, r) else !Waits(r, after, k, m))
  {
    PollAnswersWhole(p, q, r);
    PollProgress(p, q, r);
    PollKeepsWellFormed(p, q, r);
    PollConserves(p, q, r, k, m);
  }

  /** Asking once more than there are ids waiting empties every box the request reaches, the relay boxes in every
      case, and answers every message that was in one. */
  lemma PollingDrains<B(!new), M(!new), K(!new)>(p: Poller<M, K>, q: Queues<B, M>, r: Request<B>, n: nat, k: B, m: M)
    requires Sound(p) && WellFormed(p, q) && ValidRequest(r)
    requires n > Backlog(p, q, r)
    ensures !Waits(r, StateAtStop(Asking(p, r), q, n), k, m)
    ensures Waits(r, q, k, m) ==> Answered(p, OutputAtStop(Asking(p, r), q, n), m)
  {
    var ask := Asking(p, r);
    var good, size := (s: Queues<B, M>) => WellFormed(p, s), (s: Queues<B, M>) => Backlog(p, s, r);
    var pending, seen := (s: Queues<B, M>) => Waits(r, s, k, m), (out: seq<M>) => Answered(p, out, m);
    forall s | good(s)
      ensures good(ask(s).1)
      ensures pending(s) ==> pending(ask(s).1) || seen(ask(s).0)
      ensures if ask(s).2 then size(ask(s).1) < size(s) else !pending(ask(s).1)
    {
      AskingStep(p, s, r, k, m);
    }
    forall a, b ensures seen(a) || seen(b) ==> seen(a + b) { AnsweredGrows(p, a, b, m); }
    AskingDrains(ask, good, size, pending, seen, q, n);
  }

  /** A client that the direct lane does not answer leaves it as it was, however often it asks. */
  lemma {:induction false} DirectLaneWaits<B(!new), M(!new), K(!new)>(p: Poller<M, K>, q: Queues<B, M>, r: Request<B>,
                                                                      n: nat)
    requires ValidRequest(r) && !r.ReachesDirect()
    ensures StateAtStop(Asking(p, r), q, n).direct == q.direct
    decreases n
  {
    var ask := Asking(p, r);
    assert ask(q).1.direct == q.direct;
    if n > 0 && ask(q).2 { DirectLaneWaits(p, ask(q).1, r, n - 1); }
  }

  // ---- the legacy endpoint ----

  /** Collects for token `i`, at most `limit` messages. */
  type Taker<!B, !M> = (map<B, seq<M>>, nat, int) -> Collected<B, M>

  /** What was collected, what the boxes hold, and whether more was reported, after the first tokens. */
  datatype Legacy<B, M> = Legacy(msgs: seq<M>, boxes: map<B, seq<M>>, hasMore: bool)

  function LegacyStep<B, M>(take: Taker<B, M>, s: Legacy<B, M>, i: nat): Legacy<B, M> {
    if |s.msgs| >= BATCH_LIMIT then s
    else
      var c := take(s.boxes, i, BATCH_LIMIT - |s.msgs|);
      Legacy(s.msgs + c.out, c.boxes, s.hasMore || c.hasMore || |s.msgs + c.out| >= BATCH_LIMIT)
  }

  function LegacyRun<B, M>(take: Taker<B, M>, boxes: map<B, seq<M>>, n: nat): Legacy<B, M> {
    if n == 0 then Legacy([], boxes, false) else LegacyStep(take, LegacyRun(take, boxes, n - 1), n - 1)
  }

  function TokenTaker<B, M, K(==)>(tokens: seq<seq<B>>, kind: Kind<M, K>): Taker<B, M> {
    (boxes: map<B, seq<M>>, i: nat, limit: int) => if i < |tokens| then Collect(boxes, tokens[i], limit, kind)
      else Collected([], boxes, false)
  }

  /** The token loop of the GET endpoint. Each token names up to two relay boxes. */
  method LegacyPoll<B(==), M, K(==)>(relay: Store<B, M>, tokens: seq<seq<B>>, kind: Kind<M, K>)
    returns (msgs: seq<M>, hasMore: bool)
    requires forall i :: 0 <= i < |tokens| ==> Distinct(tokens[i])
    modifies relay
    ensures |msgs| <= BATCH_LIMIT
    ensures Legacy(msgs, relay.boxes, hasMore)
            == LegacyRun(TokenTaker(tokens, kind), old(relay.boxes), if |tokens| < 32 then |tokens| else 32)
  {
    msgs, hasMore := LegacyLoop(relay, tokens, kind, TokenTaker(tokens, kind));
  }

  /** The loop stops at a full batch or after 32 tokens. */
  method LegacyLoop<B(==), M, K(==)>(relay: Store<B, M>, tokens: seq<seq<B>>, kind: Kind<M, K>, ghost take: Taker<B, M>)
    returns (msgs: seq<M>, hasMore: bool)
    requires take == TokenTaker(tokens, kind) && forall i :: 0 <= i < |tokens| ==> Distinct(tokens[i])
    modifies relay
    ensures |msgs| <= BATCH_LIMIT
    ensures Legacy(msgs, relay.boxes, hasMore)
            == LegacyRun(take, old(relay.boxes), if |tokens| < 32 then |tokens| else 32)
  {
    msgs, hasMore := [], false;
    var n := if |tokens| < 32 then |tokens| else 32;
    ghost var start := relay.boxes;
    var i := 0;
    while i < n && |msgs| < BATCH_LIMIT
      invariant 0 <= i <= n && |msgs| <= BATCH_LIMIT
      invariant Legacy(msgs, relay.boxes, hasMore) == LegacyRun(take, start, i)
    {
      LegacyAdvance(take, start, Legacy(msgs, relay.boxes, hasMore), i);
      msgs, hasMore := LegacyTurn(relay, msgs, hasMore, tokens, i, kind, take);
      i := i + 1;
    }
    if |msgs| == BATCH_LIMIT { LegacyStops(take, start, i, n); }
  }

  /** The body of the loop. */
  method LegacyTurn<B(==), M, K(==)>(relay: Store<B, M>, msgs0: seq<M>, hadMore: bool, tokens: seq<seq<B>>, i: nat,
                                     kind: Kind<M, K>, ghost take: Taker<B, M>)
    returns (msgs: seq<M>, hasMore: bool)
    requires i < |tokens| && Distinct(tokens[i]) && |msgs0| < BATCH_LIMIT
    requires take == TokenTaker(tokens, kind)
    modifies relay
    ensures Legacy(msgs, relay.boxes, hasMore) == LegacyStep(take, Legacy(msgs0, old(relay.boxes), hadMore), i)
    ensures |msgs| <= BATCH_LIMIT
  {
    var more;
    msgs, more := LegacyToken(relay, msgs0, tokens, i, kind, take, hadMore);
    hasMore := hadMore;
    if more {
      hasMore := true;
    }
    if |msgs| >= BATCH_LIMIT {
      hasMore := true;
      WholeIsSlice(msgs);
      msgs := msgs[..BATCH_LIMIT];
    }
  }

  lemma WholeIsSlice<M>(s: seq<M>)
    requires |s| == BATCH_LIMIT
    ensures s[..BATCH_LIMIT] == s
  {
  }

  lemma LegacyAdvance<B, M>(take: Taker<B, M>, start: map<B, seq<M>>, state: Legacy<B, M>, i: nat)
    requires state == LegacyRun(take, start, i)
    ensures LegacyRun(take, start, i + 1) == LegacyStep(take, state, i)
  {
  }

  /** One token: collect what the batch has room for. */
  method LegacyToken<B(==), M, K(==)>(relay: Store<B, M>, msgs0: seq<M>, tokens: seq<seq<B>>, i: nat, kind: Kind<M, K>,
                                      ghost take: Taker<B, M>, ghost hadMore: bool)
    returns (msgs: seq<M>, more: bool)
    requires i < |tokens| && Distinct(tokens[i]) && |msgs0| < BATCH_LIMIT
    requires take == TokenTaker(tokens, kind)
    modifies relay
    ensures Legacy(msgs, relay.boxes, hadMore || more || |msgs| >= BATCH_LIMIT)
            == LegacyStep(take, Legacy(msgs0, old(relay.boxes), hadMore), i)
    ensures |msgs| <= BATCH_LIMIT
  {
    CollectBounded(relay.boxes, tokens[i], BATCH_LIMIT - |msgs0|, kind);
    var batch;
    batch, more := relay.CollectFromKeys(tokens[i], BATCH_LIMIT - |msgs0|, kind);
    msgs := msgs0 + batch;
  }

  lemma {:induction false} LegacyStops<B, M>(take: Taker<B, M>, boxes: map<B, seq<M>>, i: nat, n: nat)
    requires i <= n && |LegacyRun(take, boxes, i).msgs| >= BATCH_LIMIT
    ensures LegacyRun(take, boxes, n) == LegacyRun(take, boxes, i)
  {
    if i < n { LegacyStops(take, boxes, i, n - 1); }
  }

  ghost predicate TakerConserves<B(!new), M(!new), K(!new)>(take: Taker<B, M>, kind: Kind<M, K>) {
    forall boxes, i, limit, k, m :: m in BoxOf(boxes, k) && !kind.ignored(m) ==>
      m in BoxOf(take(boxes, i, limit).boxes, k) || HasId(take(boxes, i, limit).out, kind.id, kind.id(m))
  }

  lemma {:induction false} TakingConserves<B(!new), M(!new), K(!new)>(
        take: Taker<B, M>, kind: Kind<M, K>, boxes: map<B, seq<M>>, n: nat, k: B, m: M)
    requires TakerConserves(take, kind)
    requires m in BoxOf(boxes, k) && !kind.ignored(m)
    ensures m in BoxOf(LegacyRun(take, boxes, n).boxes, k) || HasId(LegacyRun(take, boxes, n).msgs, kind.id, kind.id(m))
  {
    if n > 0 {
      TakingConserves(take, kind, boxes, n - 1, k, m);
      var s := LegacyRun(take, boxes, n - 1);
      IdsConcat(s.msgs, take(s.boxes, n - 1, BATCH_LIMIT - |s.msgs|).out, kind.id);
    }
  }

  /** The legacy loop returns all it removed: what was waiting still is, or a message with its id
      was returned. */
  lemma LegacyConserves<B(!new), M(!new), K(!new)>(
        kind: Kind<M, K>, boxes: map<B, seq<M>>, tokens: seq<seq<B>>, n: nat, k: B, m: M)
    requires forall i :: 0 <= i < |tokens| ==> Distinct(tokens[i])
    requires m in BoxOf(boxes, k) && !kind.ignored(m)
    ensures var s := LegacyRun(TokenTaker(tokens, kind), boxes, n);
            m in BoxOf(s.boxes, k) || HasId(s.msgs, kind.id, kind.id(m))
  {
    var take := TokenTaker(tokens, kind);
    forall bs: map<B, seq<M>>, i: nat, limit, j, x | x in BoxOf(bs, j) && !kind.ignored(x)
      ensures x in BoxOf(take(bs, i, limit).boxes, j) || HasId(take(bs, i, limit).out, kind.id, kind.id(x))
    {
      if i < |tokens| { CollectConserves(bs, tokens[i], limit, kind, j, x); }
    }
    TakingConserves(take, kind, boxes, n, k, m);
  }

  /** A taker leaves empty boxes empty, and empties the boxes of its token when it reports no more. */
  ghost predicate TakerEmpties<B(!new), M(!new)>(take: Taker<B, M>, tokens: seq<seq<B>>) {
    && (forall boxes, i: nat, limit, k :: BoxOf(boxes, k) == [] ==> BoxOf(take(boxes, i, limit).boxes, k) == [])
    && (forall boxes, i: nat, limit, k :: i < |tokens| && k in tokens[i] && !take(boxes, i, limit).hasMore ==>
          BoxOf(take(boxes, i, limit).boxes, k) == [])
  }

  lemma {:induction false} TakingEmpties<B(!new), M(!new)>(
      take: Taker<B, M>, boxes: map<B, seq<M>>, tokens: seq<seq<B>>, n: nat, i: nat, k: B)
    requires TakerEmpties(take, tokens)
    requires i < n <= |tokens| && k in tokens[i] && !LegacyRun(take, boxes, n).hasMore
    ensures BoxOf(LegacyRun(take, boxes, n).boxes, k) == []
  {
    LegacyFullHasMore(take, boxes, n - 1);
    if i < n - 1 { TakingEmpties(take, boxes, tokens, n - 1, i, k); }
  }

  lemma TokenTakerEmpties<B(!new), M(!new), K(!new)>(tokens: seq<seq<B>>, kind: Kind<M, K>)
    requires forall i :: 0 <= i < |tokens| ==> Distinct(tokens[i])
    ensures TakerEmpties(TokenTaker<B, M, K>(tokens, kind), tokens)
  {
    var take := TokenTaker<B, M, K>(tokens, kind);
    forall boxes, i: nat, limit, k
      ensures BoxOf(boxes, k) == [] ==> BoxOf(take(boxes, i, limit).boxes, k) == []
      ensures i < |tokens| && k in tokens[i] && !take(boxes, i, limit).hasMore ==>
              BoxOf(take(boxes, i, limit).boxes, k) == []
    {
      if i < |tokens| {
        CollectProgress(boxes, tokens[i], limit, kind);
        if BoxOf(boxes, k) == [] { EmptyStaysEmpty(boxes, tokens[i], limit, kind, k); }
      }
    }
  }

  /** When the legacy loop reports no more, every box of every token it was given is empty. */
  lemma LegacyNoMoreMeansEmpty<B(!new), M(!new), K(!new)>(
      kind: Kind<M, K>, boxes: map<B, seq<M>>, tokens: seq<seq<B>>, n: nat, i: nat, k: B)
    requires forall i :: 0 <= i < |tokens| ==> Distinct(tokens[i])
    requires i < n <= |tokens| && k in tokens[i]
    requires !LegacyRun(TokenTaker(tokens, kind), boxes, n).hasMore
    ensures BoxOf(LegacyRun(TokenTaker(tokens, kind), boxes, n).boxes, k) == []
  {
    TokenTakerEmpties<B, M, K>(tokens, kind);
    TakingEmpties(TokenTaker(tokens, kind), boxes, tokens, n, i, k);
  }

  lemma {:induction false} LegacyFullHasMore<B, M>(take: Taker<B, M>, boxes: map<B, seq<M>>, n: nat)
    ensures |LegacyRun(take, boxes, n).msgs| >= BATCH_LIMIT ==> LegacyRun(take, boxes, n).hasMore
  {
    if n > 0 { LegacyFullHasMore(take, boxes, n - 1); }
  }
}
