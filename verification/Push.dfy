/** Cursor-based push of new chain events to peers: `_http_peer_push_loop` of backend/main.py, and
    the receiving end `infonet_peer_push`. */
module Push {
  import opened InfonetChain
  import F = InfonetForks

  const BATCH := 50

  /** Peers are numbered. */
  type Url = nat

  /** What became of one request: answered 200; answered something else, so not ingested; no answer,
      though the peer had ingested it; never delivered (or no key to sign it with). */
  datatype Answer = Acked | Refused | ReplyLost | Undelivered

  datatype Action =
    | Grow(more: seq<Event>)                         // the sender's chain is extended
    // `total` was read at the start of the cycle; `checks` are the receiver's when the batch arrives
    | Send(url: Url, total: nat, answer: Answer, checks: Checks)
    | CatchUp(url: Url, height: nat)                 // the receiver extends its copy by other means
    | Restart                                        // the cursors live in memory only

  /** The sender: its chain and `_peer_push_last_index`. */
  datatype Sender = Sender(chain: seq<Event>, cursors: map<Url, nat>) {
    function Cursor(url: Url): nat { if url in cursors then cursors[url] else 0 }

    /** The batch sent to `url` in a cycle that saw `total` events. */
    function Batch(url: Url, total: nat): seq<Event> {
      if Cursor(url) >= total || Cursor(url) >= |chain| then []
      else chain[Cursor(url)..Min(Cursor(url) + BATCH, |chain|)]
    }

    function Next(a: Action): Sender {
      match a
      case Grow(more) => this.(chain := chain + more)
      case Send(url, total, answer, _) =>
        if Batch(url, total) != [] && answer.Acked?
        then this.(cursors := cursors[url := Cursor(url) + |Batch(url, total)|])
        else this
      case CatchUp(_, _) => this
      case Restart => this.(cursors := map[])
    }
  }

  /** `infonet_peer_push` on a receiver holding `held`. */
  function Receive(held: seq<Event>, batch: seq<Event>, checks: Checks): Tally {
    if |batch| > 50 then Tally(held, 0, 0, |batch|) else Ingest(held, batch, checks, |batch|)
  }

  /** The sender with what every receiver holds. */
  datatype Net = Net(sender: Sender, held: map<Url, seq<Event>>) {
    function Held(url: Url): seq<Event> { if url in held then held[url] else [] }
  }

  function Step(net: Net, a: Action): Net {
    var held :=
      match a
      case Send(url, total, answer, checks) =>
        if answer.Acked? || answer.ReplyLost?
        then net.held[url := Receive(net.Held(url), net.sender.Batch(url, total), checks).chain]
        else net.held
      case CatchUp(url, height) =>
        if |net.Held(url)| <= height <= |net.sender.chain| then net.held[url := net.sender.chain[..height]]
        else net.held
      case _ => net.held;
    Net(net.sender.Next(a), held)
  }

  function After(net: Net, run: seq<Action>, n: nat): Net
    requires n <= |run|
  {
    if n == 0 then net else Step(After(net, run, n - 1), run[n - 1])
  }

  function SenderAfter(s: Sender, run: seq<Action>, n: nat): Sender
    requires n <= |run|
  {
    if n == 0 then s else SenderAfter(s, run, n - 1).Next(run[n - 1])
  }

  /** The sender does not depend on what the receivers hold. */
  lemma {:induction false} SenderIsIndependent(net: Net, run: seq<Action>, n: nat)
    requires n <= |run|
    ensures After(net, run, n).sender == SenderAfter(net.sender, run, n)
  {
    if n > 0 { SenderIsIndependent(net, run, n - 1); }
  }

  /** The events of the batches that `url` answered with 200, in order, since the last restart. */
  function Stream(s: Sender, run: seq<Action>, url: Url, n: nat): seq<Event>
    requires n <= |run|
  {
    if n == 0 then []
    else
      var before := Stream(s, run, url, n - 1);
      match run[n - 1]
      case Send(u, total, Acked, _) => if u == url then before + SenderAfter(s, run, n - 1).Batch(url, total)
        else before
      case Restart => []
      case _ => before
  }

  // ---- gap-free and duplicate-free, per peer ----

  /** What `url` acknowledged, joined, is the chain up to its cursor. */
  ghost predicate Delivered(s: Sender, stream: seq<Event>, url: Url) {
    s.Cursor(url) <= |s.chain| && stream == s.chain[..s.Cursor(url)]
  }

  /** Whatever the peers answer, the stream a peer acknowledged since the last restart is the chain up to its
      cursor. */
  lemma {:induction false} StreamIsChainPrefix(s: Sender, run: seq<Action>, url: Url, n: nat)
    requires n <= |run| && s.cursors == map[]
    ensures Delivered(SenderAfter(s, run, n), Stream(s, run, url, n), url)
  {
    if n > 0 {
      StreamIsChainPrefix(s, run, url, n - 1);
      var t, a := SenderAfter(s, run, n - 1), run[n - 1];
      if a.Grow? { assert (t.chain + a.more)[..t.Cursor(url)] == t.chain[..t.Cursor(url)]; }
      if a.Send? && a.url == url && a.answer.Acked? { BatchContinues(t, url, a.total); }
    }
  }

  /** The same in the network, whatever the receivers make of what they get. */
  lemma StreamInNet(net: Net, run: seq<Action>, url: Url, n: nat)
    requires n <= |run| && net.sender.cursors == map[]
    ensures Delivered(After(net, run, n).sender, Stream(net.sender, run, url, n), url)
  {
    SenderIsIndependent(net, run, n);
    StreamIsChainPrefix(net.sender, run, url, n);
  }

  lemma BatchContinues(s: Sender, url: Url, total: nat)
    requires s.Cursor(url) <= |s.chain|
    ensures var batch := s.Batch(url, total);
            && s.Cursor(url) + |batch| <= |s.chain|
            && s.chain[..s.Cursor(url)] + batch == s.chain[..s.Cursor(url) + |batch|]
            && |batch| <= 50
  {
  }

  /** No step but a restart moves a cursor back, and sending to one peer leaves the others alone. */
  lemma CursorsOnlyAdvance(net: Net, a: Action, url: Url)
    ensures !a.Restart? ==> net.sender.Cursor(url) <= Step(net, a).sender.Cursor(url)
    ensures a.Send? && a.url != url ==>
              && Step(net, a).sender.Cursor(url) == net.sender.Cursor(url)
              && Step(net, a).Held(url) == net.Held(url)
    ensures Step(net, a).sender.Cursor(url) > net.sender.Cursor(url) ==>
            a.Send? && a.url == url && a.answer.Acked?
  {
  }

  lemma {:induction false} CursorsAreMonotone(net: Net, run: seq<Action>, url: Url, i: nat, n: nat)
    requires i <= n <= |run| && forall k :: i <= k < n ==> !run[k].Restart?
    ensures After(net, run, i).sender.Cursor(url) <= After(net, run, n).sender.Cursor(url)
  {
    if i < n {
      CursorsAreMonotone(net, run, url, i, n - 1);
      CursorsOnlyAdvance(After(net, run, n - 1), run[n - 1], url);
    }
  }

  // ---- what the receivers hold ----

  /** The sender's chain is one an honest node holds, at the start and whenever it grows, and no receiver's replay
      filter raises a false alarm on it. What receivers think of the age of its events is left open. */
  ghost predicate HonestRun(net: Net, run: seq<Action>) {
    && GoodChain(net.sender.chain)
    && forall k: nat :: k < |run| ==> HonestAt(net, run, k)
  }

  ghost predicate HonestAt(net: Net, run: seq<Action>, k: nat)
    requires k < |run|
  {
    HonestStep(After(net, run, k), run[k])
  }

  ghost predicate HonestStep(net: Net, a: Action) {
    && (a.Grow? ==> GoodChain(net.sender.chain + a.more))
    && (a.Send? ==> Admissible(net.sender.chain, a.checks))
  }

  /** The receiver holds the first `h` events of the sender's chain. */
  ghost predicate HoldsFirst(net: Net, url: Url, h: nat) {
    && net.sender.Cursor(url) <= |net.sender.chain|
    && h <= |net.sender.chain| && net.Held(url) == net.sender.chain[..h]
  }

  /** What a receiver of the first `h` events makes of the batch that starts at `cursor` and ends at `end`: from below
      the cursor it rejects everything; otherwise it takes what is new up to the first event it refuses. */
  function Taken(chain: seq<Event>, h: nat, cursor: nat, end: nat, checks: Checks): (t: Tally)
    requires h <= |chain| && cursor <= end <= |chain|
    ensures h <= |t.chain| <= |chain| && t.chain == chain[..|t.chain|]
  {
    if h < cursor then Tally(chain[..h], 0, 0, end - cursor)
    else
      var s := FirstRefused(chain, checks, h);
      var reach := Max(h, Min(s, end));
      Tally(chain[..reach], reach - h, Min(h, end) - cursor, Max(0, end - s))
  }

  lemma BatchIsTaken(chain: seq<Event>, h: nat, cursor: nat, batch: seq<Event>, checks: Checks)
    requires GoodChain(chain) && Admissible(chain, checks) && h <= |chain|
    requires cursor + |batch| <= |chain| && batch == chain[cursor..cursor + |batch|] && |batch| <= 50
    ensures Receive(chain[..h], batch, checks) == Taken(chain, h, cursor, cursor + |batch|, checks)
  {
    if h < cursor {
      PastTheHeadIsRejected(chain, h, cursor, batch, checks);
    } else {
      IngestAtPrefix(chain, h, cursor, batch, checks, |batch|);
    }
  }

  lemma PastTheHeadIsRejected(chain: seq<Event>, h: nat, cursor: nat, batch: seq<Event>, checks: Checks)
    requires GoodChain(chain) && Admissible(chain, checks) && h < cursor && cursor + |batch| <= |chain|
    requires batch == chain[cursor..cursor + |batch|] && |batch| <= 50
    ensures Receive(chain[..h], batch, checks) == Tally(chain[..h], 0, 0, |batch|)
  {
    GoodPrefix(chain, h);
    SameChainSameEvent(chain, h);
    PrefixSharesItself(chain, h);
    IngestOffChain(chain[..h], chain, cursor, batch, checks, |batch|);
  }

  lemma PrefixSharesItself(chain: seq<Event>, h: nat)
    requires h <= |chain|
    ensures Shared(chain[..h], chain) == h
  {
  }

  lemma SameChainSameEvent(chain: seq<Event>, h: nat)
    requires GoodChain(chain) && h <= |chain|
    ensures SameHashSameEvent(chain[..h], chain)
  {
    forall i, j | 0 <= i < h && 0 <= j < |chain| && chain[..h][i].id == chain[j].id ensures chain[..h][i] == chain[j] {
      assert i == j;
    }
  }

  lemma BatchIsSlice(s: Sender, url: Url, total: nat)
    requires s.Cursor(url) <= |s.chain|
    ensures var batch, c := s.Batch(url, total), s.Cursor(url);
            c + |batch| <= |s.chain| && batch == s.chain[c..c + |batch|] && |batch| <= 50
  {
  }

  /** What the receiver makes of a request that reaches it. */
  lemma SendDelivers(net: Net, url: Url, h: nat, total: nat, checks: Checks)
    requires GoodChain(net.sender.chain) && Admissible(net.sender.chain, checks) && HoldsFirst(net, url, h)
    ensures var batch, c := net.sender.Batch(url, total), net.sender.Cursor(url);
            && c + |batch| <= |net.sender.chain|
            && Receive(net.Held(url), batch, checks) == Taken(net.sender.chain, h, c, c + |batch|, checks)
  {
    BatchIsSlice(net.sender, url, total);
    BatchIsTaken(net.sender.chain, h, net.sender.Cursor(url), net.sender.Batch(url, total), checks);
  }

  /** How much of the sender's chain the receiver holds after one more step. */
  function HeightAfter(net: Net, a: Action, url: Url, h: nat): nat
    requires HoldsFirst(net, url, h)
  {
    match a
    case Send(u, total, answer, checks) =>
      var c := net.sender.Cursor(url);
      BatchIsSlice(net.sender, url, total);
      if u == url && (answer.Acked? || answer.ReplyLost?) then
        |Taken(net.sender.chain, h, c, c + |net.sender.Batch(url, total)|, checks).chain|
      else h
    case CatchUp(u, height) => if u == url && h <= height <= |net.sender.chain| then height else h
    case _ => h
  }

  lemma GrowKeepsFirst(net: Net, more: seq<Event>, url: Url, h: nat)
    requires HoldsFirst(net, url, h)
    ensures HoldsFirst(Step(net, Grow(more)), url, h)
  {
    assert (net.sender.chain + more)[..h] == net.sender.chain[..h];
  }

  lemma SendKeepsFirst(net: Net, a: Action, url: Url, h: nat)
    requires GoodChain(net.sender.chain) && HonestStep(net, a) && HoldsFirst(net, url, h) && a.Send?
    ensures HoldsFirst(Step(net, a), url, HeightAfter(net, a, url, h))
  {
    SendMovesCursor(net, a, url);
    SendReaches(net, a, url);
    if a.url == url { SendDelivers(net, url, h, a.total, a.checks); }
  }

  lemma SendReaches(net: Net, a: Action, url: Url)
    requires a.Send?
    ensures Step(net, a).Held(url)
            == if a.url == url && (a.answer.Acked? || a.answer.ReplyLost?)
               then Receive(net.Held(url), net.sender.Batch(url, a.total), a.checks).chain else net.Held(url)
  {
  }

  lemma SendMovesCursor(net: Net, a: Action, url: Url)
    requires net.sender.Cursor(url) <= |net.sender.chain| && a.Send?
    ensures var next, c := Step(net, a).sender, net.sender.Cursor(url);
            && next.chain == net.sender.chain
            && next.Cursor(url)
               == (if a.url == url && a.answer.Acked? then c + |net.sender.Batch(url, a.total)| else c)
            && next.Cursor(url) <= |next.chain|
  {
  }

  /** One step, whatever the receiver refuses: it goes on holding a prefix, of the stated length. */
  lemma StepKeepsFirst(net: Net, a: Action, url: Url, h: nat)
    requires GoodChain(net.sender.chain) && HonestStep(net, a) && HoldsFirst(net, url, h)
    ensures HoldsFirst(Step(net, a), url, HeightAfter(net, a, url, h))
    ensures HeightAfter(net, a, url, h) >= h
  {
    if a.Grow? { GrowKeepsFirst(net, a.more, url, h); }
    if a.Send? { SendKeepsFirst(net, a, url, h); }
  }

  /** The sender's chain is good and the receiver holds a prefix of it. */
  ghost predicate OnChain(net: Net, url: Url) {
    GoodChain(net.sender.chain) && HoldsFirst(net, url, |net.Held(url)|)
  }

  lemma StepKeepsOnChain(net: Net, a: Action, url: Url)
    requires OnChain(net, url) && HonestStep(net, a)
    ensures OnChain(Step(net, a), url) && |net.Held(url)| <= |Step(net, a).Held(url)|
  {
    StepKeepsGood(net, a);
    StepKeepsFirst(net, a, url, |net.Held(url)|);
  }

  lemma StepKeepsGood(net: Net, a: Action)
    requires GoodChain(net.sender.chain) && HonestStep(net, a)
    ensures GoodChain(Step(net, a).sender.chain)
  {
  }

  /** Over every run (growth, lost replies, refusals, restarts of the sender, events a receiver does not take at the
      time, receivers that also sync by themselves) a receiver that starts on a prefix of the sender's chain stays on
      one and never gets shorter. */
  lemma {:induction false} PushIsSafe(net: Net, run: seq<Action>, url: Url, n: nat)
    requires n <= |run| && HonestRun(net, run) && OnChain(net, url)
    ensures Longer(net, After(net, run, n), url)
  {
    if n > 0 {
      PushIsSafe(net, run, url, n - 1);
      LongerNext(net, run, url, n - 1);
    }
  }

  ghost predicate Longer(net: Net, last: Net, url: Url) { OnChain(last, url) && |net.Held(url)| <= |last.Held(url)| }

  lemma LongerNext(net: Net, run: seq<Action>, url: Url, k: nat)
    requires k < |run| && HonestRun(net, run) && Longer(net, After(net, run, k), url)
    ensures Longer(net, After(net, run, k + 1), url)
  {
    assert HonestAt(net, run, k);
    StepKeepsOnChain(After(net, run, k), run[k], url);
  }

  // ---- when push goes on delivering, and when it does not ----

  /** The receiver holds everything the cursor counts as delivered. */
  ghost predicate Covered(net: Net, url: Url) { net.sender.Cursor(url) <= |net.Held(url)| }

  /** The batch ends at or below the first event that the receiver refuses. */
  ghost predicate FullyTaken(net: Net, url: Url, total: nat, checks: Checks) {
    && |net.Held(url)| <= |net.sender.chain|
    && net.sender.Cursor(url) + |net.sender.Batch(url, total)| <= FirstRefused(net.sender.chain, checks,
          |net.Held(url)|)
  }

  /** A batch is taken without a rejection exactly when it is empty, or starts within what the receiver holds and
      everything new in it is taken. */
  lemma NothingRejectedIff(net: Net, url: Url, total: nat, checks: Checks)
    requires OnChain(net, url) && Admissible(net.sender.chain, checks)
    ensures var batch := net.sender.Batch(url, total); var t := Receive(net.Held(url), batch, checks);
            && t.accepted + t.duplicates + t.rejected == |batch|
            && (t.rejected == 0 <==> batch == [] || (Covered(net, url) && FullyTaken(net, url, total, checks)))
  {
    SendDelivers(net, url, |net.Held(url)|, total, checks);
  }

  /** If the step is an acknowledged batch for `url`, it was fully taken. */
  ghost predicate AckedWasTaken(net: Net, a: Action, url: Url) {
    a.Send? && a.url == url && a.answer.Acked? ==> FullyTaken(net, url, a.total, a.checks)
  }

  /** Where the cover is kept, lost and regained, step by step. */
  ghost predicate CoveredNext(net: Net, a: Action, url: Url) {
    match a
    case Grow(_) => Covered(net, url)
    case Send(_, _, _, _) => Covered(net, url) && AckedWasTaken(net, a, url)
    case CatchUp(u, height) =>
      Covered(net, url) || (u == url && |net.Held(url)| <= net.sender.Cursor(url) <= height <= |net.sender.chain|)
    case Restart => true
  }

  lemma CoveredStepIff(net: Net, a: Action, url: Url)
    requires OnChain(net, url) && HonestStep(net, a)
    ensures Covered(Step(net, a), url) <==> CoveredNext(net, a, url)
  {
    if a.Send? && a.url == url { CoveredSendIff(net, a, url); }
  }

  lemma CoveredSendIff(net: Net, a: Action, url: Url)
    requires OnChain(net, url) && HonestStep(net, a)
    requires a.Send? && a.url == url
    ensures Covered(Step(net, a), url) <==> CoveredNext(net, a, url)
  {
    SendDelivers(net, url, |net.Held(url)|, a.total, a.checks);
  }

  ghost predicate CoveredAt(net: Net, run: seq<Action>, url: Url, n: nat)
    requires n <= |run|
  {
    Covered(After(net, run, n), url)
  }

  ghost predicate TakenAt(net: Net, run: seq<Action>, url: Url, n: nat)
    requires n < |run|
  {
    AckedWasTaken(After(net, run, n), run[n], url)
  }

  lemma CoveredAtNext(net: Net, run: seq<Action>, url: Url, n: nat)
    requires n < |run| && HonestRun(net, run) && OnChain(net, url) && CoveredAt(net, run, url, n)
    ensures CoveredAt(net, run, url, n + 1) <==> TakenAt(net, run, url, n)
  {
    PushIsSafe(net, run, url, n);
    assert HonestAt(net, run, n);
    CoveredStepIff(After(net, run, n), run[n], url);
  }

  /** A receiver stays covered all along a run exactly when every batch it acknowledged was fully taken. */
  lemma {:induction false} CoveredThroughoutIff(net: Net, run: seq<Action>, url: Url, n: nat)
    requires n <= |run| && HonestRun(net, run) && OnChain(net, url) && Covered(net, url)
    ensures (forall m: nat :: m <= n ==> CoveredAt(net, run, url, m))
            <==> (forall k: nat :: k < n ==> TakenAt(net, run, url, k))
  {
    if n > 0 {
      CoveredThroughoutIff(net, run, url, n - 1);
      if CoveredAt(net, run, url, n - 1) { CoveredAtNext(net, run, url, n - 1); }
    }
  }

  // ---- convergence, and when it fails ----

  /** After `n` answered requests to `url`, each in a cycle that saw the whole chain. */
  function Answered(net: Net, url: Url, checks: Checks, n: nat): Net {
    if n == 0 then net else AnsweredNext(Answered(net, url, checks, n - 1), url, checks)
  }

  function AnsweredNext(net: Net, url: Url, checks: Checks): Net {
    Step(net, Send(url, |net.sender.chain|, Acked, checks))
  }

  lemma AnsweredCursor(net: Net, url: Url, checks: Checks)
    requires net.sender.Cursor(url) <= |net.sender.chain|
    ensures var next := AnsweredNext(net, url, checks).sender;
            next.chain == net.sender.chain && next.Cursor(url) == Min(|net.sender.chain|, net.sender.Cursor(url) + 50)
  {
  }

  /** Each answered request moves the cursor fifty events on, or to the end. */
  lemma {:induction false} CursorAdvances(net: Net, url: Url, checks: Checks, n: nat)
    requires net.sender.Cursor(url) <= |net.sender.chain|
    ensures MovedOn(net.sender, Answered(net, url, checks, n).sender, url, n * 50)
  {
    if n > 0 {
      CursorAdvances(net, url, checks, n - 1);
      AnsweredCursor(Answered(net, url, checks, n - 1), url, checks);
    }
  }

  /** The same chain, and a cursor `k` events further on, or at the end. */
  ghost predicate MovedOn(s: Sender, t: Sender, url: Url, k: nat) {
    t.chain == s.chain && t.Cursor(url) == Min(|s.chain|, s.Cursor(url) + k)
  }

  /** From a receiver of the first `h` events and a cursor at or below `h`: it follows the cursor up to the first event
      it refuses. From a cursor above: it stays. */
  function Followed(h: nat, cursor: nat, stop: nat, cursorNow: nat): (now: int)
    ensures now >= h
  {
    if h < cursor then h else Max(h, Min(stop, cursorNow))
  }

  /** `last` is `net` after some answered requests. */
  ghost predicate DeliveredTo(net: Net, last: Net, url: Url, h: nat, stop: nat) {
    && last.sender.chain == net.sender.chain
    && net.sender.Cursor(url) <= last.sender.Cursor(url)
    && HoldsFirst(last, url, Followed(h, net.sender.Cursor(url), stop, last.sender.Cursor(url)))
  }

  lemma DeliverMore(net: Net, last: Net, url: Url, checks: Checks, h: nat, stop: nat)
    requires GoodChain(net.sender.chain) && Admissible(net.sender.chain, checks) && h <= |net.sender.chain|
    requires stop == FirstRefused(net.sender.chain, checks, h) && DeliveredTo(net, last, url, h, stop)
    ensures DeliveredTo(net, AnsweredNext(last, url, checks), url, h, stop)
  {
    var now, c := Followed(h, net.sender.Cursor(url), stop, last.sender.Cursor(url)), last.sender.Cursor(url);
    AnsweredHolds(last, url, checks, now);
    var end := AnsweredNext(last, url, checks).sender.Cursor(url);
    TakenFollows(net.sender.chain, h, net.sender.Cursor(url), c, end, checks);
  }

  lemma AnsweredHolds(net: Net, url: Url, checks: Checks, h: nat)
    requires GoodChain(net.sender.chain) && Admissible(net.sender.chain, checks) && HoldsFirst(net, url, h)
    ensures var next, c := AnsweredNext(net, url, checks), net.sender.Cursor(url);
            && next.sender.chain == net.sender.chain
            && c <= next.sender.Cursor(url) <= |net.sender.chain|
            && HoldsFirst(next, url, |Taken(net.sender.chain, h, c, next.sender.Cursor(url), checks).chain|)
  {
    AnsweredCursor(net, url, checks);
    SendDelivers(net, url, h, |net.sender.chain|, checks);
  }

  lemma TakenFollows(chain: seq<Event>, h: nat, cursor: nat, c: nat, end: nat, checks: Checks)
    requires h <= |chain| && cursor <= c <= end <= |chain|
    ensures var stop := FirstRefused(chain, checks, h);
            var now := Followed(h, cursor, stop, c);
            && h <= now <= |chain|
            && |Taken(chain, now, c, end, checks).chain| == Followed(h, cursor, stop, end)
  {
    var stop := FirstRefused(chain, checks, h);
    var now := Followed(h, cursor, stop, c);
    if h >= cursor { FirstRefusedAgain(chain, chain, checks, h, now); }
  }

  /** Every answered request delivers up to the cursor or the first refused event; from behind the cursor, nothing. */
  lemma {:induction false} PushDelivers(net: Net, url: Url, checks: Checks, n: nat)
    requires OnChain(net, url) && Admissible(net.sender.chain, checks)
    ensures var h := |net.Held(url)|;
            DeliveredTo(net, Answered(net, url, checks, n), url, h, FirstRefused(net.sender.chain, checks, h))
  {
    if n > 0 {
      var h := |net.Held(url)|;
      PushDelivers(net, url, checks, n - 1);
      DeliverMore(net, Answered(net, url, checks, n - 1), url, checks, h, FirstRefused(net.sender.chain, checks, h));
    }
  }

  /** A receiver behind its cursor rejects every batch whole and keeps what it has; the cursor moves on all the same. */
  lemma BehindTakesNothing(net: Net, url: Url, total: nat, answer: Answer, checks: Checks)
    requires OnChain(net, url) && Admissible(net.sender.chain, checks) && !Covered(net, url)
    ensures var next := Step(net, Send(url, total, answer, checks));
            && Receive(net.Held(url), net.sender.Batch(url, total), checks).rejected == |net.sender.Batch(url, total)|
            && next.Held(url) == net.Held(url) && !Covered(next, url)
  {
    SendDelivers(net, url, |net.Held(url)|, total, checks);
  }

  /** Pushing alone brings a receiver that holds a prefix to the sender's chain exactly when the cursor is not above
      what it holds and it takes every event from there on. A receiver that reset itself, or refused one event as too
      old, is never healed by push. */
  lemma PushHealsIff(net: Net, url: Url, checks: Checks, n: nat)
    requires OnChain(net, url) && Admissible(net.sender.chain, checks)
    requires |net.sender.chain| <= net.sender.Cursor(url) + n * 50
    ensures var chain, h := net.sender.chain, |net.Held(url)|;
            Answered(net, url, checks, n).Held(url) == chain
            <==> Covered(net, url) && forall k :: h <= k < |chain| ==> checks.content(chain[..k], chain[k])
  {
    PushDelivers(net, url, checks, n);
    CursorAdvances(net, url, checks, n);
  }

  /** It happens: a receiver that has reset itself, at a cursor of one, never gets the second event. */
  lemma BehindHappens(n: nat)
    requires n > 0
    ensures var chain := F.Branch(2, 0, false);
            Answered(Net(Sender(chain, map[0 := 1]), map[0 := []]), 0, F.LENIENT, n).Held(0) != chain
  {
    var chain := F.Branch(2, 0, false);
    F.BranchIsGood(2, 0, false);
    assert chain[..0] == [];
    PushHealsIff(Net(Sender(chain, map[0 := 1]), map[0 := []]), 0, F.LENIENT, n);
  }

  /** And without any reset: a first event that the receiver refuses as too old keeps it empty for ever, while the
      cursor counts both events as delivered. */
  lemma RefusalHappens(n: nat)
    requires n > 0
    ensures var last := Answered(Net(Sender(F.Branch(2, 0, false), map[]), map[]), 0, F.REFUSING, n);
            last.Held(0) == [] && last.sender.Cursor(0) == 2
  {
    var chain := F.Branch(2, 0, false);
    F.BranchIsGood(2, 0, false);
    assert chain[..0] == [] && chain[0].author == 0;
    assert FirstRefused(chain, F.REFUSING, 0) == 0;
    PushDelivers(Net(Sender(chain, map[]), map[]), 0, F.REFUSING, n);
    CursorAdvances(Net(Sender(chain, map[]), map[]), 0, F.REFUSING, n);
  }

  // ---- the loop ----

  /** One pass over the first `n` peers: before each request the chain may have grown, and each receiver has its own
      checks. */
  function Cycle(total: nat, peers: seq<Url>, growth: seq<seq<Event>>, answers: seq<Answer>, checks: seq<Checks>,
                 n: nat): seq<Action>
    requires n <= |growth| == |answers| == |peers| == |checks|
  {
    if n == 0 then []
    else
      var before := Cycle(total, peers, growth, answers, checks, n - 1);
      before + [Grow(growth[n - 1]), Send(peers[n - 1], total, answers[n - 1], checks[n - 1])]
  }

  function AfterAll(s: Sender, run: seq<Action>): Sender { SenderAfter(s, run, |run|) }

  lemma {:induction false} SenderAfterPrefix(s: Sender, run: seq<Action>, more: seq<Action>, n: nat)
    requires n <= |run|
    ensures SenderAfter(s, run + more, n) == SenderAfter(s, run, n)
  {
    if n > 0 {
      SenderAfterPrefix(s, run, more, n - 1);
      assert (run + more)[n - 1] == run[n - 1];
    }
  }

  lemma TwoMore(s: Sender, run: seq<Action>, a: Action, b: Action)
    ensures AfterAll(s, run + [a, b]) == AfterAll(s, run).Next(a).Next(b)
  {
    var longer := run + [a, b];
    SenderAfterPrefix(s, run, [a, b], |run|);
    assert longer[|run|] == a && longer[|run| + 1] == b;
    assert SenderAfter(s, longer, |run| + 1) == SenderAfter(s, longer, |run|).Next(a);
  }

  class Node {
    var events: seq<Event>
    var lastIndex: map<Url, nat>
    ghost const start: Sender
    ghost var history: seq<Action>

    /** What the fields hold is what the history made of the start. */
    ghost predicate Valid()
      reads this
    {
      start.cursors == map[] && Sender(events, lastIndex) == AfterAll(start, history)
    }

    /** The program starts with the chain it has on disk and without cursors. */
    constructor (chain: seq<Event>)
      ensures Valid() && events == chain && history == []
    {
      events, lastIndex, start, history := chain, map[], Sender(chain, map[]), [];
    }

    /** One pass of `_http_peer_push_loop`, with the answers of the peers and what other threads append to the
        chain meanwhile as inputs. */
    method PushCycle(peers: seq<Url>, growth: seq<seq<Event>>, answers: seq<Answer>, ghost checks: seq<Checks>)
      requires Valid() && |growth| == |answers| == |peers| == |checks|
      modifies this
      ensures Valid() && history == old(history) + Cycle(|old(events)|, peers, growth, answers, checks, |peers|)
      ensures forall url :: Delivered(Sender(events, lastIndex), Stream(start, history, url, |history|), url)
    {
      var total := |events|;
      for i := 0 to |peers|
        invariant Valid() && total <= |events|
        invariant history == old(history) + Cycle(total, peers, growth, answers, checks, i)
      {
        PushTo(peers[i], total, growth[i], answers[i], checks[i]);
      }
      forall url ensures Delivered(Sender(events, lastIndex), Stream(start, history, url, |history|), url) {
        StreamIsChainPrefix(start, history, url, |history|);
      }
    }

    /** One peer of the pass; `total` was read when the pass began. */
    method PushTo(url: Url, total: nat, more: seq<Event>, answer: Answer, ghost checks: Checks)
      requires Valid() && total <= |events|
      modifies this
      ensures Valid() && events == old(events) + more
      ensures history == old(history) + [Grow(more), Send(url, total, answer, checks)]
    {
      TwoMore(start, history, Grow(more), Send(url, total, answer, checks));
      history := history + [Grow(more), Send(url, total, answer, checks)];
      events := events + more;
      var lastIdx := if url in lastIndex then lastIndex[url] else 0;
      if lastIdx >= total { return; }
      var batch := events[lastIdx..Min(lastIdx + BATCH, |events|)];
      if batch == [] { return; }
      if answer.Acked? {
        lastIndex := lastIndex[url := lastIdx + |batch|];
      }
    }
  }
}
