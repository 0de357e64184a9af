/** The hash chain of backend/services/mesh/mesh_hashchain.py: ingest, locator and lookup. */
module InfonetChain {

  /** Event ids are digests; the predecessor of the first event is the all-zero genesis hash. */
  datatype Hash = Genesis | Digest(value: nat)

  /** `author` is the key of the sequence table (node id, and domain where there is one). */
  datatype Event = Event(id: Hash, prev: Hash, author: nat, sequence: int, payload: nat)

  /** The other checks of `ingest_events`: `shape` is the type and presence
      test made first, `content` all the later ones (network, freshness, payload, quotas, key and its revocation,
      signature, id), which also look at the chain so far. `replayed` is the answer of the replay filter, which may
      raise false alarms. */
  datatype Checks = Checks(shape: Event -> bool, content: (seq<Event>, Event) -> bool, replayed: Hash -> bool)

  function Head(chain: seq<Event>): Hash {
    if chain == [] then Genesis else chain[|chain| - 1].id
  }

  predicate Known(chain: seq<Event>, id: Hash) {
    exists i :: 0 <= i < |chain| && chain[i].id == id
  }

  /** The sequence table entry of `author` after the first `n` events. */
  function LastSequence(chain: seq<Event>, author: nat, n: nat): int
    requires n <= |chain|
  {
    if n == 0 then 0
    else if chain[n - 1].author == author then chain[n - 1].sequence
    else LastSequence(chain, author, n - 1)
  }

  datatype Verdict = Accepted | Duplicate | Rejected

  /** What `ingest_events` does with one event on top of `chain`. */
  function Judge(chain: seq<Event>, e: Event, checks: Checks): Verdict {
    if !checks.shape(e) then Rejected
    else if Known(chain, e.id) || checks.replayed(e.id) then Duplicate
    else if e.prev != Head(chain) then Rejected
    else if e.sequence <= 0 || e.sequence <= LastSequence(chain, e.author, |chain|) then Rejected
    else if !checks.content(chain, e) then Rejected
    else Accepted
  }

  datatype Tally = Tally(chain: seq<Event>, accepted: nat, duplicates: nat, rejected: nat)

  function Count(t: Tally, e: Event, checks: Checks): Tally {
    match Judge(t.chain, e, checks)
    case Accepted => t.(chain := t.chain + [e], accepted := t.accepted + 1)
    case Duplicate => t.(duplicates := t.duplicates + 1)
    case Rejected => t.(rejected := t.rejected + 1)
  }

  /** After the first `n` events of the page. */
  function Ingest(chain: seq<Event>, page: seq<Event>, checks: Checks, n: nat): Tally
    requires n <= |page|
  {
    if n == 0 then Tally(chain, 0, 0, 0) else Count(Ingest(chain, page, checks, n - 1), page[n - 1], checks)
  }

  /** What every event of the page carries on, the page does. */
  lemma {:induction false} IngestKeeps(chain: seq<Event>, page: seq<Event>, checks: Checks, holds: (Tally, nat) -> bool,
                                       n: nat)
    requires n <= |page| && holds(Tally(chain, 0, 0, 0), 0)
    requires forall t: Tally, k: nat {:trigger Count(t, page[k], checks)} ::
               k < |page| && holds(t, k) ==> holds(Count(t, page[k], checks), k + 1)
    ensures holds(Ingest(chain, page, checks, n), n)
  {
    if n > 0 { IngestKeeps(chain, page, checks, holds, n - 1); }
  }

  /** Event `i` is linked to its predecessor, and its sequence number continues its author's. Nothing is said of
      whether anybody would take it now. */
  ghost predicate GoodAt(chain: seq<Event>, i: nat)
    requires i < |chain|
  {
    && chain[i].prev == (if i == 0 then Genesis else chain[i - 1].id)
    && chain[i].id != Genesis
    && chain[i].sequence > 0 && chain[i].sequence > LastSequence(chain, chain[i].author, i)
  }

  ghost predicate DistinctIds(chain: seq<Event>) {
    forall i, j :: 0 <= i < j < |chain| ==> chain[i].id != chain[j].id
  }

  /** The chain an honest node holds. */
  ghost predicate GoodChain(chain: seq<Event>) {
    DistinctIds(chain) && forall i: nat :: i < |chain| ==> GoodAt(chain, i)
  }

  /** From height `r` on, every event passed the checks when it was taken. */
  ghost predicate PassedFrom(chain: seq<Event>, checks: Checks, r: nat) {
    forall k :: r <= k < |chain| ==> checks.shape(chain[k]) && checks.content(chain[..k], chain[k])
  }

  /** No digest is the all-zero hash: `content` includes recomputing the id. */
  ghost predicate HashesAreDigests(checks: Checks) {
    forall chain, e :: checks.content(chain, e) ==> e.id != Genesis
  }

  // ---- ingest keeps the chain good, whatever arrives ----

  lemma {:induction false} LastSequencePrefix(chain: seq<Event>, more: seq<Event>, author: nat, n: nat)
    requires n <= |chain|
    ensures LastSequence(chain + more, author, n) == LastSequence(chain, author, n)
  {
    if n > 0 {
      assert (chain + more)[n - 1] == chain[n - 1];
      LastSequencePrefix(chain, more, author, n - 1);
    }
  }

  lemma GoodAtPrefix(chain: seq<Event>, more: seq<Event>, i: nat)
    requires i < |chain|
    ensures GoodAt(chain + more, i) <==> GoodAt(chain, i)
  {
    var longer := chain + more;
    assert longer[i] == chain[i];
    if i > 0 { assert longer[i - 1] == chain[i - 1]; }
    LastSequencePrefix(chain, more, chain[i].author, i);
  }

  lemma GoodPrefix(chain: seq<Event>, n: nat)
    requires GoodChain(chain) && n <= |chain|
    ensures GoodChain(chain[..n])
  {
    assert chain == chain[..n] + chain[n..];
    forall i: nat | i < n ensures GoodAt(chain[..n], i) {
      GoodAtPrefix(chain[..n], chain[n..], i);
    }
  }

  lemma AcceptKeepsGood(chain: seq<Event>, e: Event, checks: Checks)
    requires GoodChain(chain) && HashesAreDigests(checks)
    requires Judge(chain, e, checks) == Accepted
    ensures GoodChain(chain + [e])
  {
    var more := chain + [e];
    forall i: nat | i < |more| ensures GoodAt(more, i) {
      if i < |chain| {
        GoodAtPrefix(chain, [e], i);
      } else {
        AcceptedIsGoodAt(chain, e, checks);
      }
    }
    forall i | 0 <= i < |chain| ensures chain[i].id != e.id {
      assert !Known(chain, e.id);
    }
  }

  lemma AcceptedIsGoodAt(chain: seq<Event>, e: Event, checks: Checks)
    requires HashesAreDigests(checks)
    requires Judge(chain, e, checks) == Accepted
    ensures GoodAt(chain + [e], |chain|)
  {
    var more := chain + [e];
    assert more[|chain|] == e;
    if |chain| > 0 { assert more[|chain| - 1] == chain[|chain| - 1]; }
    LastSequencePrefix(chain, [e], e.author, |chain|);
  }

  lemma AcceptKeepsPassed(chain: seq<Event>, e: Event, checks: Checks, r: nat)
    requires PassedFrom(chain, checks, r) && Judge(chain, e, checks) == Accepted
    ensures PassedFrom(chain + [e], checks, r)
  {
    var more := chain + [e];
    assert more[..|chain|] == chain && more[|chain|] == e;
    forall k | r <= k < |chain| ensures more[..k] == chain[..k] && more[k] == chain[k] { }
  }

  /** Whatever a peer sends, a good chain stays good, it only grows, and only by events that pass all checks on
      the chain before them; the three counts add up to the page, and `accepted` is exactly the growth. */
  lemma {:induction false} IngestIsSafe(chain: seq<Event>, page: seq<Event>, checks: Checks, n: nat)
    requires GoodChain(chain) && HashesAreDigests(checks)
    requires n <= |page|
    ensures var t := Ingest(chain, page, checks, n);
            && GoodChain(t.chain)
            && chain <= t.chain && PassedFrom(t.chain, checks, |chain|)
            && t.accepted == |t.chain| - |chain|
            && t.accepted + t.duplicates + t.rejected == n
  {
    if n > 0 {
      IngestIsSafe(chain, page, checks, n - 1);
      var t := Ingest(chain, page, checks, n - 1);
      if Judge(t.chain, page[n - 1], checks) == Accepted {
        AcceptKeepsGood(t.chain, page[n - 1], checks);
        AcceptKeepsPassed(t.chain, page[n - 1], checks, |chain|);
      }
    }
  }

  /** Along a good chain every author's sequence numbers increase. */
  lemma {:induction false} SequencesIncrease(chain: seq<Event>, i: nat, j: nat)
    requires GoodChain(chain) && i < j < |chain| && chain[i].author == chain[j].author
    ensures 0 < chain[i].sequence < chain[j].sequence
  {
    assert GoodAt(chain, i) && GoodAt(chain, j);
    LastSequenceAtLeast(chain, chain[j].author, i, j);
  }

  lemma {:induction false} LastSequenceAtLeast(chain: seq<Event>, author: nat, i: nat, n: nat)
    requires GoodChain(chain) && i < n <= |chain| && chain[i].author == author
    ensures LastSequence(chain, author, n) >= chain[i].sequence
  {
    if i < n - 1 {
      LastSequenceAtLeast(chain, author, i, n - 1);
      assert GoodAt(chain, n - 1);
    }
  }

  /** The page's events that are well formed and, when their turn comes, known or flagged by the replay filter. */
  ghost function SeenBefore(chain: seq<Event>, page: seq<Event>, checks: Checks, n: nat): set<nat>
    requires n <= |page|
  {
    Numbers((i: nat) => i < |page| && IsSeen(chain, page, checks, i), n)
  }

  ghost predicate IsSeen(chain: seq<Event>, page: seq<Event>, checks: Checks, i: nat)
    requires i < |page|
  {
    && checks.shape(page[i])
    && (Known(Ingest(chain, page, checks, i).chain, page[i].id) || checks.replayed(page[i].id))
  }

  /** For any page: the duplicates are exactly those events, the growth is what was accepted, and the rest was
      rejected, malformed events among it. */
  lemma {:induction false} TallyIs(chain: seq<Event>, page: seq<Event>, checks: Checks, n: nat)
    requires n <= |page|
    ensures var t := Ingest(chain, page, checks, n);
            && t.duplicates == |SeenBefore(chain, page, checks, n)|
            && |t.chain| == |chain| + t.accepted
            && t.rejected == n - t.accepted - t.duplicates
  {
    if n > 0 {
      TallyIs(chain, page, checks, n - 1);
      SeenNext(chain, page, checks, n - 1);
      CountNext(Ingest(chain, page, checks, n - 1), page[n - 1], checks);
    } else {
      assert SeenBefore(chain, page, checks, 0) == {};
    }
  }

  lemma SeenNext(chain: seq<Event>, page: seq<Event>, checks: Checks, n: nat)
    requires n < |page|
    ensures |SeenBefore(chain, page, checks, n + 1)|
            == |SeenBefore(chain, page, checks, n)| + if IsSeen(chain, page, checks, n) then 1 else 0
  {
    NumbersNext((i: nat) => i < |page| && IsSeen(chain, page, checks, i), n);
  }

  ghost function Numbers(p: nat -> bool, n: nat): set<nat> { set i: nat | i < n && p(i) }

  lemma NumbersNext(p: nat -> bool, n: nat)
    ensures |Numbers(p, n + 1)| == |Numbers(p, n)| + if p(n) then 1 else 0
  {
    assert Numbers(p, n + 1) == Numbers(p, n) + if p(n) then {n} else {};
  }

  lemma CountNext(t: Tally, e: Event, checks: Checks)
    ensures var next := Count(t, e, checks); var seen := checks.shape(e)
            && (Known(t.chain, e.id) || checks.replayed(e.id));
            && next.duplicates == t.duplicates + (if seen then 1 else 0)
            && |next.chain| - |t.chain| == next.accepted - t.accepted
            && next.accepted + next.duplicates + next.rejected == t.accepted + t.duplicates + t.rejected + 1
  {
  }

  // ---- two honest chains ----

  /** Equal ids mean equal events: the id is a hash of the event. */
  ghost predicate SameHashSameEvent(a: seq<Event>, b: seq<Event>) {
    forall i, j :: 0 <= i < |a| && 0 <= j < |b| && a[i].id == b[j].id ==> a[i] == b[j]
  }

  /** A shared event sits at the same height in both chains, on a shared history. */
  lemma {:induction false} SharedHistory(a: seq<Event>, b: seq<Event>, i: nat, j: nat)
    requires GoodChain(a) && GoodChain(b) && SameHashSameEvent(a, b)
    requires i < |a| && j < |b| && a[i].id == b[j].id
    ensures i == j
    ensures forall k :: 0 <= k <= i ==> a[k] == b[k]
  {
    assert a[i] == b[j] && GoodAt(a, i) && GoodAt(b, j);
    assert i > 0 ==> GoodAt(a, i - 1);
    assert j > 0 ==> GoodAt(b, j - 1);
    if i > 0 && j > 0 {
      SharedHistory(a, b, i - 1, j - 1);
    }
  }

  /** The length of the longest common prefix, searched from `n`. */
  function Fork(a: seq<Event>, b: seq<Event>, n: nat): (d: nat)
    requires n <= |a| && n <= |b|
    ensures n <= d <= |a| && d <= |b|
    ensures forall k :: n <= k < d ==> a[k] == b[k]
    ensures d < |a| && d < |b| ==> a[d] != b[d]
    decreases |a| - n
  {
    if n < |a| && n < |b| && a[n] == b[n] then Fork(a, b, n + 1) else n
  }

  /** How many events both chains share. */
  function Shared(a: seq<Event>, b: seq<Event>): nat { Fork(a, b, 0) }

  /** An event of one chain is known to the other exactly below the fork. */
  lemma KnownBelowFork(a: seq<Event>, b: seq<Event>, j: nat)
    requires GoodChain(a) && GoodChain(b) && SameHashSameEvent(a, b)
    requires j < |b|
    ensures Known(a, b[j].id) <==> j < Shared(a, b)
  {
    if j < Shared(a, b) { assert a[j] == b[j]; }
    if Known(a, b[j].id) {
      var i :| 0 <= i < |a| && a[i].id == b[j].id;
      SharedHistory(a, b, i, j);
    }
  }

  function Min(a: int, b: int): int { if a < b then a else b }

  function Max(a: int, b: int): int { if a < b then b else a }

  /** Well-formed events, none of which trips the replay filter. */
  ghost predicate Admissible(peer: seq<Event>, checks: Checks) {
    forall i :: 0 <= i < |peer| ==> checks.shape(peer[i]) && !checks.replayed(peer[i].id)
  }

  /** The first height from `r` on whose event a receiver holding all before it does not take: it is too old, say. */
  function FirstRefused(peer: seq<Event>, checks: Checks, r: nat): (s: nat)
    requires r <= |peer|
    ensures r <= s <= |peer|
    ensures forall k :: r <= k < s ==> checks.content(peer[..k], peer[k])
    ensures s < |peer| ==> !checks.content(peer[..s], peer[s])
    decreases |peer| - r
  {
    if r < |peer| && checks.content(peer[..r], peer[r]) then FirstRefused(peer, checks, r + 1) else r
  }

  /** Starting anywhere up to it, and from any longer chain, the first refused height is the same. */
  lemma FirstRefusedAgain(peer: seq<Event>, top: seq<Event>, checks: Checks, r: nat, n: nat)
    requires peer <= top && r <= n <= |peer| && n <= FirstRefused(top, checks, r)
    ensures FirstRefused(peer, checks, n) == Min(FirstRefused(top, checks, r), |peer|)
  {
    var s, t := FirstRefused(peer, checks, n), FirstRefused(top, checks, r);
    assert forall k :: 0 <= k < |peer| ==> top[..k] == peer[..k] && top[k] == peer[k];
  }

  /** The peer's events `from` to `to` have arrived at a receiver of its first `r`: duplicates up to `r`, growth along
      the peer's chain up to height `s`, and rejections from there on. */
  ghost predicate TakenUpTo(t: Tally, peer: seq<Event>, s: nat, r: nat, from: nat, to: nat) {
    var reach := Max(r, Min(s, to));
    from <= r && from <= to && reach <= |peer|
      && t == Tally(peer[..reach], reach - r, Min(r, to) - from, Max(0, to - s))
  }

  /** A page of the peer's chain arriving at a prefix of that chain: what is known is a duplicate, what is new is
      accepted up to the first event the receiver refuses, and from that one on everything is rejected. */
  lemma IngestAtPrefix(peer: seq<Event>, r: nat, from: nat, page: seq<Event>, checks: Checks, n: nat)
    requires GoodChain(peer) && Admissible(peer, checks)
    requires from <= r <= |peer| && from + |page| <= |peer| && n <= |page|
    requires forall i :: 0 <= i < |page| ==> page[i] == peer[from + i]
    ensures TakenUpTo(Ingest(peer[..r], page, checks, n), peer, FirstRefused(peer, checks, r), r, from, from + n)
  {
    var s := FirstRefused(peer, checks, r);
    forall t, at: nat | from <= at < |peer| ensures StepUpTo(t, peer, s, r, from, at, checks) {
      if TakenUpTo(t, peer, s, r, from, at) { CountAtPrefix(peer, s, r, from, at, t, checks); }
    }
    NothingTakenYet(peer, s, r, from);
    IngestUpTo(peer, s, r, from, page, checks, n);
  }

  /** The same for a slice of the peer's chain. */
  lemma SliceAtPrefix(peer: seq<Event>, r: nat, from: nat, to: nat, checks: Checks)
    requires GoodChain(peer) && Admissible(peer, checks) && from <= r <= |peer| && from <= to <= |peer|
    ensures TakenUpTo(Ingest(peer[..r], peer[from..to], checks, to - from), peer, FirstRefused(peer, checks, r), r,
                      from,
                      to)
  {
    IngestAtPrefix(peer, r, from, peer[from..to], checks, to - from);
  }

  ghost predicate StepUpTo(t: Tally, peer: seq<Event>, s: nat, r: nat, from: nat, at: nat, checks: Checks)
    requires at < |peer|
  {
    TakenUpTo(t, peer, s, r, from, at) ==> TakenUpTo(Count(t, peer[at], checks), peer, s, r, from, at + 1)
  }

  lemma {:induction false} IngestUpTo(peer: seq<Event>, s: nat, r: nat, from: nat, page: seq<Event>, checks: Checks,
                                      n: nat)
    requires r <= |peer| && from + |page| <= |peer| && n <= |page|
    requires forall i :: 0 <= i < |page| ==> page[i] == peer[from + i]
    requires forall t, at: nat :: from <= at < |peer| ==> StepUpTo(t, peer, s, r, from, at, checks)
    requires TakenUpTo(Tally(peer[..r], 0, 0, 0), peer, s, r, from, from)
    ensures TakenUpTo(Ingest(peer[..r], page, checks, n), peer, s, r, from, from + n)
  {
    if n > 0 {
      IngestUpTo(peer, s, r, from, page, checks, n - 1);
      assert StepUpTo(Ingest(peer[..r], page, checks, n - 1), peer, s, r, from, from + n - 1, checks);
    }
  }

  lemma NothingTakenYet(peer: seq<Event>, s: nat, r: nat, from: nat)
    requires from <= r <= |peer| && r <= s
    ensures TakenUpTo(Tally(peer[..r], 0, 0, 0), peer, s, r, from, from)
  {
  }

  /** One more event of the page. */
  lemma CountAtPrefix(peer: seq<Event>, s: nat, r: nat, from: nat, at: nat, t: Tally, checks: Checks)
    requires GoodChain(peer) && Admissible(peer, checks)
    requires from <= r <= |peer| && from <= at < |peer|
    requires s == FirstRefused(peer, checks, r) && TakenUpTo(t, peer, s, r, from, at)
    ensures TakenUpTo(Count(t, peer[at], checks), peer, s, r, from, at + 1)
  {
    if at < r {
      KnownIsDuplicate(peer, r, at, checks);
    } else if at < s {
      NextIsAccepted(peer, at, checks);
      assert peer[..at + 1] == peer[..at] + [peer[at]];
    } else if at == s {
      RefusedIsRejected(peer, at, checks);
    } else {
      LaterIsRejected(peer, s, at, checks);
    }
  }

  lemma KnownIsDuplicate(peer: seq<Event>, r: nat, at: nat, checks: Checks)
    requires Admissible(peer, checks) && at < r <= |peer|
    ensures Judge(peer[..r], peer[at], checks) == Duplicate
  {
    assert peer[..r][at] == peer[at];
  }

  lemma NextIsAccepted(peer: seq<Event>, at: nat, checks: Checks)
    requires GoodChain(peer) && Admissible(peer, checks) && at < |peer|
    requires checks.content(peer[..at], peer[at])
    ensures Judge(peer[..at], peer[at], checks) == Accepted
  {
    var chain := peer[..at];
    assert peer == chain + peer[at..];
    assert GoodAt(peer, at);
    LastSequencePrefix(chain, peer[at..], peer[at].author, at);
    assert forall i :: 0 <= i < at ==> chain[i] == peer[i];
  }

  lemma NotYetKnown(peer: seq<Event>, r: nat, at: nat)
    requires GoodChain(peer) && r <= at < |peer|
    ensures !Known(peer[..r], peer[at].id)
  {
    assert forall i :: 0 <= i < r ==> peer[..r][i] == peer[i];
  }

  lemma RefusedIsRejected(peer: seq<Event>, at: nat, checks: Checks)
    requires GoodChain(peer) && Admissible(peer, checks) && at < |peer|
    requires !checks.content(peer[..at], peer[at])
    ensures Judge(peer[..at], peer[at], checks) == Rejected
  {
    NotYetKnown(peer, at, at);
  }

  lemma LaterIsRejected(peer: seq<Event>, r: nat, at: nat, checks: Checks)
    requires GoodChain(peer) && Admissible(peer, checks) && r < at < |peer|
    ensures Judge(peer[..r], peer[at], checks) == Rejected
  {
    NotYetKnown(peer, r, at);
    assert GoodAt(peer, at) && GoodAt(peer, at - 1);
    if r > 0 { assert peer[..r][r - 1] == peer[r - 1]; }
  }

  /** The same page arriving at a chain that has left the peer's (or that misses events before
      the page): what is shared is a duplicate, everything else is rejected, nothing changes. */
  lemma IngestOffChain(local: seq<Event>, peer: seq<Event>, from: nat, page: seq<Event>, checks: Checks, n: nat)
    requires GoodChain(local) && GoodChain(peer) && SameHashSameEvent(local, peer) && Admissible(peer, checks)
    requires from + |page| <= |peer| && n <= |page|
    requires forall i :: 0 <= i < |page| ==> page[i] == peer[from + i]
    requires Shared(local, peer) < |local| || |local| < from
    ensures LeftAlone(Ingest(local, page, checks, n), local, Shared(local, peer), from, n)
  {
    var d := Shared(local, peer);
    var holds := (t: Tally, k: nat) => LeftAlone(t, local, d, from, k);
    forall t: Tally, k: nat {:trigger Count(t, page[k], checks)} | k < |page| && holds(t, k)
      ensures holds(Count(t, page[k], checks), k + 1)
    {
      JudgeOffChain(local, peer, checks, from + k);
      CountOff(local, page[k], checks, t, d, from, k);
    }
    IngestKeeps(local, page, checks, holds, n);
  }

  /** After `n` events from height `from` on: nothing taken, and those below height `d` were duplicates. */
  ghost predicate LeftAlone(t: Tally, local: seq<Event>, d: nat, from: nat, n: nat) {
    var known := Max(0, Min(d, from + n) - from);
    t == Tally(local, 0, known, n - known)
  }

  lemma CountOff(local: seq<Event>, e: Event, checks: Checks, t: Tally, d: nat, from: nat, n: nat)
    requires LeftAlone(t, local, d, from, n)
    requires Judge(local, e, checks) == if from + n < d then Duplicate else Rejected
    ensures LeftAlone(Count(t, e, checks), local, d, from, n + 1)
  {
  }

  lemma JudgeOffChain(local: seq<Event>, peer: seq<Event>, checks: Checks, at: nat)
    requires GoodChain(local) && GoodChain(peer) && SameHashSameEvent(local, peer) && Admissible(peer, checks)
    requires at < |peer| && (Shared(local, peer) < |local| || |local| < at)
    ensures Judge(local, peer[at], checks) == if at < Shared(local, peer) then Duplicate else Rejected
  {
    KnownBelowFork(local, peer, at);
    if at >= Shared(local, peer) { NotOnHead(local, peer, at); }
  }

  lemma NotOnHead(local: seq<Event>, peer: seq<Event>, at: nat)
    requires GoodChain(local) && GoodChain(peer) && SameHashSameEvent(local, peer)
    requires Shared(local, peer) <= at < |peer|
    requires Shared(local, peer) < |local| || |local| < at
    ensures peer[at].prev != Head(local)
  {
    assert GoodAt(peer, at);
    if |local| == 0 {
      assert GoodAt(peer, at - 1);
    } else if at == 0 {
      assert GoodAt(local, |local| - 1);
    } else if peer[at - 1].id == local[|local| - 1].id {
      SharedHistory(local, peer, |local| - 1, at - 1);
    }
  }
}
