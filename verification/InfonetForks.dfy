/** Where the sync meets a peer it has left, in closed form, and which forks it does not notice. */
module InfonetForks {
  import opened InfonetChain
  import opened InfonetSync

  // ---- the sampled heights in closed form ----

  function Pow2(k: nat): (p: nat)
    ensures p > 0
  {
    if k == 0 then 1 else 2 * Pow2(k - 1)
  }

  /** Sample number `i` of a chain of `n` events: ten heights in a row, then gaps of 2, 4, 8 and so on.
      Below zero there is no sample. */
  function SampleAt(n: nat, i: nat): int { if i < 10 then n - 1 - i else n - 8 - Pow2(i - 8) }

  function StepAt(i: nat): nat { if i < 10 then 1 else Pow2(i - 9) }

  lemma NextSample(n: nat, i: nat)
    ensures SampleAt(n, i + 1) == SampleAt(n, i) - StepAt(i + 1)
    ensures StepAt(i + 1) == if i >= 9 then StepAt(i) * 2 else StepAt(i)
    ensures StepAt(i) > 0 && SampleAt(n, i + 1) < SampleAt(n, i)
  {
    assert Pow2(2) == 4 && Pow2(1) == 2 && Pow2(0) == 1;
  }

  /** The sampling loop, resumed at sample `i`, produces the closed form; it stops below zero or for want
      of room. */
  lemma {:induction false} SamplesClosed(n: nat, i: nat, room: nat)
    requires StepAt(i) > 0
    ensures var s := Samples(SampleAt(n, i), StepAt(i), i, room);
            && |s| <= room && (|s| == room || SampleAt(n, i + |s|) < 0)
            && forall k :: 0 <= k < |s| ==> s[k] == SampleAt(n, i + k)
    decreases room
  {
    if SampleAt(n, i) >= 0 && room > 0 {
      NextSample(n, i);
      SamplesClosed(n, i + 1, room - 1);
      var rest := Samples(SampleAt(n, i + 1), StepAt(i + 1), i + 1, room - 1);
      assert Samples(SampleAt(n, i), StepAt(i), i, room) == [SampleAt(n, i) as nat] + rest;
    }
  }

  /** A locator samples 31 heights, unless the chain ends before. */
  lemma LocatorClosed(n: nat)
    ensures var heights := LocatorHeights(n, MAX_LOCATOR);
            && |heights| <= 31 && (|heights| == 31 || SampleAt(n, |heights|) < 0)
            && forall i :: 0 <= i < |heights| ==> heights[i] == SampleAt(n, i)
  {
    SamplesClosed(n, 0, 31);
  }

  lemma {:induction false} SamplesDescend(n: nat, i: nat, j: nat)
    requires i <= j
    ensures SampleAt(n, j) <= SampleAt(n, i)
  {
    if i < j {
      SamplesDescend(n, i, j - 1);
      NextSample(n, j - 1);
    }
  }

  /** Sample `i` of the local chain is the first below height `d`. */
  ghost predicate FirstSampleBelow(n: nat, d: nat, i: nat) {
    SampleAt(n, i) < d && (i == 0 || SampleAt(n, i - 1) >= d)
  }

  lemma {:induction false} SomeSampleBelow(n: nat, d: nat, i: nat) returns (j: nat)
    requires SampleAt(n, i) < d
    ensures j <= i && FirstSampleBelow(n, d, j)
  {
    if i > 0 && SampleAt(n, i - 1) < d { j := SomeSampleBelow(n, d, i - 1); } else { j := i; }
  }

  /** The server's page starts behind the first sample below the fork; if that is no sample at all, it
      reports a fork. */
  lemma MeetClosed(local: seq<Event>, peer: seq<Event>, i: nat)
    requires local != [] && FirstSampleBelow(|local|, Shared(local, peer), i)
    ensures Meet(local, peer)
            == if i < 31 && SampleAt(|local|, i) >= 0 then From(SampleAt(|local|, i) + 1) else Diverged
  {
    var n, d := |local|, Shared(local, peer);
    var heights := LocatorHeights(n, MAX_LOCATOR);
    LocatorClosed(n);
    SamplesFall(n - 1, 1, 0, MAX_LOCATOR - 1);
    var k := FirstBelow(heights, d, 0);
    if i < |heights| {
      assert heights[i] == SampleAt(n, i) && k <= i;
      if k < i { SamplesDescend(n, k, i - 1); }
    } else {
      if k < |heights| { SamplesDescend(n, k, i - 1); }
      if |heights| < 31 { SamplesDescend(n, |heights|, i); }
    }
  }

  /** A fork at most nine events deep on a shared history is met exactly at the fork. */
  lemma ShallowForkMeetsAtFork(local: seq<Event>, peer: seq<Event>)
    requires 0 < Shared(local, peer) && |local| - Shared(local, peer) <= 9
    ensures Meet(local, peer) == From(Shared(local, peer))
  {
    MeetClosed(local, peer, |local| - Shared(local, peer));
  }

  /** A fork ten events deep is met one event before the fork. */
  lemma TenDeepForkMeetsEarly(local: seq<Event>, peer: seq<Event>)
    requires |local| - Shared(local, peer) == 10 && Shared(local, peer) >= 2
    ensures Meet(local, peer) == From(Shared(local, peer) - 1)
  {
    assert Pow2(2) == 4;
    MeetClosed(local, peer, 10);
  }

  // ---- forks the sync does not notice ----

  /** The local chain has left the peer's, which has more to offer. */
  ghost predicate Forked(local: seq<Event>, peer: seq<Event>) {
    Shared(local, peer) < |local| && Shared(local, peer) < |peer|
  }

  /** A forked client whose locator still meets the peer keeps its own branch, and is told that all is well
      exactly when the whole page lies below the fork. */
  lemma UnnoticedForkIff(local: seq<Event>, peer: Peer, served: nat -> seq<Event>, checks: Checks,
                         pageLimit: int, maxRounds: nat, i: nat)
    requires HonestPeer(peer, served, checks) && ObeysForkRule(peer) && maxRounds > 0
    requires GoodChain(local) && SameHashSameEvent(local, served(0)) && Forked(local, served(0))
    requires FirstSampleBelow(|local|, Shared(local, served(0)), i) && i < 31 && SampleAt(|local|, i) >= 0
    ensures var r := Sync(local, 0, 0, 0, peer, checks, pageLimit, maxRounds);
            && r.chain == local && !r.forked
            && (r.ok <==> SampleAt(|local|, i) + 1 + Clamp(pageLimit) <= Shared(local, served(0)))
    ensures !(local <= served(0)) && !(served(0) <= local)
  {
    MeetClosed(local, served(0), i);
    SyncClassified(local, peer, served, checks, pageLimit, maxRounds);
    var d := Shared(local, served(0));
    assert local[d] != served(0)[d];
  }

  const PAGE_LIMIT := 100

  /** With the program's page of 100 events no fork less than 136 events deep goes unnoticed. */
  lemma ShallowForksAreNoticed(local: seq<Event>, peer: Peer, served: nat -> seq<Event>, checks: Checks, maxRounds: nat)
    requires HonestPeer(peer, served, checks) && ObeysForkRule(peer) && maxRounds > 0
    requires GoodChain(local) && SameHashSameEvent(local, served(0)) && Forked(local, served(0))
    requires |local| - Shared(local, served(0)) < 136
    ensures var r := Sync(local, 0, 0, 0, peer, checks, PAGE_LIMIT, maxRounds);
            !r.ok || r.resets > 0
  {
    var n, d := |local|, Shared(local, served(0));
    SmallPowers();
    var i := SomeSampleBelow(n, d, 15);
    MeetClosed(local, served(0), i);
    SyncClassified(local, peer, served, checks, PAGE_LIMIT, maxRounds);
    if i > 0 { GapIsStep(n, i); }
  }

  lemma SmallPowers()
    ensures Pow2(7) == 128 && Pow2(8) == 256
    ensures forall k: nat :: k <= 6 ==> Pow2(k) <= 64
  {
    assert Pow2(3) == 8 && Pow2(6) == 64;
  }

  lemma GapIsStep(n: nat, i: nat)
    requires 0 < i <= 15
    ensures SampleAt(n, i - 1) - SampleAt(n, i) <= 64
  {
    SmallPowers();
    NextSample(n, i - 1);
  }

  /** At 136 events, on a shared history of 128 or more, it does: the page ends below the fork, every event
      in it is a duplicate, and the sync reports success. */
  lemma DeepForkGoesUnnoticed(local: seq<Event>, peer: Peer, served: nat -> seq<Event>, checks: Checks, maxRounds: nat)
    requires HonestPeer(peer, served, checks) && ObeysForkRule(peer) && maxRounds > 0
    requires GoodChain(local) && SameHashSameEvent(local, served(0)) && Forked(local, served(0))
    requires |local| - Shared(local, served(0)) == 136 && Shared(local, served(0)) >= 128
    ensures var r := Sync(local, 0, 0, 0, peer, checks, PAGE_LIMIT, maxRounds);
            r.ok && r.chain == local && !(local <= served(0)) && !(served(0) <= local)
  {
    SmallPowers();
    UnnoticedForkIff(local, peer, served, checks, PAGE_LIMIT, maxRounds, 16);
  }

  // ---- concrete chains ----

  /** A chain of events by distinct authors that leaves the common history at height `fork`. */
  function Branch(length: nat, fork: nat, tag: bool): (chain: seq<Event>)
    ensures |chain| == length
  {
    seq(length, i requires 0 <= i < length => BranchEvent(i, fork, tag))
  }

  function BranchId(i: nat, fork: nat, tag: bool): Hash {
    Digest(if i < fork then i else 2 * i + (if tag then 1 else 0))
  }

  function BranchEvent(i: nat, fork: nat, tag: bool): Event {
    Event(BranchId(i, fork, tag), if i == 0 then Genesis else BranchId(i - 1, fork, tag), i, 1, 0)
  }

  /** Checks that let everything through. */
  const LENIENT: Checks := Checks((e: Event) => true, (chain: seq<Event>, e: Event) => true, (h: Hash) => false)

  lemma {:induction false} FreshAuthor(length: nat, fork: nat, tag: bool, author: nat, n: nat)
    requires n <= author && n <= length
    ensures LastSequence(Branch(length, fork, tag), author, n) == 0
  {
    if n > 0 { FreshAuthor(length, fork, tag, author, n - 1); }
  }

  lemma BranchIsGood(length: nat, fork: nat, tag: bool)
    ensures GoodChain(Branch(length, fork, tag))
  {
    var chain := Branch(length, fork, tag);
    forall i: nat | i < length ensures GoodAt(chain, i) {
      FreshAuthor(length, fork, tag, i, i);
    }
  }

  lemma BranchesAgreeOnIds(m: nat, n: nat, fork: nat)
    ensures SameHashSameEvent(Branch(m, fork, false), Branch(n, fork, true))
  {
    var a, b := Branch(m, fork, false), Branch(n, fork, true);
    forall i, j | 0 <= i < m && 0 <= j < n && a[i].id == b[j].id ensures a[i] == b[j] {
      assert i == j && i < fork;
    }
  }

  lemma BranchesShare(m: nat, n: nat, fork: nat)
    requires fork < m && fork < n
    ensures Shared(Branch(m, fork, false), Branch(n, fork, true)) == fork
  {
    var a, b := Branch(m, fork, false), Branch(n, fork, true);
    var d := Shared(a, b);
    assert forall i :: 0 <= i < fork ==> a[i] == b[i];
    assert a[fork].id != b[fork].id;
  }

  /** A peer that holds one chain and answers as the program does. */
  function Server(chain: seq<Event>): Peer {
    (i: nat, locator: seq<Hash>, limit: int) => Serve(chain, locator, limit)
  }

  /** Whatever the receiver makes of what the events say. */
  lemma ServerIsHonest(length: nat, fork: nat, tag: bool, checks: Checks)
    requires Admissible(Branch(length, fork, tag), checks)
    ensures HonestPeer(Server(Branch(length, fork, tag)), (i: nat) => Branch(length, fork, tag), checks)
    ensures ObeysForkRule(Server(Branch(length, fork, tag)))
  {
    BranchIsGood(length, fork, tag);
    HonestPeersObeyForkRule(Server(Branch(length, fork, tag)), (i: nat) => Branch(length, fork, tag), checks);
  }

  /** 264 local events and 265 at the peer, the first 128 shared: a sync with the program's page limit
      reports success and keeps the local branch. */
  lemma UnnoticedForkExists()
    ensures var local, peer := Branch(264, 128, false), Server(Branch(265, 128, true));
            && ObeysForkRule(peer)
            && var r := Sync(local, 0, 0, 0, peer, LENIENT, PAGE_LIMIT, 5);
               r.ok && r.chain == local && !(local <= Branch(265, 128, true)) && !(Branch(265, 128, true) <= local)
  {
    BranchIsGood(264, 128, false);
    ServerIsHonest(265, 128, true, LENIENT);
    BranchesAgreeOnIds(264, 265, 128);
    BranchesShare(264, 265, 128);
    DeepForkGoesUnnoticed(Branch(264, 128, false), Server(Branch(265, 128, true)), (i: nat) => Branch(265, 128, true),
                          LENIENT, 5);
  }

  /** A page limit of 501 against a peer with 501 events: the sync from scratch reports success with 500. */
  lemma EarlyStopExists()
    ensures var peer := Server(Branch(501, 0, false));
            && ObeysForkRule(peer)
            && var r := Sync([], 0, 0, 0, peer, LENIENT, 501, 5); r.ok && r.chain != Branch(501, 0, false)
  {
    var chain := Branch(501, 0, false);
    ServerIsHonest(501, 0, false, LENIENT);
    assert chain[..0] == [];
    LargePagesStopEarly(0, Server(chain), (i: nat) => chain, LENIENT, 501, 5);
  }

  // ---- events the client refuses ----

  /** Checks that refuse the events of author 0: too old by now, say. In a branch that is the first event. */
  const REFUSING: Checks :=
    Checks((e: Event) => true, (chain: seq<Event>, e: Event) => e.author != 0, (h: Hash) => false)

  lemma NothingSharedDiverges(local: seq<Event>, peer: seq<Event>)
    requires local != [] && Shared(local, peer) == 0
    ensures Meet(local, peer) == Diverged
  {
  }

  /** One local event, two at the peer, nothing in common, and the peer's first event too old: the local chain is
      wiped, the sync fails, and the client is left with nothing. */
  lemma WipedForNothing()
    ensures var local, peer := Branch(1, 0, false), Server(Branch(2, 0, true));
            && ObeysForkRule(peer)
            && var r := Sync(local, 0, 0, 0, peer, REFUSING, PAGE_LIMIT, 5);
               !r.ok && r.reason == RejectedEvents && r.chain == [] && r.resets == 1
  {
    var local, chain := Branch(1, 0, false), Branch(2, 0, true);
    BranchIsGood(1, 0, false);
    ServerIsHonest(2, 0, true, REFUSING);
    BranchesAgreeOnIds(1, 2, 0);
    BranchesShare(1, 2, 0);
    NothingSharedDiverges(local, chain);
    ResetLosesIff(local, Server(chain), (i: nat) => chain, REFUSING, PAGE_LIMIT, 5);
  }
}
