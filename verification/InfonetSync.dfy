/** Fork-aware pull sync: the block locator, the server's answer to it, and the client loop
    `_sync_from_peer` of backend/main.py. */
module InfonetSync {
  import opened InfonetChain

  // ---- the locator ----

  /** The heights `get_locator` samples from `idx` down, with room for `room` of them: ten in a row,
      then with doubling distance. */
  function Samples(idx: int, step: nat, count: nat, room: int): seq<nat>
    requires step > 0
    decreases room
  {
    if idx < 0 || room <= 0 then []
    else
      var next := if count >= 9 then step * 2 else step;
      [idx] + Samples(idx - next, next, count + 1, room - 1)
  }

  function Ids(chain: seq<Event>, heights: seq<nat>): (r: seq<Hash>)
    requires forall i :: 0 <= i < |heights| ==> heights[i] < |chain|
    ensures |r| == |heights|
  {
    seq(|heights|, i requires 0 <= i < |heights| => chain[heights[i]].id)
  }

  lemma {:induction false} SamplesFall(idx: int, step: nat, count: nat, room: int)
    requires step > 0
    ensures var s := Samples(idx, step, count, room);
            && (forall i :: 0 <= i < |s| ==> s[i] <= idx)
            && (forall i, j :: 0 <= i < j < |s| ==> s[j] < s[i])
            && (idx >= 0 && room > 0 ==> |s| > 0 && s[0] == idx)
            && |s| <= Max(0, room)
    decreases room
  {
    if idx >= 0 && room > 0 {
      var next := if count >= 9 then step * 2 else step;
      SamplesFall(idx - next, next, count + 1, room - 1);
    }
  }

  /** The last ten heights are all sampled. */
  lemma {:induction false} SamplesAreDense(idx: int, count: nat, room: int, h: nat)
    requires count <= 9 && room >= 10 - count
    requires idx - (9 - count) <= h <= idx
    ensures h in Samples(idx, 1, count, room)
    decreases 9 - count
  {
    if h < idx { SamplesAreDense(idx - 1, count + 1, room - 1, h); }
  }

  function LocatorHeights(length: nat, maxEntries: int): seq<nat> {
    Samples(length - 1, 1, 0, maxEntries - 1)
  }

  function Locator(chain: seq<Event>, maxEntries: int): seq<Hash> {
    if chain == [] then [Genesis]
    else
      SamplesFall(|chain| - 1, 1, 0, maxEntries - 1);
      Ids(chain, LocatorHeights(|chain|, maxEntries)) + [Genesis]
  }

  const MAX_LOCATOR := 32

  // ---- the server ----

  /** Where the chain holds `id`; the id index of the program. */
  function IndexOf(chain: seq<Event>, id: Hash, n: nat): (i: nat)
    requires n <= |chain| && exists j :: 0 <= j < n && chain[j].id == id
    ensures i < n && chain[i].id == id
  {
    if chain[n - 1].id == id then n - 1 else IndexOf(chain, id, n - 1)
  }

  datatype Match = NoMatch | GenesisMatch | At(height: nat)

  /** The first entry, from `j` on, that the chain holds. */
  function FindMatch(chain: seq<Event>, locator: seq<Hash>, j: nat): (m: Match)
    requires j <= |locator|
    ensures m.At? ==> m.height < |chain|
    decreases |locator| - j
  {
    if j == |locator| then NoMatch
    else if locator[j] == Genesis then GenesisMatch
    else if Known(chain, locator[j]) then At(IndexOf(chain, locator[j], |chain|))
    else FindMatch(chain, locator, j + 1)
  }

  function Clamp(limit: int): int { Max(1, Min(500, limit)) }

  function Page(chain: seq<Event>, start: nat, limit: nat): seq<Event>
    requires start <= |chain|
  {
    chain[start..Min(start + limit, |chain|)]
  }

  /** What a peer answers. Everything but a 200 with a list of events ends the sync. */
  datatype Reply = Answer(forked: bool, events: seq<Event>) | RateLimited(retryAfter: int) | NotAList | Failure

  /** `get_events_after_locator` followed by the fork rule of `infonet_sync_post`. */
  function Serve(chain: seq<Event>, locator: seq<Hash>, limit: int): Reply {
    var wanted := if locator == [] then [Genesis] else locator;
    match FindMatch(chain, wanted, 0)
    case NoMatch => Answer(true, [])
    case GenesisMatch => Answer(|locator| > 1, Page(chain, 0, Clamp(limit)))
    case At(h) => Answer(false, Page(chain, h + 1, Clamp(limit)))
  }

  // ---- the client ----

  /** Asks for request number `i` with a locator and a limit. */
  type Peer = (nat, seq<Hash>, int) -> Reply

  datatype Reason = Fine | EmptyPage | NothingNew | ShortPage | RoundsUsed
                  | Limited | NotListed | ForkDetected | RejectedEvents | PeerFailed

  datatype Outcome = Outcome(ok: bool, forked: bool, retryAfter: int, reason: Reason,
                             chain: seq<Event>, requests: nat, resets: nat)

  /** The fork rule: a one-entry locator is never answered with a fork. */
  ghost predicate ObeysForkRule(peer: Peer) {
    forall i, limit :: peer(i, [Genesis], limit).Answer? ==> !peer(i, [Genesis], limit).forked
  }

  /** `_sync_from_peer`, from a state inside the loop. */
  function Sync(chain: seq<Event>, rounds: nat, requests: nat, resets: nat, peer: Peer, checks: Checks,
                pageLimit: int, maxRounds: int): Outcome
    requires ObeysForkRule(peer)
    decreases Max(0, maxRounds - rounds), |chain|
  {
    if rounds >= maxRounds then Outcome(true, false, 0, RoundsUsed, chain, requests, resets)
    else
      match peer(requests, Locator(chain, MAX_LOCATOR), pageLimit)
      case RateLimited(retry) => Outcome(false, false, retry, Limited, chain, requests + 1, resets)
      case Failure => Outcome(false, false, 0, PeerFailed, chain, requests + 1, resets)
      case NotAList => Outcome(false, false, 0, NotListed, chain, requests + 1, resets)
      case Answer(forked, events) =>
        if forked then
          if |chain| < 20 then Sync([], rounds, requests + 1, resets + 1, peer, checks, pageLimit, maxRounds)
          else Outcome(false, true, 0, ForkDetected, chain, requests + 1, resets)
        else if events == [] then Outcome(true, false, 0, EmptyPage, chain, requests + 1, resets)
        else
          var t := Ingest(chain, events, checks, |events|);
          if t.rejected > 0 then Outcome(false, false, 0, RejectedEvents, t.chain, requests + 1, resets)
          else if t.accepted == 0 && t.duplicates >= |events| then
            Outcome(true, false, 0, NothingNew, t.chain, requests + 1, resets)
          else if |events| < pageLimit then Outcome(true, false, 0, ShortPage, t.chain, requests + 1, resets)
          else Sync(t.chain, rounds + 1, requests + 1, resets, peer, checks, pageLimit, maxRounds)
  }

  /** A client loop, as a function of the chain, the rounds, the requests and the resets so far. */
  type Client = (seq<Event>, nat, nat, nat) -> Outcome

  /** The loop of `_sync_from_peer`. */
  function ClientOf(peer: Peer, checks: Checks, pageLimit: int, maxRounds: int): Client
    requires ObeysForkRule(peer)
  {
    (chain: seq<Event>, rounds: nat, requests: nat, resets: nat) =>
      Sync(chain, rounds, requests, resets, peer, checks, pageLimit, maxRounds)
  }

  /** A chain that grew by events that passed all checks. */
  ghost predicate Grown(longer: seq<Event>, chain: seq<Event>, checks: Checks) {
    GoodChain(longer) && chain <= longer && PassedFrom(longer, checks, |chain|)
  }

  /** The state a sync started from, and what may have become of it. */
  ghost predicate SafeEnding(r: Outcome, chain: seq<Event>, roundsLeft: nat, requests: nat, resets: nat,
                             checks: Checks) {
    && Grown(r.chain, if r.resets == resets then chain else [], checks)
    && resets <= r.resets <= resets + roundsLeft + (if |chain| > 0 then 1 else 0)
    && requests <= r.requests <= requests + roundsLeft + (r.resets - resets)
    && (|chain| >= 20 ==> r.resets == resets)
    && (r.forked ==> !r.ok && |r.chain| >= 20)
  }

  /** What one turn of the loop may do: stop, start over from nothing, or go on with a longer chain. */
  ghost predicate SafeTurn(sync: Client, checks: Checks, maxRounds: int, chain: seq<Event>, rounds: nat, requests: nat,
                           resets: nat) {
    var r := sync(chain, rounds, requests, resets);
    if rounds >= maxRounds then r == Outcome(true, false, 0, RoundsUsed, chain, requests, resets)
    else
      || StopsSafely(r, chain, requests, resets, checks)
      || (0 < |chain| < 20 && r == sync([], rounds, requests + 1, resets + 1))
      || exists longer :: Grown(longer, chain, checks) && r == sync(longer, rounds + 1, requests + 1, resets)
  }

  ghost predicate StopsSafely(r: Outcome, chain: seq<Event>, requests: nat, resets: nat, checks: Checks) {
    && Grown(r.chain, chain, checks) && r.requests == requests + 1 && r.resets == resets
    && (r.forked ==> !r.ok && |r.chain| >= 20)
  }

  lemma SyncTurnsSafely(chain: seq<Event>, rounds: nat, requests: nat, resets: nat, peer: Peer, checks: Checks,
                        pageLimit: int, maxRounds: int)
    requires ObeysForkRule(peer) && GoodChain(chain) && HashesAreDigests(checks)
    ensures SafeTurn(ClientOf(peer, checks, pageLimit, maxRounds), checks, maxRounds, chain, rounds, requests, resets)
  {
    var reply := peer(requests, Locator(chain, MAX_LOCATOR), pageLimit);
    assert Grown(chain, chain, checks);
    if reply.Answer? && !reply.forked {
      IngestIsSafe(chain, reply.events, checks, |reply.events|);
      assert Grown(Ingest(chain, reply.events, checks, |reply.events|).chain, chain, checks);
    }
  }

  lemma SafeAfterReset(r: Outcome, chain: seq<Event>, left: nat, requests: nat, resets: nat, checks: Checks)
    requires SafeEnding(r, [], left, requests + 1, resets + 1, checks) && 0 < |chain| < 20
    ensures SafeEnding(r, chain, left, requests, resets, checks)
  {
  }

  lemma SafeAfterPage(r: Outcome, chain: seq<Event>, longer: seq<Event>, left: nat, requests: nat, resets: nat,
                      checks: Checks)
    requires left > 0 && Grown(longer, chain, checks) && SafeEnding(r, longer, left - 1, requests + 1, resets, checks)
    ensures SafeEnding(r, chain, left, requests, resets, checks)
  {
    if r.resets == resets { PassedJoins(r.chain, longer, checks, |chain|); }
  }

  lemma PassedJoins(chain: seq<Event>, prefix: seq<Event>, checks: Checks, r: nat)
    requires prefix <= chain && PassedFrom(prefix, checks, r) && PassedFrom(chain, checks, |prefix|)
    ensures PassedFrom(chain, checks, r)
  {
    forall k | r <= k < |prefix| ensures chain[..k] == prefix[..k] && chain[k] == prefix[k] { }
  }

  ghost predicate TurnsSafely(sync: Client, checks: Checks, maxRounds: int) {
    forall chain, rounds: nat, requests: nat, resets: nat :: GoodChain(chain) ==>
      SafeTurn(sync, checks, maxRounds, chain, rounds, requests, resets)
  }

  lemma {:induction false} TurnsEndSafely(sync: Client, checks: Checks, maxRounds: int, chain: seq<Event>, rounds: nat,
                                          requests: nat, resets: nat)
    requires TurnsSafely(sync, checks, maxRounds) && GoodChain(chain)
    ensures SafeEnding(sync(chain, rounds, requests, resets), chain, Max(0, maxRounds - rounds), requests, resets,
                       checks)
    decreases Max(0, maxRounds - rounds), |chain|
  {
    var r := sync(chain, rounds, requests, resets);
    assert SafeTurn(sync, checks, maxRounds, chain, rounds, requests, resets);
    if rounds < maxRounds && !StopsSafely(r, chain, requests, resets, checks) {
      if 0 < |chain| < 20 && r == sync([], rounds, requests + 1, resets + 1) {
        TurnsEndSafely(sync, checks, maxRounds, [], rounds, requests + 1, resets + 1);
        SafeAfterReset(r, chain, maxRounds - rounds, requests, resets, checks);
      } else {
        var longer :| Grown(longer, chain, checks) && r == sync(longer, rounds + 1, requests + 1, resets);
        TurnsEndSafely(sync, checks, maxRounds, longer, rounds + 1, requests + 1, resets);
        SafeAfterPage(r, chain, longer, maxRounds - rounds, requests, resets, checks);
      }
    }
  }

  /** Whatever a peer that obeys the fork rule sends: one request per round and per reset (and one more at most); the
      local chain stays good and gets only events that passed the checks; it extends the old chain unless it was
      reset; and a chain of 20 events or more is never reset. */
  lemma SyncIsSafe(chain: seq<Event>, rounds: nat, requests: nat, resets: nat, peer: Peer, checks: Checks,
                   pageLimit: int, maxRounds: int)
    requires ObeysForkRule(peer) && GoodChain(chain) && HashesAreDigests(checks)
    ensures SafeEnding(Sync(chain, rounds, requests, resets, peer, checks, pageLimit, maxRounds), chain,
                       Max(0, maxRounds - rounds), requests, resets, checks)
  {
    var sync := ClientOf(peer, checks, pageLimit, maxRounds);
    forall c, n: nat, i: nat, k: nat | GoodChain(c) ensures SafeTurn(sync, checks, maxRounds, c, n, i, k) {
      SyncTurnsSafely(c, n, i, k, peer, checks, pageLimit, maxRounds);
    }
    TurnsEndSafely(sync, checks, maxRounds, chain, rounds, requests, resets);
  }

  // ---- what the client is told, and why ----

  /** What the reply to the last request means for the answer, when it was asked with the chain `before`. A rate limit
      is passed on with its waiting time; every other ending has none. It is well only after an unforked list that
      held nothing to reject and was empty, or all known, or shorter than the limit. */
  ghost predicate ToldBy(r: Outcome, before: seq<Event>, reply: Reply, checks: Checks, limit: int) {
    match reply
    case RateLimited(wait) => !r.ok && !r.forked && r.retryAfter == wait && r.reason == Limited && r.chain == before
    case Failure => !r.ok && !r.forked && r.retryAfter == 0 && r.reason == PeerFailed && r.chain == before
    case NotAList => !r.ok && !r.forked && r.retryAfter == 0 && r.reason == NotListed && r.chain == before
    case Answer(forked, events) =>
      && r.retryAfter == 0
      && if forked then !r.ok && r.forked && r.reason == ForkDetected && r.chain == before && |before| >= 20
         else
           var t := Ingest(before, events, checks, |events|);
           && !r.forked && r.chain == t.chain
           && (r.ok <==> t.rejected == 0)
           && (r.reason == RejectedEvents <==> t.rejected > 0)
           && (r.ok ==> events == [] || t.duplicates == |events| || |events| < limit)
           && (r.reason == EmptyPage <==> events == [])
           && (r.reason == NothingNew <==> events != [] && t.duplicates == |events|)
           && r.reason != RoundsUsed
  }

  /** The rounds were used up, or the last of the requests made since number `requests` tells. */
  ghost predicate Told(r: Outcome, left: nat, requests: nat, resets: nat, peer: Peer, checks: Checks, limit: int) {
    if r.reason == RoundsUsed then
      r.ok && !r.forked && r.retryAfter == 0 && r.requests - requests == left + r.resets - resets
    else
      && r.requests > requests
      && (exists before :: ToldBy(r, before, peer(r.requests - 1, Locator(before, MAX_LOCATOR), limit), checks, limit))
  }

  lemma ToldHere(r: Outcome, before: seq<Event>, left: nat, requests: nat, resets: nat, peer: Peer, checks: Checks,
                 limit: int)
    requires r.requests == requests + 1 && r.reason != RoundsUsed
    requires ToldBy(r, before, peer(requests, Locator(before, MAX_LOCATOR), limit), checks, limit)
    ensures Told(r, left, requests, resets, peer, checks, limit)
  {
    assert peer(r.requests - 1, Locator(before, MAX_LOCATOR), limit)
      == peer(requests, Locator(before, MAX_LOCATOR), limit);
  }

  lemma ToldLater(r: Outcome, left: nat, more: nat, requests: nat, resets: nat, again: nat, peer: Peer, checks: Checks,
                  limit: int)
    requires Told(r, left, requests + 1, resets + again, peer, checks, limit) && left + 1 == more + again
    ensures Told(r, more, requests, resets, peer, checks, limit)
  {
  }

  lemma {:induction false} TallyAddsUp(chain: seq<Event>, page: seq<Event>, checks: Checks, n: nat)
    requires n <= |page|
    ensures var t := Ingest(chain, page, checks, n); t.accepted + t.duplicates + t.rejected == n
  {
    if n > 0 { TallyAddsUp(chain, page, checks, n - 1); }
  }

  /** One turn of the loop: it is out of rounds, or the reply tells, or it starts over or goes on. */
  ghost predicate ToldTurn(sync: Client, peer: Peer, checks: Checks, limit: int, maxRounds: int, chain: seq<Event>,
                           rounds: nat, requests: nat, resets: nat) {
    var r := sync(chain, rounds, requests, resets);
    if rounds >= maxRounds then r == Outcome(true, false, 0, RoundsUsed, chain, requests, resets)
    else
      || (r.requests == requests + 1 && r.reason != RoundsUsed
          && ToldBy(r, chain, peer(requests, Locator(chain, MAX_LOCATOR), limit), checks, limit))
      || (chain != [] && r == sync([], rounds, requests + 1, resets + 1))
      || exists longer :: NextRound(sync, r, longer, rounds, requests, resets)
  }

  ghost predicate NextRound(sync: Client, r: Outcome, longer: seq<Event>, rounds: nat, requests: nat, resets: nat) {
    r == sync(longer, rounds + 1, requests + 1, resets)
  }

  lemma SyncToldTurn(chain: seq<Event>, rounds: nat, requests: nat, resets: nat, peer: Peer, checks: Checks,
                     pageLimit: int, maxRounds: int)
    requires ObeysForkRule(peer)
    ensures ToldTurn(ClientOf(peer, checks, pageLimit, maxRounds), peer, checks, pageLimit, maxRounds, chain, rounds,
                     requests, resets)
  {
    var reply := peer(requests, Locator(chain, MAX_LOCATOR), pageLimit);
    if reply.Answer? {
      var sync, t := ClientOf(peer, checks, pageLimit, maxRounds), Ingest(chain, reply.events, checks, |reply.events|);
      TallyAddsUp(chain, reply.events, checks, |reply.events|);
      if NextRound(sync, sync(chain, rounds, requests, resets), t.chain, rounds, requests, resets) {
        assert exists longer :: NextRound(sync, sync(chain, rounds, requests, resets), longer, rounds, requests,
                                          resets);
      }
    }
  }

  lemma {:induction false} ToldTurns(sync: Client, peer: Peer, checks: Checks, limit: int, maxRounds: int,
                                     chain: seq<Event>, rounds: nat, requests: nat, resets: nat)
    requires forall c, n: nat, i: nat, k: nat :: ToldTurn(sync, peer, checks, limit, maxRounds, c, n, i, k)
    ensures Told(sync(chain, rounds, requests, resets), Max(0, maxRounds - rounds), requests, resets, peer, checks,
                 limit)
    decreases Max(0, maxRounds - rounds), |chain|
  {
    var r := sync(chain, rounds, requests, resets);
    assert ToldTurn(sync, peer, checks, limit, maxRounds, chain, rounds, requests, resets);
    if rounds < maxRounds {
      if chain != [] && r == sync([], rounds, requests + 1, resets + 1) {
        ToldTurns(sync, peer, checks, limit, maxRounds, [], rounds, requests + 1, resets + 1);
        ToldLater(r, maxRounds - rounds, maxRounds - rounds, requests, resets, 1, peer, checks, limit);
      } else if longer :| NextRound(sync, r, longer, rounds, requests, resets) {
        ToldTurns(sync, peer, checks, limit, maxRounds, longer, rounds + 1, requests + 1, resets);
        ToldLater(r, maxRounds - rounds - 1, maxRounds - rounds, requests, resets, 0, peer, checks, limit);
      } else {
        ToldHere(r, chain, maxRounds - rounds, requests, resets, peer, checks, limit);
      }
    }
  }

  /** For every peer that obeys the fork rule, from any chain: why the client is told what it is told. */
  lemma SyncTellsWhy(chain: seq<Event>, rounds: nat, requests: nat, resets: nat, peer: Peer, checks: Checks,
                     pageLimit: int, maxRounds: int)
    requires ObeysForkRule(peer)
    ensures Told(Sync(chain, rounds, requests, resets, peer, checks, pageLimit, maxRounds), Max(0, maxRounds - rounds),
                 requests, resets, peer, checks, pageLimit)
  {
    var sync := ClientOf(peer, checks, pageLimit, maxRounds);
    forall c, n: nat, i: nat, k: nat ensures ToldTurn(sync, peer, checks, pageLimit, maxRounds, c, n, i, k) {
      SyncToldTurn(c, n, i, k, peer, checks, pageLimit, maxRounds);
    }
    ToldTurns(sync, peer, checks, pageLimit, maxRounds, chain, rounds, requests, resets);
  }

  // ---- against an honest, append-only peer ----

  /** The peer's chain at each request: good, only growing, and answering by `Serve`. */
  ghost predicate HonestPeer(peer: Peer, served: nat -> seq<Event>, checks: Checks) {
    && (forall i: nat :: GoodChain(served(i)) && Admissible(served(i), checks))
    && (forall i: nat, j: nat :: i <= j ==> served(i) <= served(j))
    && (forall i, locator, limit :: peer(i, locator, limit) == Serve(served(i), locator, limit))
  }

  lemma HonestPeersObeyForkRule(peer: Peer, served: nat -> seq<Event>, checks: Checks)
    requires HonestPeer(peer, served, checks)
    ensures ObeysForkRule(peer)
  {
    forall i, limit ensures peer(i, [Genesis], limit) == Serve(served(i), [Genesis], limit) { }
  }

  /** The highest sampled height below `d`, if any, as a position in the samples. */
  function FirstBelow(heights: seq<nat>, d: nat, j: nat): (k: nat)
    requires j <= |heights|
    ensures j <= k <= |heights|
    ensures k < |heights| ==> heights[k] < d
    ensures forall i :: j <= i < k ==> heights[i] >= d
    decreases |heights| - j
  {
    if j == |heights| || heights[j] < d then j else FirstBelow(heights, d, j + 1)
  }

  /** Looking the local locator up in the peer's chain finds the highest sample below the fork. */
  lemma {:induction false} MatchIsFirstBelowFork(local: seq<Event>, peer: seq<Event>, heights: seq<nat>, j: nat)
    requires GoodChain(local) && GoodChain(peer) && SameHashSameEvent(local, peer)
    requires j <= |heights| && forall i :: 0 <= i < |heights| ==> heights[i] < |local|
    ensures var k := FirstBelow(heights, Shared(local, peer), j);
            FindMatch(peer, Ids(local, heights) + [Genesis], j) == if k == |heights| then GenesisMatch
              else At(heights[k])
    decreases |heights| - j
  {
    var locator := Ids(local, heights) + [Genesis];
    if j == |heights| {
      assert locator[j] == Genesis;
    } else {
      var h := heights[j];
      assert locator[j] == local[h].id && GoodAt(local, h);
      SharedSymmetric(local, peer, h);
      if h < Shared(local, peer) {
        IndexIsHeight(local, peer, h);
      } else {
        MatchIsFirstBelowFork(local, peer, heights, j + 1);
      }
    }
  }

  lemma SharedSymmetric(local: seq<Event>, peer: seq<Event>, h: nat)
    requires GoodChain(local) && GoodChain(peer) && SameHashSameEvent(local, peer) && h < |local|
    ensures Known(peer, local[h].id) <==> h < Shared(local, peer)
  {
    if h < Shared(local, peer) { assert peer[h] == local[h]; }
    if Known(peer, local[h].id) {
      var j :| 0 <= j < |peer| && peer[j].id == local[h].id;
      SharedHistory(local, peer, h, j);
    }
  }

  lemma IndexIsHeight(local: seq<Event>, peer: seq<Event>, h: nat)
    requires GoodChain(peer) && h < Shared(local, peer)
    ensures Known(peer, local[h].id) && IndexOf(peer, local[h].id, |peer|) == h
  {
    assert peer[h] == local[h];
    var i := IndexOf(peer, local[h].id, |peer|);
  }

  /** A locator that names nothing the server holds, and not the genesis either, is a fork. */
  lemma {:induction false} UnknownLocatorIsFork(chain: seq<Event>, locator: seq<Hash>, j: nat, limit: int)
    requires j <= |locator| && locator != []
    requires forall i :: j <= i < |locator| ==> locator[i] != Genesis && !Known(chain, locator[i])
    ensures FindMatch(chain, locator, j) == NoMatch
    ensures j == 0 ==> Serve(chain, locator, limit) == Answer(true, [])
    decreases |locator| - j
  {
    if j < |locator| { UnknownLocatorIsFork(chain, locator, j + 1, limit); }
  }

  /** One request, classified. */
  datatype Meeting = Diverged | From(start: nat)

  /** Where the server starts its page for this local chain. */
  function Meet(local: seq<Event>, peer: seq<Event>): Meeting {
    if local == [] then From(0)
    else
      var heights := LocatorHeights(|local|, MAX_LOCATOR);
      var k := FirstBelow(heights, Shared(local, peer), 0);
      if k == |heights| then Diverged else From(heights[k] + 1)
  }

  /** The peer reports a fork exactly when it shares no sampled event; otherwise its page starts
      right behind the highest one it shares. */
  lemma ServeMeets(local: seq<Event>, peer: seq<Event>, limit: int)
    requires GoodChain(local) && GoodChain(peer) && SameHashSameEvent(local, peer)
    ensures var reply := Serve(peer, Locator(local, MAX_LOCATOR), limit);
            match Meet(local, peer)
            case Diverged => reply.Answer? && reply.forked
            case From(start) => start <= Shared(local, peer) && reply == Answer(false, Page(peer, start, Clamp(limit)))
  {
    if local != [] {
      var heights := LocatorHeights(|local|, MAX_LOCATOR);
      SamplesFall(|local| - 1, 1, 0, MAX_LOCATOR - 1);
      MatchIsFirstBelowFork(local, peer, heights, 0);
    }
  }

  /** A prefix of the peer's chain is always met at its own end. */
  lemma PrefixMeetsAtEnd(local: seq<Event>, peer: seq<Event>)
    requires Shared(local, peer) == |local|
    ensures Meet(local, peer) == From(|local|)
  {
    SamplesFall(|local| - 1, 1, 0, MAX_LOCATOR - 1);
  }

  // ---- one round ----

  lemma PageAt(peer: seq<Event>, start: nat, limit: nat)
    requires start <= |peer|
    ensures start + |Page(peer, start, limit)| == Min(start + limit, |peer|)
    ensures forall i :: 0 <= i < |Page(peer, start, limit)| ==> Page(peer, start, limit)[i] == peer[start + i]
  {
  }

  lemma SharedOfPrefix(peer: seq<Event>, n: nat)
    requires n <= |peer|
    ensures Shared(peer[..n], peer) == n
  {
    assert forall k :: 0 <= k < n ==> peer[..n][k] == peer[k];
  }

  /** Where a page ends that is read at height `n`. */
  function PageEnd(peer: seq<Event>, n: nat, limit: int): (m: nat)
    ensures n <= m
  {
    Max(n, Min(n + Clamp(limit), |peer|))
  }

  /** A reply with the peer's events `n` to `m`, which a client with `n` of them takes up to height `stop`. */
  ghost predicate PageArrives(n: nat, m: nat, top: seq<Event>, stop: nat, reply: Reply, checks: Checks) {
    && n <= m <= |top| && n <= stop <= |top|
    && reply.Answer? && !reply.forked && |reply.events| == m - n
    && Ingest(top[..n], reply.events, checks, m - n)
       == Tally(top[..Min(stop, m)], Min(stop, m) - n, 0, Max(0, m - stop))
  }

  /** A client that holds a prefix of the peer's chain gets the next page and appends it up to the first event it
      refuses. */
  lemma RoundFromPrefix(peer: seq<Event>, n: nat, checks: Checks, limit: int)
    requires GoodChain(peer) && Admissible(peer, checks) && n <= |peer|
    ensures PageArrives(n, PageEnd(peer, n, limit), peer, FirstRefused(peer, checks, n),
                        Serve(peer, Locator(peer[..n], MAX_LOCATOR), limit), checks)
  {
    ServedAtPrefix(peer, n, limit);
    PageArrivesThere(peer, n, checks, limit);
  }

  lemma PageArrivesThere(peer: seq<Event>, n: nat, checks: Checks, limit: int)
    requires GoodChain(peer) && Admissible(peer, checks) && n <= |peer|
    ensures PageArrives(n, PageEnd(peer, n, limit), peer, FirstRefused(peer, checks, n),
                        Answer(false, Page(peer, n, Clamp(limit))), checks)
  {
    var m := PageEnd(peer, n, limit);
    assert Page(peer, n, Clamp(limit)) == peer[n..m];
    SliceAtPrefix(peer, n, n, m, checks);
    IsPageArrives(n, m, peer, FirstRefused(peer, checks, n), checks);
  }

  lemma IsPageArrives(n: nat, m: nat, peer: seq<Event>, stop: nat, checks: Checks)
    requires n <= m <= |peer| && n <= stop <= |peer|
    requires TakenUpTo(Ingest(peer[..n], peer[n..m], checks, m - n), peer, stop, n, n, m)
    ensures PageArrives(n, m, peer, stop, Answer(false, peer[n..m]), checks)
  {
  }

  lemma ServedAtPrefix(peer: seq<Event>, n: nat, limit: int)
    requires GoodChain(peer) && n <= |peer|
    ensures Serve(peer, Locator(peer[..n], MAX_LOCATOR), limit) == Answer(false, Page(peer, n, Clamp(limit)))
  {
    GoodPrefix(peer, n);
    SharedOfPrefix(peer, n);
    PrefixMeetsAtEnd(peer[..n], peer);
    PrefixSameEvents(peer, n);
    ServeMeets(peer[..n], peer, limit);
  }

  lemma PrefixSameEvents(peer: seq<Event>, n: nat)
    requires n <= |peer| && DistinctIds(peer)
    ensures SameHashSameEvent(peer[..n], peer)
  {
  }

  // ---- the whole loop ----

  /** How far a client at height `n` reads in `left` rounds, from request `i` on, if it takes everything: a page a
      round, until one is empty or looks short. What it refuses plays no part. */
  function ReadTo(served: nat -> seq<Event>, n: nat, i: nat, left: nat, limit: int): (m: nat)
    ensures n <= m
    decreases left
  {
    if left == 0 then n
    else
      var m := PageEnd(served(i), n, limit);
      if m == n || m - n < limit then m else ReadTo(served, m, i + 1, left - 1, limit)
  }

  /** The end of a sync from height `n` of the peer's chain, with `left` rounds to use. `top` is a later state of that
      chain and `stop` the first height the client refuses: it keeps what lies below `stop` of all it would
      read, and is told that all is well exactly when it read nothing else. */
  ghost predicate Ending(r: Outcome, top: seq<Event>, stop: nat, n: nat, left: nat, requests: nat, resets: nat,
                         served: nat -> seq<Event>, limit: int) {
    var reach := ReadTo(served, n, requests, left, limit);
    && reach <= |top| && r.chain == top[..Min(stop, reach)]
    && (r.ok <==> reach <= stop)
    && !r.forked && r.retryAfter == 0 && r.resets == resets && requests <= r.requests <= requests + left
    && (if r.ok then WellEnded(r, n, left, served, limit) else r.reason == RejectedEvents)
  }

  /** An ending without rejections: all of the chain as last served when it stopped on an empty page, or on a short
      page of at most 500; otherwise a full page per round. */
  ghost predicate WellEnded(r: Outcome, n: nat, left: nat, served: nat -> seq<Event>, limit: int) {
    && r.reason in {EmptyPage, ShortPage, RoundsUsed}
    && (r.reason == EmptyPage || (r.reason == ShortPage && limit <= 500) ==>
          r.requests > 0 && r.chain == served(r.requests - 1))
    && (r.reason == RoundsUsed ==> |r.chain| == n + left * Clamp(limit))
  }

  /** One round of the client at height `n`: it is out of rounds, or reads a page and takes it up to `stop`. */
  ghost predicate TurnsPage(sync: Client, served: nat -> seq<Event>, top: seq<Event>, stop: nat, limit: int,
                            maxRounds: int, n: nat, rounds: nat, requests: nat, resets: nat)
    requires n <= stop <= |top|
  {
    var r, m := sync(top[..n], rounds, requests, resets), PageEnd(served(requests), n, limit);
    if rounds >= maxRounds then r == Outcome(true, false, 0, RoundsUsed, top[..n], requests, resets)
    else
      && m <= |top|
      && r == if m == n then Outcome(true, false, 0, EmptyPage, top[..n], requests + 1, resets)
              else if stop < m then Outcome(false, false, 0, RejectedEvents, top[..stop], requests + 1, resets)
              else if m - n < limit then Outcome(true, false, 0, ShortPage, top[..m], requests + 1, resets)
              else sync(top[..m], rounds + 1, requests + 1, resets)
  }

  /** The rounds never need a request from `last` on. */
  ghost predicate InTime(rounds: nat, requests: nat, maxRounds: int, last: nat) {
    requests + Max(0, maxRounds - rounds) <= last
  }

  /** At every height from `n0` up to `stop`. */
  ghost predicate TurnsPages(sync: Client, served: nat -> seq<Event>, last: nat, n0: nat, stop: nat, limit: int,
                             maxRounds: int)
    requires stop <= |served(last)|
  {
    forall n: nat, rounds: nat, requests: nat, resets: nat ::
      n0 <= n <= stop && n <= |served(requests)| && InTime(rounds, requests, maxRounds, last) ==>
        TurnsPage(sync, served, served(last), stop, limit, maxRounds, n, rounds, requests, resets)
  }

  /** What arrives of the chain as it is now arrives of any later state of it. */
  lemma PageArrivesLater(n: nat, m: nat, now: seq<Event>, top: seq<Event>, stop: nat, reply: Reply, checks: Checks)
    requires now <= top && n <= stop <= |top|
    requires PageArrives(n, m, now, Min(stop, |now|), reply, checks)
    ensures PageArrives(n, m, top, stop, reply, checks)
  {
    PrefixGrows(now, top, n);
    PrefixGrows(now, top, Min(stop, m));
  }

  lemma PrefixGrows(a: seq<Event>, b: seq<Event>, n: nat)
    requires a <= b && n <= |a|
    ensures a[..n] == b[..n]
  {
  }

  lemma PageArrivesFromHonestPeer(n0: nat, n: nat, now: seq<Event>, top: seq<Event>, checks: Checks, limit: int)
    requires GoodChain(now) && Admissible(now, checks) && now <= top
    requires n0 <= n <= |now| && n <= FirstRefused(top, checks, n0)
    ensures PageArrives(n, PageEnd(now, n, limit), top, FirstRefused(top, checks, n0),
                        Serve(now, Locator(top[..n], MAX_LOCATOR), limit), checks)
  {
    RoundFromPrefix(now, n, checks, limit);
    FirstRefusedAgain(now, top, checks, n0, n);
    PrefixGrows(now, top, n);
    PageArrivesLater(n, PageEnd(now, n, limit), now, top, FirstRefused(top, checks, n0),
                     Serve(now, Locator(now[..n], MAX_LOCATOR), limit), checks);
  }

  lemma SyncTurnsPage(n: nat, rounds: nat, requests: nat, resets: nat, peer: Peer, served: nat -> seq<Event>,
                      top: seq<Event>, stop: nat, checks: Checks, pageLimit: int, maxRounds: int)
    requires ObeysForkRule(peer) && n <= stop <= |top|
    requires rounds < maxRounds ==>
               PageArrives(n, PageEnd(served(requests), n, pageLimit), top, stop,
                           peer(requests, Locator(top[..n], MAX_LOCATOR), pageLimit), checks)
    ensures TurnsPage(ClientOf(peer, checks, pageLimit, maxRounds), served, top, stop, pageLimit, maxRounds, n, rounds,
                      requests, resets)
  {
  }

  lemma SyncTurnsPages(n0: nat, peer: Peer, served: nat -> seq<Event>, last: nat, checks: Checks, pageLimit: int,
                       maxRounds: int)
    requires HonestPeer(peer, served, checks) && ObeysForkRule(peer) && n0 <= |served(last)|
    ensures TurnsPages(ClientOf(peer, checks, pageLimit, maxRounds), served, last, n0,
                       FirstRefused(served(last), checks, n0), pageLimit, maxRounds)
  {
    var top, stop := served(last), FirstRefused(served(last), checks, n0);
    forall n: nat, rounds: nat, requests: nat, resets: nat
      | n0 <= n <= stop && n <= |served(requests)| && InTime(rounds, requests, maxRounds, last)
      ensures TurnsPage(ClientOf(peer, checks, pageLimit, maxRounds), served, top, stop, pageLimit, maxRounds, n,
                        rounds, requests, resets)
    {
      if rounds < maxRounds {
        assert served(requests) <= served(last);
        PageArrivesFromHonestPeer(n0, n, served(requests), top, checks, pageLimit);
      }
      SyncTurnsPage(n, rounds, requests, resets, peer, served, top, stop, checks, pageLimit, maxRounds);
    }
  }

  /** A page taken whole leaves the rest of the way as it was. */
  lemma EndingAfterPage(r: Outcome, top: seq<Event>, stop: nat, n: nat, m: nat, left: nat, requests: nat, resets: nat,
                        served: nat -> seq<Event>, limit: int)
    requires left > 0 && n < m == PageEnd(served(requests), n, limit) && m - n >= limit
    requires Ending(r, top, stop, m, left - 1, requests + 1, resets, served, limit)
    ensures Ending(r, top, stop, n, left, requests, resets, served, limit)
  {
    PageArithmetic(left, Clamp(limit));
  }

  lemma PageArithmetic(rounds: int, c: int)
    ensures c + (rounds - 1) * c == rounds * c
  {
  }

  lemma {:induction false} ReadToBounded(served: nat -> seq<Event>, n: nat, i: nat, left: nat, limit: int, last: nat)
    requires forall i: nat, j: nat :: i <= j ==> served(i) <= served(j)
    requires n <= |served(i)| && i + left <= last
    ensures ReadTo(served, n, i, left, limit) <= |served(last)|
    decreases left
  {
    assert served(i) <= served(last);
    if left > 0 {
      var m := PageEnd(served(i), n, limit);
      assert served(i) <= served(i + 1);
      ReadToBounded(served, m, i + 1, left - 1, limit, last);
    }
  }

  /** A page that is empty, short or refused ends the sync. */
  lemma EndingHere(r: Outcome, served: nat -> seq<Event>, top: seq<Event>, stop: nat, limit: int, n: nat, left: nat,
                   requests: nat, resets: nat)
    requires left > 0 && n <= stop && n <= |served(requests)| && served(requests) <= top
    requires ReadTo(served, n, requests, left, limit) <= |top|
    requires var m := PageEnd(served(requests), n, limit);
             && m <= |top| && (m == n || stop < m || m - n < limit)
             && stop <= |top|
             && r == if m == n then Outcome(true, false, 0, EmptyPage, top[..n], requests + 1, resets)
                     else if stop < m then Outcome(false, false, 0, RejectedEvents, top[..stop], requests + 1, resets)
                     else Outcome(true, false, 0, ShortPage, top[..m], requests + 1, resets)
    ensures Ending(r, top, stop, n, left, requests, resets, served, limit)
  {
  }

  lemma {:induction false} PagesEnd(sync: Client, served: nat -> seq<Event>, last: nat, n0: nat, stop: nat, limit: int,
                                    maxRounds: int, n: nat, rounds: nat, requests: nat, resets: nat)
    requires stop <= |served(last)| && TurnsPages(sync, served, last, n0, stop, limit, maxRounds)
    requires forall i: nat, j: nat :: i <= j ==> served(i) <= served(j)
    requires n0 <= n <= stop && n <= |served(requests)| && InTime(rounds, requests, maxRounds, last)
    ensures Ending(sync(served(last)[..n], rounds, requests, resets), served(last), stop, n, Max(0, maxRounds - rounds),
                   requests, resets, served, limit)
    decreases Max(0, maxRounds - rounds)
  {
    var top, m := served(last), PageEnd(served(requests), n, limit);
    assert TurnsPage(sync, served, top, stop, limit, maxRounds, n, rounds, requests, resets);
    if rounds < maxRounds {
      assert served(requests) <= served(requests + 1) && served(requests) <= top;
      if m == n || stop < m || m - n < limit {
        ReadToBounded(served, n, requests, maxRounds - rounds, limit, last);
        EndingHere(sync(top[..n], rounds, requests, resets), served, top, stop, limit, n, maxRounds - rounds, requests,
                   resets);
      } else {
        PagesEnd(sync, served, last, n0, stop, limit, maxRounds, m, rounds + 1, requests + 1, resets);
        EndingAfterPage(sync(top[..n], rounds, requests, resets), top, stop, n, m, maxRounds - rounds, requests, resets,
                        served, limit);
      }
    }
  }

  /** The ending of a sync that is at height `n` of the peer's chain when request number `requests` is next. */
  ghost predicate EndsFrom(r: Outcome, n: nat, left: nat, requests: nat, resets: nat, served: nat -> seq<Event>,
                           checks: Checks, limit: int) {
    var top := served(requests + left);
    n <= |top| && Ending(r, top, FirstRefused(top, checks, n), n, left, requests, resets, served, limit)
  }

  /** From a prefix of the peer's chain. */
  lemma SyncFromPrefix(n: nat, rounds: nat, requests: nat, resets: nat, peer: Peer, served: nat -> seq<Event>,
                       checks: Checks, pageLimit: int, maxRounds: int)
    requires HonestPeer(peer, served, checks) && ObeysForkRule(peer)
    requires n <= |served(requests)|
    ensures var r := Sync(served(requests)[..n], rounds, requests, resets, peer, checks, pageLimit, maxRounds);
            EndsFrom(r, n, Max(0, maxRounds - rounds), requests, resets, served, checks, pageLimit)
  {
    var last: nat := requests + Max(0, maxRounds - rounds);
    assert served(requests) <= served(last);
    PrefixGrows(served(requests), served(last), n);
    SyncTurnsPages(n, peer, served, last, checks, pageLimit, maxRounds);
    var sync := ClientOf(peer, checks, pageLimit, maxRounds);
    PagesEnd(sync, served, last, n, FirstRefused(served(last), checks, n), pageLimit, maxRounds, n, rounds, requests,
             resets);
  }

  /** Read from a peer that stands still, with pages of at most 500: the rounds' worth, or all that is left. */
  lemma {:induction false} ReadToOfStill(served: nat -> seq<Event>, chain: seq<Event>, n: nat, i: nat, left: nat,
                                         limit: int)
    requires (forall j: nat :: served(j) == chain) && n <= |chain| && limit <= 500
    ensures ReadTo(served, n, i, left, limit) == Min(|chain|, Room(n, left, limit))
    decreases left
  {
    if left > 0 {
      var m := PageEnd(served(i), n, limit);
      RoomForPage(n, left, limit);
      if m != n && m - n >= limit { ReadToOfStill(served, chain, m, i + 1, left - 1, limit); }
    }
  }

  /** The height that `left` full pages reach from `n`. */
  function Room(n: nat, left: nat, limit: int): (m: nat)
    ensures m == n + left * Clamp(limit)
  {
    RoomForMore(n, left, Clamp(limit));
    n + left * Clamp(limit)
  }

  lemma RoomForMore(n: nat, left: nat, c: nat)
    ensures n <= n + left * c && (left > 0 ==> n + c <= n + left * c)
  {
  }

  lemma RoomForPage(n: nat, left: nat, limit: int)
    requires left > 0
    ensures Room(n, left, limit) >= n + Clamp(limit)
    ensures Room(n, left, limit) == Room(n + Clamp(limit), left - 1, limit)
  {
    RoomForMore(n, left, Clamp(limit));
    PageArithmetic(left, Clamp(limit));
  }

  /** Against a peer that stands still: a sync from the first `n` events is told that all is well exactly when every
      event that the rounds have room for is taken. */
  lemma SyncOfStillPeer(n: nat, peer: Peer, chain: seq<Event>, checks: Checks, pageLimit: int, maxRounds: nat)
    requires HonestPeer(peer, (i: nat) => chain, checks) && ObeysForkRule(peer)
    requires n <= |chain| && pageLimit <= 500
    ensures var r := Sync(chain[..n], 0, 0, 0, peer, checks, pageLimit, maxRounds);
            var reach := Min(|chain|, Room(n, maxRounds, pageLimit));
            && r.chain == chain[..Min(FirstRefused(chain, checks, n), reach)]
            && (r.ok <==> forall k :: n <= k < reach ==> checks.content(chain[..k], chain[k]))
  {
    var served := (i: nat) => chain;
    SyncFromPrefix(n, 0, 0, 0, peer, served, checks, pageLimit, maxRounds);
    ReadToOfStill(served, chain, n, 0, maxRounds, pageLimit);
  }

  /** Asking for more than 500 events makes every full page look short: if nothing on it is refused, the sync reports
      success after one page, whatever is left. */
  lemma LargePagesStopEarly(n: nat, peer: Peer, served: nat -> seq<Event>, checks: Checks, pageLimit: int,
                            maxRounds: int)
    requires HonestPeer(peer, served, checks) && ObeysForkRule(peer)
    requires n <= |served(0)| && pageLimit > 500 && maxRounds > 0
    ensures var r := Sync(served(0)[..n], 0, 0, 0, peer, checks, pageLimit, maxRounds);
            var stop, end := FirstRefused(served(0), checks, n), Min(|served(0)|, n + 500);
            && r.chain == served(0)[..Min(stop, end)]
            && (r.ok <==> end <= stop)
            && (r.ok ==> (r.chain == served(0) <==> |served(0)| <= n + 500))
  {
    var stop := FirstRefused(served(0), checks, n);
    RoundFromPrefix(served(0), n, checks, pageLimit);
    SyncTurnsPage(n, 0, 0, 0, peer, served, served(0), stop, checks, pageLimit, maxRounds);
    LargePageIsLast(ClientOf(peer, checks, pageLimit, maxRounds), served, served(0), stop, pageLimit, maxRounds, n);
  }

  lemma LargePageIsLast(sync: Client, served: nat -> seq<Event>, top: seq<Event>, stop: nat, limit: int, maxRounds: int,
                        n: nat)
    requires n <= stop <= |top| && top == served(0) && limit > 500 && maxRounds > 0
    requires TurnsPage(sync, served, top, stop, limit, maxRounds, n, 0, 0, 0)
    ensures var r, end := sync(top[..n], 0, 0, 0), Min(|top|, n + 500);
            && r.chain == top[..Min(stop, end)]
            && (r.ok <==> end <= stop)
            && (r.ok ==> (r.chain == top <==> |top| <= n + 500))
  {
    assert PageEnd(top, n, limit) == Min(|top|, n + 500);
  }

  /** How a sync from any local chain ends, by where it first meets the peer. */
  ghost predicate EndsAsMet(local: seq<Event>, r: Outcome, served: nat -> seq<Event>, checks: Checks, pageLimit: int,
                            maxRounds: nat) {
    var d := Shared(local, served(0));
    match Meet(local, served(0))
    case Diverged =>
      if |local| < 20 then EndsFrom(r, 0, maxRounds, 1, 1, served, checks, pageLimit)
      else r == Outcome(false, true, 0, ForkDetected, local, 1, 0)
    case From(start) =>
      if d == |local| then EndsFrom(r, |local|, maxRounds, 0, 0, served, checks, pageLimit)
      else
        && r.chain == local && r.requests == 1 && r.resets == 0 && !r.forked
        && (r.ok <==> d == |served(0)| || start + Clamp(pageLimit) <= d)
  }

  lemma SyncClassified(local: seq<Event>, peer: Peer, served: nat -> seq<Event>, checks: Checks, pageLimit: int,
                       maxRounds: nat)
    requires HonestPeer(peer, served, checks) && ObeysForkRule(peer)
    requires GoodChain(local) && SameHashSameEvent(local, served(0)) && maxRounds > 0
    ensures var r := Sync(local, 0, 0, 0, peer, checks, pageLimit, maxRounds);
            EndsAsMet(local, r, served, checks, pageLimit, maxRounds) && r.resets <= 1 && r.requests <= maxRounds + 1
  {
    ServeMeets(local, served(0), pageLimit);
    assert peer(0, Locator(local, MAX_LOCATOR), pageLimit) == Serve(served(0), Locator(local, MAX_LOCATOR), pageLimit);
    if Meet(local, served(0)).Diverged? {
      if |local| < 20 { SyncAfterReset(local, peer, served, checks, pageLimit, maxRounds); }
    } else if Shared(local, served(0)) == |local| {
      SyncOfPrefix(local, peer, served, checks, pageLimit, maxRounds);
    } else {
      SyncOffChain(local, peer, served, checks, Meet(local, served(0)).start, pageLimit, maxRounds);
    }
  }

  lemma SyncOfPrefix(local: seq<Event>, peer: Peer, served: nat -> seq<Event>, checks: Checks, pageLimit: int,
                     maxRounds: nat)
    requires HonestPeer(peer, served, checks) && ObeysForkRule(peer) && Shared(local, served(0)) == |local|
    ensures EndsFrom(Sync(local, 0, 0, 0, peer, checks, pageLimit, maxRounds), |local|, maxRounds, 0, 0, served, checks,
                     pageLimit)
  {
    assert served(0)[..|local|] == local;
    SyncFromPrefix(|local|, 0, 0, 0, peer, served, checks, pageLimit, maxRounds);
  }

  lemma SyncAfterReset(local: seq<Event>, peer: Peer, served: nat -> seq<Event>, checks: Checks, pageLimit: int,
                       maxRounds: nat)
    requires HonestPeer(peer, served, checks) && ObeysForkRule(peer) && maxRounds > 0 && 0 < |local| < 20
    requires peer(0, Locator(local, MAX_LOCATOR), pageLimit).Answer?
             && peer(0, Locator(local, MAX_LOCATOR), pageLimit).forked
    ensures EndsFrom(Sync(local, 0, 0, 0, peer, checks, pageLimit, maxRounds), 0, maxRounds, 1, 1, served, checks,
                     pageLimit)
  {
    SyncResets(local, peer, checks, pageLimit, maxRounds);
    assert served(1)[..0] == [];
    SyncFromPrefix(0, 0, 1, 1, peer, served, checks, pageLimit, maxRounds);
  }

  lemma SyncResets(local: seq<Event>, peer: Peer, checks: Checks, pageLimit: int, maxRounds: nat)
    requires ObeysForkRule(peer) && maxRounds > 0 && 0 < |local| < 20
    requires peer(0, Locator(local, MAX_LOCATOR), pageLimit).Answer?
             && peer(0, Locator(local, MAX_LOCATOR), pageLimit).forked
    ensures Sync(local, 0, 0, 0, peer, checks, pageLimit, maxRounds)
            == Sync([], 0, 1, 1, peer, checks, pageLimit, maxRounds)
  {
  }

  /** The peer's first event is there, and the client takes it. */
  ghost predicate TakesFirst(chain: seq<Event>, checks: Checks) { chain != [] && checks.content([], chain[0]) }

  /** A chain of fewer than 20 events that shares no sampled event with the peer is wiped in every case. It is replaced
      by nothing exactly when the peer's first event is refused, or there is none. */
  lemma ResetLosesIff(local: seq<Event>, peer: Peer, served: nat -> seq<Event>, checks: Checks, pageLimit: int,
                      maxRounds: nat)
    requires HonestPeer(peer, served, checks) && ObeysForkRule(peer)
    requires GoodChain(local) && SameHashSameEvent(local, served(0)) && maxRounds > 0
    requires Meet(local, served(0)).Diverged? && |local| < 20
    ensures var r := Sync(local, 0, 0, 0, peer, checks, pageLimit, maxRounds);
            && r.resets == 1
            && (r.chain == [] <==> !TakesFirst(served(1), checks))
            && (served(1) != [] && !TakesFirst(served(1), checks) ==> !r.ok && r.reason == RejectedEvents)
  {
    SyncClassified(local, peer, served, checks, pageLimit, maxRounds);
    var r, top := Sync(local, 0, 0, 0, peer, checks, pageLimit, maxRounds), served(1 + maxRounds);
    assert served(1) <= top && top[..0] == [];
    var reach := ReadTo(served, 0, 1, maxRounds, pageLimit);
    assert reach > 0 <==> served(1) != [];
  }

  lemma SyncOffChain(local: seq<Event>, peer: Peer, served: nat -> seq<Event>, checks: Checks, start: nat,
                     pageLimit: int, maxRounds: int)
    requires ObeysForkRule(peer) && maxRounds > 0
    requires GoodChain(local) && GoodChain(served(0)) && Admissible(served(0), checks)
             && SameHashSameEvent(local, served(0))
    requires start <= Shared(local, served(0)) < |local|
    requires peer(0, Locator(local, MAX_LOCATOR), pageLimit) == Answer(false, Page(served(0), start, Clamp(pageLimit)))
    ensures var r, d := Sync(local, 0, 0, 0, peer, checks, pageLimit, maxRounds), Shared(local, served(0));
            && r.chain == local && r.requests == 1 && r.resets == 0 && !r.forked
            && (r.ok <==> d == |served(0)| || start + Clamp(pageLimit) <= d)
  {
    OffChainRound(local, served(0), checks, start, pageLimit);
    PageAt(served(0), start, Clamp(pageLimit));
  }

  /** A client that left the peer's chain but still shares a sampled event changes nothing: its
      page is rejected, or, if it ends at or before the fork, taken for old news. */
  lemma OffChainRound(local: seq<Event>, peer: seq<Event>, checks: Checks, start: nat, limit: int)
    requires GoodChain(local) && GoodChain(peer) && SameHashSameEvent(local, peer) && Admissible(peer, checks)
    requires Shared(local, peer) < |local| && start <= Shared(local, peer)
    ensures var page := Page(peer, start, Clamp(limit));
            var t := Ingest(local, page, checks, |page|);
            && t.chain == local && t.accepted == 0 && t.duplicates + t.rejected == |page|
            && (t.rejected == 0 <==> Shared(local, peer) == |peer| || start + Clamp(limit) <= Shared(local, peer))
  {
    var page := Page(peer, start, Clamp(limit));
    PageAt(peer, start, Clamp(limit));
    IngestOffChain(local, peer, start, page, checks, |page|);
  }
}
