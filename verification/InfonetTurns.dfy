/** The loop of `_sync_from_peer` turn by turn, against any peer whatever: when it ends, when it does not. */
module InfonetTurns {
  import opened InfonetChain
  import opened InfonetSync

  /** Inside the loop, or out of it. */
  datatype Loop = Running(chain: seq<Event>, rounds: nat, requests: nat, resets: nat) | Stopped(outcome: Outcome)

  /** One turn of the loop: the round count, the request, the reply, a reset or an ingest. */
  function Turn(s: Loop, peer: Peer, checks: Checks, pageLimit: int, maxRounds: int): Loop
    requires s.Running?
  {
    var (chain, requests, resets) := (s.chain, s.requests + 1, s.resets);
    if s.rounds >= maxRounds then Stopped(Outcome(true, false, 0, RoundsUsed, chain, s.requests, resets))
    else
      match peer(s.requests, Locator(chain, MAX_LOCATOR), pageLimit)
      case RateLimited(retry) => Stopped(Outcome(false, false, retry, Limited, chain, requests, resets))
      case Failure => Stopped(Outcome(false, false, 0, PeerFailed, chain, requests, resets))
      case NotAList => Stopped(Outcome(false, false, 0, NotListed, chain, requests, resets))
      case Answer(forked, events) =>
        if forked then
          if |chain| < 20 then Running([], s.rounds, requests, resets + 1)
          else Stopped(Outcome(false, true, 0, ForkDetected, chain, requests, resets))
        else if events == [] then Stopped(Outcome(true, false, 0, EmptyPage, chain, requests, resets))
        else
          var t := Ingest(chain, events, checks, |events|);
          if t.rejected > 0 then Stopped(Outcome(false, false, 0, RejectedEvents, t.chain, requests, resets))
          else if t.accepted == 0 && t.duplicates >= |events| then
            Stopped(Outcome(true, false, 0, NothingNew, t.chain, requests, resets))
          else if |events| < pageLimit then Stopped(Outcome(true, false, 0, ShortPage, t.chain, requests, resets))
          else Running(t.chain, s.rounds + 1, requests, resets)
  }

  /** One turn, as a function of where the loop stands. */
  function TurnOf(peer: Peer, checks: Checks, pageLimit: int, maxRounds: int): Loop -> Loop {
    (s: Loop) => if s.Running? then Turn(s, peer, checks, pageLimit, maxRounds) else s
  }

  /** After `n` turns, or where the loop stopped before. */
  function Iterate(turn: Loop -> Loop, s: Loop, n: nat): Loop
    decreases n
  {
    if n == 0 || s.Stopped? then s else Iterate(turn, turn(s), n - 1)
  }

  // ---- under the fork rule, the turns end where `Sync` says ----

  function SyncFrom(s: Loop, peer: Peer, checks: Checks, pageLimit: int, maxRounds: int): Outcome
    requires ObeysForkRule(peer)
  {
    if s.Stopped? then s.outcome
    else Sync(s.chain, s.rounds, s.requests, s.resets, peer, checks, pageLimit, maxRounds)
  }

  lemma SyncTakesTurns(s: Loop, peer: Peer, checks: Checks, pageLimit: int, maxRounds: int)
    requires ObeysForkRule(peer) && s.Running?
    ensures SyncFrom(s, peer, checks, pageLimit, maxRounds)
            == SyncFrom(Turn(s, peer, checks, pageLimit, maxRounds), peer, checks, pageLimit, maxRounds)
  {
  }

  /** Two turns per round left, and one more if the chain can still be reset. */
  function TurnsLeft(s: Loop, maxRounds: int): nat {
    if s.Stopped? then 0
    else if s.rounds >= maxRounds then 1
    else 2 * (maxRounds - s.rounds) + if s.chain == [] then 0 else 1
  }

  lemma TurnUsesUp(s: Loop, peer: Peer, checks: Checks, pageLimit: int, maxRounds: int)
    requires ObeysForkRule(peer) && s.Running?
    ensures TurnsLeft(Turn(s, peer, checks, pageLimit, maxRounds), maxRounds) < TurnsLeft(s, maxRounds)
  {
  }

  /** Against a peer that obeys the fork rule the loop ends within that many turns, with the outcome of `Sync`. */
  lemma {:induction false} TurnsReachSync(s: Loop, peer: Peer, checks: Checks, pageLimit: int, maxRounds: int, n: nat)
    requires ObeysForkRule(peer) && n >= TurnsLeft(s, maxRounds)
    ensures Iterate(TurnOf(peer, checks, pageLimit, maxRounds), s, n)
            == Stopped(SyncFrom(s, peer, checks, pageLimit, maxRounds))
    decreases n
  {
    if s.Running? {
      SyncTakesTurns(s, peer, checks, pageLimit, maxRounds);
      TurnUsesUp(s, peer, checks, pageLimit, maxRounds);
      TurnsReachSync(Turn(s, peer, checks, pageLimit, maxRounds), peer, checks, pageLimit, maxRounds, n - 1);
    }
  }

  // ---- against any peer, when the loop never ends ----

  /** What the argument needs to know of a turn: it stops when the rounds are used; otherwise it stops, or ends
      a round, or resets the chain; and from an empty chain it resets exactly on a fork. */
  ghost predicate TurnRules(turn: Loop -> Loop, forks: nat -> bool, maxRounds: int) {
    forall s: Loop :: s.Running? ==> TurnRule(s, turn(s), forks, maxRounds)
  }

  ghost predicate TurnRule(s: Loop, next: Loop, forks: nat -> bool, maxRounds: int)
    requires s.Running?
  {
    && (next.Running? ==> s.rounds < maxRounds && next.requests == s.requests + 1)
    && (next.Running? ==> next.rounds == s.rounds + 1 || (next.rounds == s.rounds && next.chain == []))
    && (s.chain == [] && s.rounds < maxRounds ==>
          if forks(s.requests) then next.Running? && next.rounds == s.rounds && next.chain == []
          else next.Running? ==> next.rounds == s.rounds + 1)
  }

  /** No number of turns brings the loop to an end. */
  ghost predicate Endless(turn: Loop -> Loop, s: Loop) { forall n: nat :: Iterate(turn, s, n).Running? }

  /** An empty chain, rounds left, and nothing but forks from this request on. */
  ghost predicate Trapped(s: Loop, forks: nat -> bool, maxRounds: int) {
    s.Running? && s.chain == [] && s.rounds < maxRounds && forall j: nat :: j >= s.requests ==> forks(j)
  }

  ghost predicate TrappedAfter(turn: Loop -> Loop, s: Loop, forks: nat -> bool, maxRounds: int, n: nat) {
    Trapped(Iterate(turn, s, n), forks, maxRounds)
  }

  lemma {:induction false} IterateAdds(turn: Loop -> Loop, s: Loop, m: nat, n: nat)
    ensures Iterate(turn, Iterate(turn, s, m), n) == Iterate(turn, s, m + n)
    decreases m
  {
    if m > 0 && s.Running? { IterateAdds(turn, turn(s), m - 1, n); }
  }

  lemma EndlessGoesOn(turn: Loop -> Loop, s: Loop)
    requires s.Running?
    ensures Endless(turn, s) <==> Endless(turn, turn(s))
  {
    if Endless(turn, turn(s)) {
      forall n: nat ensures Iterate(turn, s, n).Running? {
        if n > 0 { assert Iterate(turn, turn(s), n - 1).Running?; }
      }
    }
    if Endless(turn, s) {
      forall n: nat ensures Iterate(turn, turn(s), n).Running? { assert Iterate(turn, s, n + 1).Running?; }
    }
  }

  lemma {:induction false} TrappedGoesOn(turn: Loop -> Loop, forks: nat -> bool, maxRounds: int, s: Loop, n: nat)
    requires TurnRules(turn, forks, maxRounds) && Trapped(s, forks, maxRounds)
    ensures Iterate(turn, s, n).Running?
    decreases n
  {
    if n > 0 {
      assert TurnRule(s, turn(s), forks, maxRounds);
      TrappedGoesOn(turn, forks, maxRounds, turn(s), n - 1);
    }
  }

  /** From an empty chain with rounds left, a loop that never ends either is trapped or comes to the next
      round when request `j` is no fork. */
  lemma {:induction false} NextRound(turn: Loop -> Loop, forks: nat -> bool, maxRounds: int, s: Loop, j: nat)
    returns (n: nat)
    requires TurnRules(turn, forks, maxRounds) && Endless(turn, s)
    requires s.Running? && s.chain == [] && s.rounds < maxRounds && j >= s.requests && !forks(j)
    ensures var t := Iterate(turn, s, n); t.Running? && t.rounds == s.rounds + 1
    decreases j - s.requests
  {
    EndlessGoesOn(turn, s);
    assert TurnRule(s, turn(s), forks, maxRounds);
    assert Iterate(turn, turn(s), 0).Running?;
    if forks(s.requests) {
      var m := NextRound(turn, forks, maxRounds, turn(s), j);
      n := m + 1;
    } else {
      n := 1;
      assert Iterate(turn, s, 1) == Iterate(turn, turn(s), 0);
    }
  }

  lemma EndlessFrom(turn: Loop -> Loop, s: Loop, m: nat)
    requires Endless(turn, s)
    ensures Endless(turn, Iterate(turn, s, m))
  {
    forall n: nat ensures Iterate(turn, Iterate(turn, s, m), n).Running? { IterateAdds(turn, s, m, n); }
  }

  /** An endless loop on an empty chain that is not trapped comes to the next round. */
  lemma EmptyGoesOn(turn: Loop -> Loop, forks: nat -> bool, maxRounds: int, s: Loop) returns (n: nat)
    requires TurnRules(turn, forks, maxRounds) && Endless(turn, s)
    requires s.Running? && s.chain == [] && s.rounds < maxRounds && !Trapped(s, forks, maxRounds)
    ensures var t := Iterate(turn, s, n); t.Running? && t.rounds == s.rounds + 1 && Endless(turn, t)
  {
    var j: nat :| j >= s.requests && !forks(j);
    n := NextRound(turn, forks, maxRounds, s, j);
    EndlessFrom(turn, s, n);
  }

  lemma TrappedLater(turn: Loop -> Loop, forks: nat -> bool, maxRounds: int, s: Loop, m: nat, k: nat)
    requires TrappedAfter(turn, Iterate(turn, s, m), forks, maxRounds, k)
    ensures TrappedAfter(turn, s, forks, maxRounds, m + k)
  {
    IterateAdds(turn, s, m, k);
  }

  lemma EndlessTurn(turn: Loop -> Loop, forks: nat -> bool, maxRounds: int, s: Loop)
    requires TurnRules(turn, forks, maxRounds) && Endless(turn, s) && s.Running?
    ensures Endless(turn, turn(s)) && turn(s).Running? && s.rounds < maxRounds && Iterate(turn, s, 1) == turn(s)
    ensures turn(s).rounds == s.rounds + 1 || (turn(s).rounds == s.rounds && turn(s).chain == [])
  {
    EndlessGoesOn(turn, s);
    assert Iterate(turn, turn(s), 0).Running?;
    assert TurnRule(s, turn(s), forks, maxRounds);
  }

  /** An endless loop that is not trapped yet comes closer to its last round. */
  lemma EndlessNext(turn: Loop -> Loop, forks: nat -> bool, maxRounds: int, s: Loop) returns (m: nat)
    requires TurnRules(turn, forks, maxRounds) && Endless(turn, s) && s.Running? && !Trapped(s, forks, maxRounds)
    ensures var t := Iterate(turn, s, m);
            t.Running? && Endless(turn, t) && TurnsLeft(t, maxRounds) < TurnsLeft(s, maxRounds)
  {
    EndlessTurn(turn, forks, maxRounds, s);
    if s.chain == [] { m := EmptyGoesOn(turn, forks, maxRounds, s); } else { m := 1; }
  }

  lemma {:induction false} EndlessIsTrapped(turn: Loop -> Loop, forks: nat -> bool, maxRounds: int, s: Loop)
    returns (n: nat)
    requires TurnRules(turn, forks, maxRounds) && Endless(turn, s) && s.Running?
    ensures TrappedAfter(turn, s, forks, maxRounds, n)
    decreases TurnsLeft(s, maxRounds)
  {
    if Trapped(s, forks, maxRounds) {
      n := 0;
    } else {
      var m := EndlessNext(turn, forks, maxRounds, s);
      var k := EndlessIsTrapped(turn, forks, maxRounds, Iterate(turn, s, m));
      TrappedLater(turn, forks, maxRounds, s, m, k);
      n := m + k;
    }
  }

  lemma TrappedRuns(turn: Loop -> Loop, forks: nat -> bool, maxRounds: int, s: Loop, n: nat, m: nat)
    requires TurnRules(turn, forks, maxRounds) && TrappedAfter(turn, s, forks, maxRounds, n)
    ensures Iterate(turn, s, m).Running?
  {
    if m <= n {
      IterateAdds(turn, s, m, n - m);
    } else {
      IterateAdds(turn, s, n, m - n);
      TrappedGoesOn(turn, forks, maxRounds, Iterate(turn, s, n), m - n);
    }
  }

  lemma TrappedIsEndless(turn: Loop -> Loop, forks: nat -> bool, maxRounds: int, s: Loop, n: nat)
    requires TurnRules(turn, forks, maxRounds) && TrappedAfter(turn, s, forks, maxRounds, n)
    ensures Endless(turn, s)
  {
    forall m: nat ensures Iterate(turn, s, m).Running? { TrappedRuns(turn, forks, maxRounds, s, n, m); }
  }

  lemma EndlessIffTrapped(turn: Loop -> Loop, forks: nat -> bool, maxRounds: int, s: Loop)
    requires TurnRules(turn, forks, maxRounds) && s.Running?
    ensures Endless(turn, s) <==> exists n: nat :: TrappedAfter(turn, s, forks, maxRounds, n)
  {
    if Endless(turn, s) { var n := EndlessIsTrapped(turn, forks, maxRounds, s); }
    forall n: nat | TrappedAfter(turn, s, forks, maxRounds, n) ensures Endless(turn, s) {
      TrappedIsEndless(turn, forks, maxRounds, s, n);
    }
  }

  // ---- for the loop of the program ----

  /** Request `j` for everything from the start is answered with a fork. */
  function ForksAtGenesis(peer: Peer, pageLimit: int): nat -> bool {
    (j: nat) => peer(j, [Genesis], pageLimit).Answer? && peer(j, [Genesis], pageLimit).forked
  }

  lemma TurnObeysRule(s: Loop, peer: Peer, checks: Checks, pageLimit: int, maxRounds: int)
    requires s.Running?
    ensures TurnRule(s, Turn(s, peer, checks, pageLimit, maxRounds), ForksAtGenesis(peer, pageLimit), maxRounds)
  {
  }

  lemma TurnsObeyRules(peer: Peer, checks: Checks, pageLimit: int, maxRounds: int)
    ensures TurnRules(TurnOf(peer, checks, pageLimit, maxRounds), ForksAtGenesis(peer, pageLimit), maxRounds)
  {
    forall s: Loop | s.Running?
      ensures TurnRule(s, TurnOf(peer, checks, pageLimit, maxRounds)(s), ForksAtGenesis(peer, pageLimit), maxRounds)
    {
      TurnObeysRule(s, peer, checks, pageLimit, maxRounds);
    }
  }

  /** Against any peer, the loop never ends if and only if it comes, with rounds left, to an empty chain at
      some request from which on the peer answers every request from genesis with a fork. */
  lemma NeverEndsIff(chain: seq<Event>, peer: Peer, checks: Checks, pageLimit: int, maxRounds: int)
    ensures var turn := TurnOf(peer, checks, pageLimit, maxRounds);
            Endless(turn, Running(chain, 0, 0, 0))
            <==> exists n: nat ::
                   TrappedAfter(turn, Running(chain, 0, 0, 0), ForksAtGenesis(peer, pageLimit), maxRounds, n)
  {
    TurnsObeyRules(peer, checks, pageLimit, maxRounds);
    EndlessIffTrapped(TurnOf(peer, checks, pageLimit, maxRounds), ForksAtGenesis(peer, pageLimit), maxRounds,
                      Running(chain, 0, 0, 0));
  }

  const FORKER: Peer := (i: nat, locator: seq<Hash>, limit: int) => Answer(true, [])

  /** A peer that calls everything a fork keeps a chain of fewer than 20 events resetting for ever, and stops
      any longer chain at once. */
  lemma ForkerNeverLetsGo(chain: seq<Event>, checks: Checks, pageLimit: int, maxRounds: int)
    ensures Endless(TurnOf(FORKER, checks, pageLimit, maxRounds), Running(chain, 0, 0, 0))
            <==> |chain| < 20 && maxRounds > 0
  {
    var turn, start := TurnOf(FORKER, checks, pageLimit, maxRounds), Running(chain, 0, 0, 0);
    assert Iterate(turn, start, 1) == Iterate(turn, turn(start), 0) == turn(start);
    if |chain| < 20 && maxRounds > 0 {
      assert TrappedAfter(turn, start, ForksAtGenesis(FORKER, pageLimit), maxRounds, 1);
      NeverEndsIff(chain, FORKER, checks, pageLimit, maxRounds);
    } else {
      assert Iterate(turn, start, 1).Stopped?;
    }
  }
}
