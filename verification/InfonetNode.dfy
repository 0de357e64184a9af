/** The node as the program holds it: the event list, the head, the id index and the sequence
    table, updated in place, refined to the chain functions. */
module InfonetNode {
  import opened InfonetChain
  import opened InfonetSync

  class Infonet {
    var events: seq<Event>
    var headHash: Hash
    var eventIndex: map<Hash, nat>
    var nodeSequences: map<nat, int>

    /** The three derived fields agree with the event list. */
    ghost predicate Valid()
      reads this
    {
      && headHash == Head(events)
      && (forall h :: h in eventIndex <==> Known(events, h))
      && (forall h :: h in eventIndex ==> eventIndex[h] == LastHeight(events, h))
      && (forall a: nat :: SequenceOf(nodeSequences, a) == LastSequence(events, a, |events|))
    }

    constructor ()
      ensures Valid() && events == []
    {
      events, headHash, eventIndex, nodeSequences := [], Genesis, map[], map[];
    }

    /** `reset_chain` */
    method ResetChain()
      modifies this
      ensures Valid() && events == []
    {
      events, headHash, eventIndex, nodeSequences := [], Genesis, map[], map[];
    }

    /** `ingest_events` */
    method IngestEvents(page: seq<Event>, checks: Checks) returns (accepted: nat, duplicates: nat, rejected: nat)
      requires Valid()
      modifies this
      ensures Valid()
      ensures Tally(events, accepted, duplicates, rejected) == Ingest(old(events), page, checks, |page|)
    {
      accepted, duplicates, rejected := 0, 0, 0;
      for i := 0 to |page|
        invariant Valid()
        invariant Tally(events, accepted, duplicates, rejected) == Ingest(old(events), page, checks, i)
      {
        var verdict := IngestOne(page[i], checks);
        match verdict
        case Accepted => accepted := accepted + 1;
        case Duplicate => duplicates := duplicates + 1;
        case Rejected => rejected := rejected + 1;
      }
    }

    method IngestOne(e: Event, checks: Checks) returns (v: Verdict)
      requires Valid()
      modifies this
      ensures Valid()
      ensures v == Judge(old(events), e, checks)
      ensures events == if v == Accepted then old(events) + [e] else old(events)
    {
      if !checks.shape(e) { return Rejected; }
      if e.id in eventIndex || checks.replayed(e.id) { return Duplicate; }
      if e.prev != headHash { return Rejected; }
      var last := SequenceOf(nodeSequences, e.author);
      if e.sequence <= 0 || e.sequence <= last { return Rejected; }
      if !checks.content(events, e) { return Rejected; }
      KnownSnoc(events, e);
      SequencesSnoc(events, e);
      events := events + [e];
      eventIndex := eventIndex[e.id := |events| - 1];
      headHash := e.id;
      nodeSequences := nodeSequences[e.author := e.sequence];
      v := Accepted;
    }

    /** `get_locator` */
    method GetLocator(maxEntries: int) returns (locator: seq<Hash>)
      requires Valid()
      ensures locator == Locator(events, maxEntries)
    {
      if events == [] {
        return [Genesis];
      }
      locator := [];
      var idx, step, count := |events| - 1, 1, 0;
      ghost var heights := LocatorHeights(|events|, maxEntries);
      SamplesFall(idx, 1, 0, maxEntries - 1);
      while idx >= 0 && |locator| < maxEntries - 1
        invariant step > 0 && 0 <= count && |locator| <= |heights|
        invariant locator == Ids(events, heights[..|locator|])
        invariant heights[|locator|..] == Samples(idx, step, count, maxEntries - 1 - |locator|)
        decreases maxEntries - |locator|
      {
        SamplesUnfold(idx, step, count, maxEntries - 1 - |locator|);
        TakeOne(heights, |locator|, idx, heights[|locator|..][1..]);
        IdsSnoc(events, heights[..|locator|], idx);
        locator := locator + [events[idx].id];
        if count >= 9 {
          step := step * 2;
        }
        idx := idx - step;
        count := count + 1;
      }
      assert heights[..|locator|] == heights;
      locator := locator + [Genesis];
    }

    /** `get_events_after_locator`: where the page starts, and the page; nothing matched is -1. */
    method GetEventsAfterLocator(locator0: seq<Hash>, limit: nat) returns (m: Match, page: seq<Event>)
      requires Valid() && DistinctIds(events)
      ensures m == FindMatch(events, if locator0 == [] then [Genesis] else locator0, 0)
      ensures page == match m case NoMatch => [] case GenesisMatch => Page(events, 0, limit)
              case At(h) => Page(events, h + 1, limit)
    {
      var locator := if locator0 == [] then [Genesis] else locator0;
      var j := 0;
      while j < |locator|
        invariant 0 <= j <= |locator|
        invariant FindMatch(events, locator, 0) == FindMatch(events, locator, j)
      {
        if locator[j] == Genesis {
          return GenesisMatch, Page(events, 0, limit);
        }
        if locator[j] in eventIndex {
          LastHeightIsIndex(events, locator[j], |events|);
          var idx := eventIndex[locator[j]];
          return At(idx), Page(events, idx + 1, limit);
        }
        j := j + 1;
      }
      m, page := NoMatch, [];
    }

    /** `infonet_sync_post` on the private transport. */
    method ServeSync(locator: seq<Hash>, limit: int) returns (reply: Reply)
      requires Valid() && DistinctIds(events)
      ensures reply == Serve(events, locator, limit)
    {
      var m, page := GetEventsAfterLocator(locator, Clamp(limit));
      var forked := m.NoMatch? || (m.GenesisMatch? && |locator| > 1);
      reply := Answer(forked, page);
    }

    /** `_sync_from_peer` */
    method SyncFromPeer(peer: Peer, checks: Checks, pageLimit: int, maxRounds: int)
      returns (ok: bool, reason: Reason, forked: bool, retryAfter: int, requests: nat, resets: nat)
      requires Valid() && ObeysForkRule(peer)
      modifies this
      ensures Valid()
      ensures Outcome(ok, forked, retryAfter, reason, events, requests, resets)
              == Sync(old(events), 0, 0, 0, peer, checks, pageLimit, maxRounds)
    {
      var rounds := 0;
      requests, resets := 0, 0;
      ghost var result := Sync(events, 0, 0, 0, peer, checks, pageLimit, maxRounds);
      while rounds < maxRounds
        invariant Valid() && 0 <= rounds <= Max(0, maxRounds)
        invariant result == Sync(events, rounds, requests, resets, peer, checks, pageLimit, maxRounds)
        decreases maxRounds - rounds, |events|
      {
        var locator := GetLocator(MAX_LOCATOR);
        var reply := peer(requests, locator, pageLimit);
        requests := requests + 1;
        match reply
        case RateLimited(retry) => return false, Limited, false, retry, requests, resets;
        case Failure => return false, PeerFailed, false, 0, requests, resets;
        case NotAList => return false, NotListed, false, 0, requests, resets;
        case Answer(isForked, page) =>
          if isForked {
            if |events| < 20 {
              ResetChain();
              resets := resets + 1;
              continue;
            }
            return false, ForkDetected, true, 0, requests, resets;
          }
          var stop;
          stop, ok, reason := TakePage(page, checks, pageLimit);
          if stop {
            return ok, reason, false, 0, requests, resets;
          }
          rounds := rounds + 1;
      }
      return true, RoundsUsed, false, 0, requests, resets;
    }

    /** What the loop does with an unforked page. */
    method TakePage(page: seq<Event>, checks: Checks, pageLimit: int) returns (stop: bool, ok: bool, reason: Reason)
      requires Valid()
      modifies this
      ensures Valid()
      ensures var t := Ingest(old(events), page, checks, |page|);
              && events == t.chain
              && (stop, ok, reason)
                 == if page == [] then (true, true, EmptyPage)
                    else if t.rejected > 0 then (true, false, RejectedEvents)
                    else if t.accepted == 0 && t.duplicates >= |page| then (true, true, NothingNew)
                    else if |page| < pageLimit then (true, true, ShortPage)
                    else (false, true, Fine)
    {
      if page == [] {
        return true, true, EmptyPage;
      }
      var accepted, duplicates, rejected := IngestEvents(page, checks);
      if rejected > 0 {
        return true, false, RejectedEvents;
      }
      if accepted == 0 && duplicates >= |page| {
        return true, true, NothingNew;
      }
      if |page| < pageLimit {
        return true, true, ShortPage;
      }
      return false, true, Fine;
    }
  }

  function SequenceOf(table: map<nat, int>, author: nat): int {
    if author in table then table[author] else 0
  }

  /** The greatest height at which `id` occurs, -1 if it does not. */
  function LastHeight(chain: seq<Event>, id: Hash): int { LastHeightUpTo(chain, id, |chain|) }

  function LastHeightUpTo(chain: seq<Event>, id: Hash, n: nat): int
    requires n <= |chain|
  {
    if n == 0 then -1 else if chain[n - 1].id == id then n - 1 else LastHeightUpTo(chain, id, n - 1)
  }

  lemma {:induction false} LastHeightPrefix(chain: seq<Event>, e: Event, id: Hash, n: nat)
    requires n <= |chain|
    ensures LastHeightUpTo(chain + [e], id, n) == LastHeightUpTo(chain, id, n)
  {
    if n > 0 {
      assert (chain + [e])[n - 1] == chain[n - 1];
      LastHeightPrefix(chain, e, id, n - 1);
    }
  }

  lemma {:induction false} LastHeightIsIndex(chain: seq<Event>, id: Hash, n: nat)
    requires n <= |chain| && exists j :: 0 <= j < n && chain[j].id == id
    ensures LastHeightUpTo(chain, id, n) == IndexOf(chain, id, n)
  {
    if chain[n - 1].id != id { LastHeightIsIndex(chain, id, n - 1); }
  }

  lemma KnownSnoc(chain: seq<Event>, e: Event)
    ensures forall h :: Known(chain + [e], h) <==> Known(chain, h) || h == e.id
    ensures forall h :: LastHeight(chain + [e], h) == if h == e.id then |chain| else LastHeight(chain, h)
  {
    var more := chain + [e];
    assert more[|chain|] == e;
    forall h ensures Known(more, h) <==> Known(chain, h) || h == e.id {
      if i :| 0 <= i < |chain| && chain[i].id == h { assert more[i].id == h; }
    }
    forall h ensures LastHeight(more, h) == if h == e.id then |chain| else LastHeight(chain, h) {
      LastHeightPrefix(chain, e, h, |chain|);
    }
  }

  lemma SequenceSnoc(chain: seq<Event>, e: Event, a: nat)
    ensures LastSequence(chain + [e], a, |chain + [e]|) == if a == e.author then e.sequence
            else LastSequence(chain, a, |chain|)
  {
    var more := chain + [e];
    assert more[|chain|] == e && |more| == |chain| + 1;
    LastSequencePrefix(chain, [e], a, |chain|);
    if a == e.author { assert LastSequence(more, a, |more|) == e.sequence; }
    else { assert LastSequence(more, a, |more|) == LastSequence(more, a, |chain|); }
  }

  lemma SequencesSnoc(chain: seq<Event>, e: Event)
    ensures forall a: nat :: LastSequence(chain + [e], a, |chain + [e]|) == if a == e.author then e.sequence
            else LastSequence(chain, a, |chain|)
  {
    forall a: nat ensures LastSequence(chain + [e], a, |chain + [e]|) == if a == e.author then e.sequence
      else LastSequence(chain, a, |chain|) {
      SequenceSnoc(chain, e, a);
    }
  }

  lemma IdsSnoc(chain: seq<Event>, heights: seq<nat>, h: nat)
    requires h < |chain| && forall i :: 0 <= i < |heights| ==> heights[i] < |chain|
    ensures Ids(chain, heights + [h]) == Ids(chain, heights) + [chain[h].id]
  {
  }

  lemma TakeOne(all: seq<nat>, k: nat, h: nat, rest: seq<nat>)
    requires k <= |all| && all[k..] == [h] + rest
    ensures k < |all| && all[k] == h && all[..k + 1] == all[..k] + [h] && all[k + 1..] == rest
  {
    assert all[k] == all[k..][0];
    assert all[k + 1..] == all[k..][1..];
  }

  lemma SamplesUnfold(idx: nat, step: nat, count: nat, room: int)
    requires step > 0 && room > 0
    ensures var next := if count >= 9 then step * 2 else step;
            Samples(idx, step, count, room) == [idx as nat] + Samples(idx - next, next, count + 1, room - 1)
  {
  }
}
