/** What a gate keeps whatever a peer sends. */
module GateSafety {
  import opened Sorting
  import opened GatePull
  import K = KeyedBest

  /** No id but 0, which is none, occurs twice. */
  ghost predicate NoIdTwice(events: seq<Event>) {
    forall i, j :: 0 <= i < j < |events| && events[i].id == events[j].id ==> events[i].id == 0
  }

  /** Every id and no id twice: the index knows the ids of the list, and no others. */
  ghost predicate Sound(gate: Gate) {
    NoIdTwice(gate.events) && IdsAre(gate.ids, gate.events)
  }

  ghost predicate IdsAre(ids: set<nat>, events: seq<Event>) {
    forall id :: id in ids <==> id != 0 && exists i :: 0 <= i < |events| && events[i].id == id
  }

  /** What may enter: the clean copy of an event of the page that passed the checks of a newcomer. */
  ghost predicate MayEnter(x: Event, page: seq<Event>, checks: Checks) {
    exists i :: 0 <= i < |page| && Passes(page[i], checks) && x == checks.clean(page[i])
  }

  /** Well formed, with a proper id or none at all, and genuine. */
  ghost predicate Passes(e: Event, checks: Checks) {
    checks.shape(e) && (e.id == 0 || checks.named(e)) && checks.content(e)
  }

  /** The indexes and candidates after some of the page. */
  ghost predicate Screening(s: Screened, gate: Gate, page: seq<Event>, checks: Checks, n: nat) {
    && Sound(Gate(gate.events + s.candidates, s.ids, s.prints))
    && (forall x :: x in s.candidates ==> MayEnter(x, page, checks))
    && |s.candidates| + s.duplicates + s.rejected == n
  }

  lemma IdsNext(ids: set<nat>, events: seq<Event>, e: Event)
    requires IdsAre(ids, events)
    ensures IdsAre(ids + IdOf(e), events + [e])
  {
    var more := events + [e];
    forall id ensures id in ids + IdOf(e) <==> id != 0 && exists i :: 0 <= i < |more| && more[i].id == id {
      if i :| 0 <= i < |events| && events[i].id == id { assert more[i].id == id; }
      assert more[|events|] == e;
    }
  }

  lemma NoIdTwiceNext(ids: set<nat>, events: seq<Event>, e: Event)
    requires NoIdTwice(events) && IdsAre(ids, events) && e.id !in ids
    ensures NoIdTwice(events + [e])
  {
  }

  lemma ScreenNext(s: Screened, gate: Gate, page: seq<Event>, checks: Checks, n: nat)
    requires n < |page| && Screening(s, gate, page, checks, n)
    ensures Screening(ScreenOne(s, page[n], checks), gate, page, checks, n + 1)
  {
    var e := page[n];
    if Judge(s.ids, s.prints, e, checks) == Accepted {
      var c := checks.clean(e);
      IdsNext(s.ids, gate.events + s.candidates, c);
      NoIdTwiceNext(s.ids, gate.events + s.candidates, c);
      assert gate.events + (s.candidates + [c]) == gate.events + s.candidates + [c];
      assert Passes(page[n], checks);
      assert MayEnter(c, page, checks);
    }
  }

  lemma {:induction false} ScreenIsSound(gate: Gate, page: seq<Event>, checks: Checks, n: nat)
    requires n <= |page| && Sound(gate)
    ensures Screening(Screen(gate, page, checks, n), gate, page, checks, n)
  {
    if n == 0 {
      assert gate.events + [] == gate.events;
    } else {
      ScreenIsSound(gate, page, checks, n - 1);
      ScreenNext(Screen(gate, page, checks, n - 1), gate, page, checks, n - 1);
    }
  }

  lemma SortKeepsSound(events: seq<Event>, ids: set<nat>, prints: set<nat>)
    requires Sound(Gate(events, ids, prints))
    ensures Sound(Gate(StableSort(events, BY_RANK), ids, prints))
  {
    var sorted := StableSort(events, BY_RANK);
    SortKeepsMembers(events);
    StableSortCorrect(events, BY_RANK);
    forall id ensures id in ids <==> id != 0 && exists i :: 0 <= i < |sorted| && sorted[i].id == id {
      if i :| 0 <= i < |events| && events[i].id == id { assert events[i] in sorted; }
      if i :| 0 <= i < |sorted| && sorted[i].id == id { assert sorted[i] in events; }
    }
    PermutationKeepsIds(events, sorted);
  }

  lemma PermutationKeepsIds(a: seq<Event>, b: seq<Event>)
    requires NoIdTwice(a) && multiset(a) == multiset(b)
    ensures NoIdTwice(b)
  {
    var r := K.Rule((e: Event) => e.id, 0, (x: Event, y: Event) => false);
    assert K.DistinctKeys(a, r);
    K.PermutationKeepsDistinct(a, b, r);
    assert K.DistinctKeys(b, r);
  }

  /** Whatever a peer sends: the gate loses nothing, gets only clean copies of events of the page that passed every
      check, holds no id twice, and is in order afterwards if it was before. */
  lemma IngestIsSound(gate: Gate, page: seq<Event>, checks: Checks)
    requires Sound(gate)
    ensures var after := Ingest(gate, page, checks);
            && Sound(after)
            && (forall x :: x in gate.events ==> x in after.events)
            && (forall x :: x in after.events ==> x in gate.events || MayEnter(x, page, checks))
            && (Sorted(gate.events, BY_RANK) ==> Sorted(after.events, BY_RANK))
            && |gate.events| <= |after.events| <= |gate.events| + |page|
  {
    var s := Screen(gate, page, checks, |page|);
    ScreenIsSound(gate, page, checks, |page|);
    if s.candidates != [] {
      SortKeepsSound(gate.events + s.candidates, s.ids, s.prints);
      SortKeepsMembers(gate.events + s.candidates);
      StableSortCorrect(gate.events + s.candidates, BY_RANK);
    }
  }

  /** A single event that is genuine, with a proper id or without one, and is new by its fingerprint, its given id and
      the id worked out for it, enters; and nothing else does. */
  lemma EntersIff(gate: Gate, e: Event, checks: Checks)
    requires Sound(gate)
    ensures checks.clean(e) in Ingest(gate, [e], checks).events
            <==> checks.clean(e) in gate.events
                 || (Passes(e, checks) && e.fingerprint !in gate.prints && (e.id == 0 || e.id !in gate.ids)
                     && checks.clean(e).id !in gate.ids)
  {
    var s, c := Screen(gate, [e], checks, 1), checks.clean(e);
    assert Screen(gate, [e], checks, 0) == Screened([], gate.ids, gate.prints, 0, 0);
    SortKeepsMembers(gate.events + s.candidates);
    assert [] + [c] == [c];
  }

  // ---- a count that is announced and not served ----

  /** A peer that announced more events than it has when asked: the cursor jumps to the announced count. */
  lemma EmptyPageJumps(link: Link, total: nat, all: seq<Event>, checks: Checks)
    requires |all| <= link.Cursor() < total
    ensures var next := Pull(link, total, all, checks); next.gate == link.gate && next.Cursor() == total
  {
  }

  /** So what the peer has below that count later on is never fetched: two events announced, none served, and none
      fetched however often they are offered afterwards. */
  lemma AnnouncedAndMissed(all: seq<Event>, checks: Checks, i: nat, n: nat)
    requires HonestList(all, checks) && |all| == 2 && i < 2
    ensures all[i] !in Pulled(Pull(Link(Gate([], {}, {}), 0), 2, [], checks), all, checks, n).gate.events
  {
    var link := Link(Gate([], {}, {}), 0);
    EmptyPageJumps(link, 2, [], checks);
    LostForGood(Pull(link, 2, [], checks), all, checks, i, n);
  }
}
