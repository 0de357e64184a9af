/** Cursor-based pull of gate events: `_http_gate_pull_loop` and `gate_peer_pull` of backend/main.py,
    on top of `ingest_peer_events` of backend/services/mesh/mesh_hashchain.py. */
module GatePull {
  import opened Sorting

  /** An id of 0 is none; `fingerprint` is the replay fingerprint; `rank` stands for the place of the event in the
      order by timestamp, sequence and id that every gate list is sorted by. */
  datatype Event = Event(id: nat, fingerprint: nat, rank: real, body: nat)

  /** `shape`: type, ciphertext and timestamp window; `named`: the id is 64 hex digits; `content`: the signature, the
      author's access and the id; `clean` is the copy that is stored, with the id worked out from the event. */
  datatype Checks = Checks(shape: Event -> bool, named: Event -> bool, content: Event -> bool, clean: Event -> Event)

  /** One gate of the store, with the two indexes that find duplicates. */
  datatype Gate = Gate(events: seq<Event>, ids: set<nat>, prints: set<nat>)

  datatype Verdict = Accepted | Duplicate | Rejected

  function Judge(ids: set<nat>, prints: set<nat>, e: Event, checks: Checks): Verdict {
    if !checks.shape(e) then Rejected
    else if e.fingerprint in prints then Duplicate
    else if e.id != 0 && !checks.named(e) then Rejected
    else if e.id != 0 && e.id in ids then Duplicate
    else if !checks.content(e) then Rejected
    else if checks.clean(e).id in ids then Duplicate
    else Accepted
  }

  function IdOf(e: Event): set<nat> { if e.id != 0 then {e.id} else {} }

  /** The page screened so far: the candidates, and the indexes with theirs added. */
  datatype Screened = Screened(candidates: seq<Event>, ids: set<nat>, prints: set<nat>, duplicates: nat, rejected: nat)

  function ScreenOne(s: Screened, e: Event, checks: Checks): Screened {
    match Judge(s.ids, s.prints, e, checks)
    case Accepted =>
      var c := checks.clean(e);
      Screened(s.candidates + [c], s.ids + IdOf(c), s.prints + {e.fingerprint}, s.duplicates, s.rejected)
    case Duplicate => s.(duplicates := s.duplicates + 1)
    case Rejected => s.(rejected := s.rejected + 1)
  }

  function Screen(gate: Gate, page: seq<Event>, checks: Checks, n: nat): Screened
    requires n <= |page|
  {
    if n == 0 then Screened([], gate.ids, gate.prints, 0, 0)
    else ScreenOne(Screen(gate, page, checks, n - 1), page[n - 1], checks)
  }

  const BY_RANK: Event -> real := (e: Event) => e.rank

  /** `ingest_peer_events` */
  function Ingest(gate: Gate, page: seq<Event>, checks: Checks): Gate {
    var s := Screen(gate, page, checks, |page|);
    if s.candidates == [] then gate else Gate(StableSort(gate.events + s.candidates, BY_RANK), s.ids, s.prints)
  }

  const BATCH := 50

  /** `gate_peer_pull` on a peer holding `all`. */
  function Serve(all: seq<Event>, afterCount: nat): (page: seq<Event>)
    ensures |page| <= 50
  {
    if afterCount >= |all| then []
    else all[afterCount..if afterCount + BATCH < |all| then afterCount + BATCH else |all|]
  }

  /** The puller: its own list and the count it remembers for this peer. */
  datatype Link = Link(gate: Gate, known: nat) {
    function Cursor(): nat { if known < |gate.events| then |gate.events| else known }
  }

  /** One successful pull. `total` is the count the peer announced, `all` what it holds when asked. */
  function Pull(link: Link, total: nat, all: seq<Event>, checks: Checks): Link {
    var cursor := link.Cursor();
    if cursor >= total then link
    else
      var page := Serve(all, cursor);
      if page == [] then link.(known := total)
      else Link(Ingest(link.gate, page, checks), cursor + |page|)
  }

  // ---- what one page adds ----

  /** The puller takes the event now, if it is new to it: it is within the time window, say. */
  predicate Takes(e: Event, checks: Checks) { checks.shape(e) && checks.named(e) && checks.content(e) }

  /** An event as a store keeps it: with its id, which working it out again does not change. Whether the puller would
      take it is left open. */
  ghost predicate Stored(e: Event, checks: Checks) { e.id != 0 && checks.clean(e) == e }

  ghost predicate AllStored(all: seq<Event>, checks: Checks) { forall i :: 0 <= i < |all| ==> Stored(all[i], checks) }

  /** No id and no fingerprint twice. */
  ghost predicate Distinct(all: seq<Event>) {
    forall i, j :: 0 <= i < j < |all| ==> all[i].id != all[j].id && all[i].fingerprint != all[j].fingerprint
  }

  /** The peer's list. */
  ghost predicate HonestList(all: seq<Event>, checks: Checks) { AllStored(all, checks) && Distinct(all) }

  ghost predicate KnownIn(ids: set<nat>, prints: set<nat>, e: Event) { e.id in ids || e.fingerprint in prints }

  /** The indexes know, of the peer's events, exactly the ones the gate holds. */
  ghost predicate Indexed(gate: Gate, all: seq<Event>) {
    forall i :: 0 <= i < |all| ==> (KnownIn(gate.ids, gate.prints, all[i]) <==> all[i] in gate.events)
  }

  /** The events `lo` to `hi` of the list that are not held and are taken, in their order. */
  function News(held: seq<Event>, all: seq<Event>, checks: Checks, lo: nat, hi: nat): (r: seq<Event>)
    requires hi <= |all|
    ensures |r| <= if lo < hi then hi - lo else 0
  {
    if hi <= lo then []
    else
      var e := all[hi - 1];
      News(held, all, checks, lo, hi - 1) + if e !in held && Takes(e, checks) then [e] else []
  }

  /** The first `n` of the peer's events from `from` on have been screened: the indexes know, of the peer's events,
      those held before and those of the screened ones that were taken; the candidates are the new ones taken. */
  ghost predicate ScreenedTo(s: Screened, gate: Gate, all: seq<Event>, checks: Checks, from: nat, to: nat)
    requires from <= to <= |all|
  {
    && |s.candidates| + s.duplicates + s.rejected == to - from
    && s.candidates == News(gate.events, all, checks, from, to)
    && forall i :: 0 <= i < |all| ==>
         (KnownIn(s.ids, s.prints, all[i]) <==> all[i] in gate.events || (from <= i < to && Takes(all[i], checks)))
  }

  lemma ScreenStep(s: Screened, gate: Gate, all: seq<Event>, from: nat, to: nat, checks: Checks)
    requires HonestList(all, checks) && from <= to < |all| && ScreenedTo(s, gate, all, checks, from, to)
    ensures ScreenedTo(ScreenOne(s, all[to], checks), gate, all, checks, from, to + 1)
  {
    assert Stored(all[to], checks);
    assert Judge(s.ids, s.prints, all[to], checks) == Accepted <==> all[to] !in gate.events && Takes(all[to], checks);
  }

  lemma {:induction false} ScreenAdds(gate: Gate, all: seq<Event>, from: nat, page: seq<Event>, checks: Checks, n: nat)
    requires HonestList(all, checks) && Indexed(gate, all)
    requires n <= |page| && from + |page| <= |all|
    requires forall i :: 0 <= i < |page| ==> page[i] == all[from + i]
    ensures ScreenedTo(Screen(gate, page, checks, n), gate, all, checks, from, from + n)
  {
    if n > 0 {
      ScreenAdds(gate, all, from, page, checks, n - 1);
      ScreenStep(Screen(gate, page, checks, n - 1), gate, all, from, from + n - 1, checks);
      assert page[n - 1] == all[from + n - 1];
    }
  }

  lemma {:induction false} NewsMembers(held: seq<Event>, all: seq<Event>, checks: Checks, lo: nat, hi: nat, i: nat)
    requires hi <= |all| && i < |all| && Distinct(all)
    ensures all[i] in News(held, all, checks, lo, hi) <==> lo <= i < hi && all[i] !in held && Takes(all[i], checks)
  {
    if lo < hi {
      NewsMembers(held, all, checks, lo, hi - 1, i);
      assert all[i] == all[hi - 1] <==> i == hi - 1;
    }
  }

  lemma {:induction false} NewsAreOf(held: seq<Event>, all: seq<Event>, checks: Checks, lo: nat, hi: nat)
    requires hi <= |all|
    ensures forall x :: x in News(held, all, checks, lo, hi) ==> x in all && x !in held
  {
    if lo < hi { NewsAreOf(held, all, checks, lo, hi - 1); }
  }

  /** The gate holds what it held and, of the peer's events `from` to `to`, those taken. */
  ghost predicate Holds(gate: Gate, before: Gate, all: seq<Event>, checks: Checks, from: nat, to: nat) {
    forall i :: 0 <= i < |all| ==>
      (all[i] in gate.events <==> all[i] in before.events || (from <= i < to && Takes(all[i], checks)))
  }

  /** Taking a page adds exactly the new events that pass, keeps the rest, and leaves the indexes right. */
  lemma IngestAdds(gate: Gate, all: seq<Event>, from: nat, page: seq<Event>, checks: Checks)
    requires HonestList(all, checks) && Indexed(gate, all)
    requires from + |page| <= |all| && forall i :: 0 <= i < |page| ==> page[i] == all[from + i]
    ensures var after, to := Ingest(gate, page, checks), from + |page|;
            && (forall x :: x in after.events <==> x in gate.events || x in News(gate.events, all, checks, from, to))
            && Holds(after, gate, all, checks, from, to)
            && Indexed(after, all)
            && |after.events| == |gate.events| + |News(gate.events, all, checks, from, to)|
  {
    ScreenAdds(gate, all, from, page, checks, |page|);
    var s, after := Screen(gate, page, checks, |page|), Ingest(gate, page, checks);
    SortKeepsMembers(gate.events + s.candidates);
    forall i | 0 <= i < |all|
      ensures all[i] in after.events
              <==> all[i] in gate.events || (from <= i < from + |page| && Takes(all[i], checks))
    {
      NewsMembers(gate.events, all, checks, from, from + |page|, i);
    }
  }

  lemma SortKeepsMembers(s: seq<Event>)
    ensures forall x :: x in StableSort(s, BY_RANK) <==> x in s
  {
    StableSortCorrect(s, BY_RANK);
    forall x ensures x in StableSort(s, BY_RANK) <==> x in s {
      assert x in StableSort(s, BY_RANK) <==> x in multiset(StableSort(s, BY_RANK));
      assert x in s <==> x in multiset(s);
    }
  }

  function Min(a: nat, b: nat): nat { if a < b then a else b }

  lemma PageAt(all: seq<Event>, cursor: nat, i: nat)
    requires cursor < |all| && i < |all|
    ensures cursor <= i < cursor + |Serve(all, cursor)| ==> Serve(all, cursor)[i - cursor] == all[i]
    ensures |Serve(all, cursor)| == Min(50, |all| - cursor)
  {
  }

  // ---- one pull ----

  /** Whether a pull reaches past the cursor, and where the cursor stands after it. The peer announced `total`
      events and has `length` by now. */
  function Pulls(link: Link, total: nat, length: nat): bool { link.Cursor() < total <= length }

  function NextCursor(link: Link, total: nat, length: nat): nat {
    if Pulls(link, total, length) then Min(length, link.Cursor() + 50) else link.Cursor()
  }

  /** One pull from a peer that has the first `length` events of `all`: up to the next cursor the gate gets exactly
      the events it takes. */
  lemma PullAdds(link: Link, total: nat, length: nat, all: seq<Event>, checks: Checks)
    requires HonestList(all, checks) && Indexed(link.gate, all) && total <= length <= |all|
    ensures var next, c, to := Pull(link, total, all[..length], checks), link.Cursor(), NextCursor(link, total, length);
            && next.Cursor() == to && Indexed(next.gate, all)
            && Holds(next.gate, link.gate, all, checks, c, to)
  {
    var c := link.Cursor();
    if c < total { PullOnePage(link, total, length, all, checks); }
  }

  lemma PullOnePage(link: Link, total: nat, length: nat, all: seq<Event>, checks: Checks)
    requires HonestList(all, checks) && Indexed(link.gate, all) && link.Cursor() < total <= length <= |all|
    ensures var c, to := link.Cursor(), Min(length, link.Cursor() + 50);
            && c < to <= |all|
            && var next, news := Pull(link, total, all[..length], checks), News(link.gate.events, all, checks, c, to);
               && next == Link(Ingest(link.gate, all[c..to], checks), to)
               && next.Cursor() == to && Indexed(next.gate, all)
               && Holds(next.gate, link.gate, all, checks, c, to)
               && |next.gate.events| == |link.gate.events| + |news|
  {
    var c, to := link.Cursor(), Min(length, link.Cursor() + 50);
    assert Serve(all[..length], c) == all[c..to];
    IngestAdds(link.gate, all, c, all[c..to], checks);
  }

  // ---- pulling everything from a peer that stands still ----

  function Repeat(step: Link -> Link, link: Link, n: nat): Link {
    if n == 0 then link else step(Repeat(step, link, n - 1))
  }

  function PullAll(all: seq<Event>, checks: Checks): Link -> Link { (link: Link) => Pull(link, |all|, all, checks) }

  function Pulled(link: Link, all: seq<Event>, checks: Checks, n: nat): Link { Repeat(PullAll(all, checks), link, n) }

  /** What each step carries on, every number of steps does. */
  lemma {:induction false} RepeatKeeps(step: Link -> Link, holds: (Link, nat) -> bool, link: Link, n: nat)
    requires holds(link, 0) && forall l, k: nat :: holds(l, k) ==> holds(step(l), k + 1)
    ensures holds(Repeat(step, link, n), n)
  {
    if n > 0 { RepeatKeeps(step, holds, link, n - 1); }
  }

  /** Where the cursor stands after `n` pulls. */
  function Reached(link: Link, all: seq<Event>, n: nat): nat {
    if link.Cursor() >= |all| then link.Cursor() else Min(|all|, link.Cursor() + n * 50)
  }

  /** `last` is `link` after `n` pulls from a peer that stands still. */
  ghost predicate PulledTo(link: Link, last: Link, all: seq<Event>, checks: Checks, n: nat) {
    && last.Cursor() == Reached(link, all, n)
    && Indexed(last.gate, all)
    && Holds(last.gate, link.gate, all, checks, link.Cursor(), last.Cursor())
  }

  lemma PullOneMore(link: Link, last: Link, all: seq<Event>, checks: Checks, n: nat)
    requires HonestList(all, checks) && PulledTo(link, last, all, checks, n)
    ensures PulledTo(link, Pull(last, |all|, all, checks), all, checks, n + 1)
  {
    assert all[..|all|] == all;
    PullAdds(last, |all|, |all|, all, checks);
  }

  lemma PullsAdd(link: Link, all: seq<Event>, checks: Checks, n: nat)
    requires HonestList(all, checks) && Indexed(link.gate, all)
    ensures PulledTo(link, Pulled(link, all, checks, n), all, checks, n)
  {
    var holds := (l: Link, k: nat) => PulledTo(link, l, all, checks, k);
    forall l, k: nat | holds(l, k) ensures holds(PullAll(all, checks)(l), k + 1) {
      PullOneMore(link, l, all, checks, k);
    }
    RepeatKeeps(PullAll(all, checks), holds, link, n);
  }

  /** The gate holds the peer's events from `lo` up to `hi`. */
  ghost predicate HoldsRange(gate: Gate, all: seq<Event>, lo: nat, hi: nat) {
    forall i :: lo <= i < hi && i < |all| ==> all[i] in gate.events
  }

  /** From height `lo` on, the gate holds the event or takes it. */
  ghost predicate HeldOrTaken(gate: Gate, all: seq<Event>, checks: Checks, lo: nat) {
    forall i :: lo <= i < |all| ==> all[i] in gate.events || Takes(all[i], checks)
  }

  /** Pulling until the cursor reaches the end completes the gate exactly when everything the peer has below the
      first cursor was there already, and everything from it on was there or is taken. */
  lemma PullCompletesIff(link: Link, all: seq<Event>, checks: Checks, n: nat)
    requires HonestList(all, checks) && Indexed(link.gate, all) && |all| <= link.Cursor() + n * 50
    ensures HoldsRange(Pulled(link, all, checks, n).gate, all, 0, |all|)
            <==> HoldsRange(link.gate, all, 0, link.Cursor()) && HeldOrTaken(link.gate, all, checks, link.Cursor())
  {
    PullsAdd(link, all, checks, n);
    var last := Pulled(link, all, checks, n);
    assert Holds(last.gate, link.gate, all, checks, link.Cursor(), last.Cursor());
    assert last.Cursor() >= |all|;
  }

  /** An event that the peer sorts in below the cursor is never fetched, and one that was not taken is never asked for
      again. */
  lemma LostForGood(link: Link, all: seq<Event>, checks: Checks, i: nat, n: nat)
    requires HonestList(all, checks) && Indexed(link.gate, all)
    requires i < |all| && all[i] !in link.gate.events
    requires i < link.Cursor() || !Takes(all[i], checks)
    ensures all[i] !in Pulled(link, all, checks, n).gate.events
  {
    PullsAdd(link, all, checks, n);
  }

  /** It happens: the peer holds two events, the puller only the later one. */
  lemma SkippingHappens(n: nat)
    ensures var early, late := Event(1, 1, 0.0, 0), Event(2, 2, 1.0, 0);
            var lenient := Checks((e: Event) => true, (e: Event) => true, (e: Event) => true, (e: Event) => e);
            early !in Pulled(Link(Gate([late], {2}, {2}), 0), [early, late], lenient, n).gate.events
  {
    var early, late := Event(1, 1, 0.0, 0), Event(2, 2, 1.0, 0);
    var lenient := Checks((e: Event) => true, (e: Event) => true, (e: Event) => true, (e: Event) => e);
    LostForGood(Link(Gate([late], {2}, {2}), 0), [early, late], lenient, 0, n);
  }

  /** And with nothing below the cursor: the first of two events is outside the time window, and the empty gate never
      gets it, though the cursor passes it. */
  lemma RefusalHappens(n: nat)
    requires n > 0
    ensures var early, late := Event(1, 1, 0.0, 0), Event(2, 2, 1.0, 0);
            var window := Checks((e: Event) => e.rank >= 1.0, (e: Event) => true, (e: Event) => true, (e: Event) => e);
            var last := Pulled(Link(Gate([], {}, {}), 0), [early, late], window, n);
            early !in last.gate.events && last.Cursor() == 2
  {
    var early, late := Event(1, 1, 0.0, 0), Event(2, 2, 1.0, 0);
    var window := Checks((e: Event) => e.rank >= 1.0, (e: Event) => true, (e: Event) => true, (e: Event) => e);
    var link := Link(Gate([], {}, {}), 0);
    LostForGood(link, [early, late], window, 0, n);
    PullsAdd(link, [early, late], window, n);
  }

  // ---- a peer that only appends ----

  /** `checks` are the puller's when it pulls: the time window moves. */
  datatype Action = Append(more: seq<Event>) | Succeed(total: nat, checks: Checks) | Fail

  /** The puller and the peer's list. */
  datatype Pair = Pair(link: Link, all: seq<Event>)

  function Step(p: Pair, a: Action): Pair {
    match a
    case Append(more) => p.(all := p.all + more)
    case Succeed(total, checks) => if total <= |p.all| then p.(link := Pull(p.link, total, p.all, checks)) else p
    case Fail => p
  }

  function After(p: Pair, run: seq<Action>, n: nat): Pair
    requires n <= |run|
  {
    if n == 0 then p else Step(After(p, run, n - 1), run[n - 1])
  }

  /** `all` is the list at the end of the run: events as a store keeps them, of which the puller's indexes know at the
      start exactly those it holds. */
  ghost predicate HonestRun(p: Pair, run: seq<Action>, all: seq<Event>) {
    && Distinct(all) && Indexed(p.link.gate, all) && p.link.Cursor() <= |p.all|
    && forall k: nat :: k <= |run| ==> HonestAt(p, run, all, k)
  }

  ghost predicate HonestAt(p: Pair, run: seq<Action>, all: seq<Event>, k: nat)
    requires k <= |run|
  {
    After(p, run, k).all <= all && (k < |run| && run[k].Succeed? ==> AllStored(all, run[k].checks))
  }

  /** This step asks for event `i` of the list. */
  predicate Asks(p: Pair, a: Action, i: nat) {
    a.Succeed? && Pulls(p.link, a.total, |p.all|) && p.link.Cursor() <= i < NextCursor(p.link, a.total, |p.all|)
  }

  ghost predicate AsksAt(p: Pair, run: seq<Action>, k: nat, i: nat)
    requires k < |run|
  {
    Asks(After(p, run, k), run[k], i)
  }

  /** Step `k` of the run asks for event `i` and the puller takes it. */
  ghost predicate FetchedAt(p: Pair, run: seq<Action>, all: seq<Event>, k: nat, i: nat)
    requires k < |run| && i < |all|
  {
    AsksAt(p, run, k, i) && Takes(all[i], run[k].checks)
  }

  /** The peer's list is a prefix of `all`, the indexes are right, and the cursor is within the list. */
  ghost predicate Settled(p: Pair, all: seq<Event>) {
    p.all <= all && Indexed(p.link.gate, all) && p.link.Cursor() <= |p.all|
  }

  lemma StepAdds(p: Pair, a: Action, all: seq<Event>)
    requires Distinct(all) && Settled(p, all) && Step(p, a).all <= all && (a.Succeed? ==> AllStored(all, a.checks))
    ensures var next := Step(p, a);
            && Settled(next, all) && p.link.Cursor() <= next.link.Cursor()
            && forall i :: 0 <= i < |all| ==>
                 (all[i] in next.link.gate.events
                  <==> all[i] in p.link.gate.events || (Asks(p, a, i) && Takes(all[i], a.checks)))
  {
    if a.Succeed? && a.total <= |p.all| {
      assert p.all == all[..|p.all|];
      PullAdds(p.link, a.total, |p.all|, all, a.checks);
    }
  }

  lemma {:induction false} StaysSettled(p: Pair, run: seq<Action>, all: seq<Event>, n: nat)
    requires n <= |run| && HonestRun(p, run, all)
    ensures Settled(After(p, run, n), all)
  {
    assert HonestAt(p, run, all, n);
    if n > 0 {
      StaysSettled(p, run, all, n - 1);
      assert HonestAt(p, run, all, n - 1);
      StepAdds(After(p, run, n - 1), run[n - 1], all);
    }
  }

  /** Over every run of appends, failed and successful pulls, with the time window moving as it likes: the puller holds
      exactly what it held at the start and the events that some step asked for at a time when it took them. */
  lemma {:induction false} RunHoldsIff(p: Pair, run: seq<Action>, all: seq<Event>, n: nat, i: nat)
    requires n <= |run| && HonestRun(p, run, all) && i < |all|
    ensures all[i] in After(p, run, n).link.gate.events
            <==> all[i] in p.link.gate.events || exists k: nat :: k < n && FetchedAt(p, run, all, k, i)
  {
    if n > 0 {
      RunHoldsIff(p, run, all, n - 1, i);
      StaysSettled(p, run, all, n - 1);
      HoldsNext(p, run, all, n - 1, i);
    }
  }

  lemma HoldsNext(p: Pair, run: seq<Action>, all: seq<Event>, n: nat, i: nat)
    requires n < |run| && HonestRun(p, run, all) && i < |all| && Settled(After(p, run, n), all)
    ensures all[i] in After(p, run, n + 1).link.gate.events
            <==> all[i] in After(p, run, n).link.gate.events || FetchedAt(p, run, all, n, i)
  {
    assert HonestAt(p, run, all, n) && HonestAt(p, run, all, n + 1);
    StepAdds(After(p, run, n), run[n], all);
  }

  lemma {:induction false} CursorsAreMonotone(p: Pair, run: seq<Action>, all: seq<Event>, m: nat, n: nat)
    requires m <= n <= |run| && HonestRun(p, run, all)
    ensures After(p, run, m).link.Cursor() <= After(p, run, n).link.Cursor()
  {
    if m < n {
      CursorsAreMonotone(p, run, all, m, n - 1);
      StaysSettled(p, run, all, n - 1);
      assert HonestAt(p, run, all, n - 1) && HonestAt(p, run, all, n);
      StepAdds(After(p, run, n - 1), run[n - 1], all);
    }
  }

  /** No event is asked for twice: once the puller has refused an event it never gets it from this peer. */
  lemma AskedForOnce(p: Pair, run: seq<Action>, all: seq<Event>, m: nat, n: nat, i: nat)
    requires m < n < |run| && HonestRun(p, run, all) && AsksAt(p, run, m, i)
    ensures !AsksAt(p, run, n, i)
  {
    AskedIsPassedAt(p, run, all, m, i);
    CursorsAreMonotone(p, run, all, m + 1, n);
    NotAskedBelow(p, run, n, i);
  }

  lemma NotAskedBelow(p: Pair, run: seq<Action>, n: nat, i: nat)
    requires n < |run|
    ensures i < After(p, run, n).link.Cursor() ==> !AsksAt(p, run, n, i)
  {
  }

  lemma AskedIsPassedAt(p: Pair, run: seq<Action>, all: seq<Event>, m: nat, i: nat)
    requires m < |run| && HonestRun(p, run, all) && AsksAt(p, run, m, i)
    ensures i < After(p, run, m + 1).link.Cursor()
  {
    StaysSettled(p, run, all, m);
    assert HonestAt(p, run, all, m);
    AskedIsPassed(After(p, run, m), run[m], all, i);
  }

  lemma AskedIsPassed(p: Pair, a: Action, all: seq<Event>, i: nat)
    requires Distinct(all) && Settled(p, all) && (a.Succeed? ==> AllStored(all, a.checks)) && Asks(p, a, i)
    ensures i < Step(p, a).link.Cursor()
  {
    assert p.all == all[..|p.all|];
    PullAdds(p.link, a.total, |p.all|, all, a.checks);
  }

  // ---- when the list is a prefix of the peer's ----

  /** The puller holds a prefix of the peer's list and the cursor is its length. */
  ghost predicate Prefixed(p: Pair) {
    var k := |p.link.gate.events|;
    k <= |p.all| && p.link.gate.events == p.all[..k] && p.link.known <= k
  }

  /** A prefix, or a cursor that has run ahead of what is held. */
  ghost predicate PrefixedOrAhead(p: Pair) { Prefixed(p) || |p.link.gate.events| < p.link.known }

  /** Everything the step asks for is taken. */
  ghost predicate TakesPage(p: Pair, a: Action, all: seq<Event>) {
    forall i :: 0 <= i < |all| && Asks(p, a, i) ==> Takes(all[i], a.checks)
  }

  lemma {:induction false} NewsWhole(held: seq<Event>, all: seq<Event>, checks: Checks, lo: nat, hi: nat)
    requires lo <= hi <= |all|
    requires forall i :: lo <= i < hi ==> all[i] !in held && Takes(all[i], checks)
    ensures News(held, all, checks, lo, hi) == all[lo..hi]
  {
    if lo < hi {
      NewsWhole(held, all, checks, lo, hi - 1);
      assert all[lo..hi] == all[lo..hi - 1] + [all[hi - 1]];
    }
  }

  lemma {:induction false} NewsShort(held: seq<Event>, all: seq<Event>, checks: Checks, lo: nat, hi: nat, i: nat)
    requires lo <= i < hi <= |all| && !Takes(all[i], checks)
    ensures |News(held, all, checks, lo, hi)| < hi - lo
  {
    if i < hi - 1 { NewsShort(held, all, checks, lo, hi - 1, i); }
  }

  lemma NotInPrefix(all: seq<Event>, k: nat)
    requires Distinct(all) && k <= |all|
    ensures forall i :: k <= i < |all| ==> all[i] !in all[..k]
  {
  }

  /** When the new events rank last, the sort changes nothing. */
  lemma IngestAppends(gate: Gate, all: seq<Event>, from: nat, to: nat, checks: Checks)
    requires HonestList(all, checks) && Indexed(gate, all) && from <= to <= |all|
    requires Sorted(gate.events + News(gate.events, all, checks, from, to), BY_RANK)
    ensures Ingest(gate, all[from..to], checks).events == gate.events + News(gate.events, all, checks, from, to)
  {
    ScreenAdds(gate, all, from, all[from..to], checks, to - from);
    IngestIs(gate, all[from..to], checks, News(gate.events, all, checks, from, to));
  }

  lemma IngestIs(gate: Gate, page: seq<Event>, checks: Checks, news: seq<Event>)
    requires Screen(gate, page, checks, |page|).candidates == news && Sorted(gate.events + news, BY_RANK)
    ensures Ingest(gate, page, checks).events == gate.events + news
  {
    SortedIsFixed(gate.events + news, BY_RANK);
    if news == [] { assert gate.events + news == gate.events; }
  }

  lemma SortedJoin(all: seq<Event>, k: nat, to: nat)
    requires k <= to <= |all| && Sorted(all, BY_RANK)
    ensures all[..k] + all[k..to] == all[..to] && Sorted(all[..to], BY_RANK)
  {
  }

  /** A page taken whole on top of a prefix. */
  lemma WholePage(gate: Gate, all: seq<Event>, k: nat, to: nat, checks: Checks)
    requires k <= to <= |all| && gate.events == all[..k] && Sorted(all, BY_RANK)
    requires HonestList(all, checks) && Indexed(gate, all)
    requires forall i :: k <= i < to ==> Takes(all[i], checks)
    ensures Ingest(gate, all[k..to], checks).events == all[..to]
  {
    NotInPrefix(all, k);
    NewsWhole(gate.events, all, checks, k, to);
    SortedJoin(all, k, to);
    IngestAppends(gate, all, k, to, checks);
  }

  /** The list stays a prefix exactly if the step takes all it asks for; once the cursor is ahead, it stays ahead. */
  lemma PrefixedNext(p: Pair, a: Action, all: seq<Event>)
    requires Distinct(all) && Sorted(all, BY_RANK) && Settled(p, all) && PrefixedOrAhead(p)
    requires Step(p, a).all <= all && (a.Succeed? ==> AllStored(all, a.checks))
    ensures Prefixed(Step(p, a)) <==> Prefixed(p) && TakesPage(p, a, all)
    ensures PrefixedOrAhead(Step(p, a))
  {
    if a.Append? {
      assert (p.all + a.more)[..|p.all|] == p.all;
    } else if a.Succeed? && Pulls(p.link, a.total, |p.all|) {
      PageKeepsPrefixIff(p, a, all);
    }
  }

  lemma PageKeepsPrefixIff(p: Pair, a: Action, all: seq<Event>)
    requires Distinct(all) && Sorted(all, BY_RANK) && Settled(p, all) && PrefixedOrAhead(p)
    requires a.Succeed? && Pulls(p.link, a.total, |p.all|) && AllStored(all, a.checks)
    ensures Prefixed(Step(p, a)) <==> Prefixed(p) && TakesPage(p, a, all)
    ensures PrefixedOrAhead(Step(p, a))
  {
    PageStep(p, a, all);
    if !TakesPage(p, a, all) {
      ShortPage(p, a, all);
    } else if Prefixed(p) {
      WholePageOf(p, a, all);
    }
  }

  lemma PageStep(p: Pair, a: Action, all: seq<Event>)
    requires Distinct(all) && Settled(p, all) && a.Succeed? && Pulls(p.link, a.total, |p.all|)
             && AllStored(all, a.checks)
    ensures var c, to := p.link.Cursor(), NextCursor(p.link, a.total, |p.all|);
            && c < to <= |p.all| && p.all == all[..|p.all|]
            && Step(p, a) == Pair(Link(Ingest(p.link.gate, all[c..to], a.checks), to), p.all)
            && |Ingest(p.link.gate, all[c..to], a.checks).events|
               == |p.link.gate.events| + |News(p.link.gate.events, all, a.checks, c, to)|
  {
    assert p.all == all[..|p.all|];
    PullOnePage(p.link, a.total, |p.all|, all, a.checks);
  }

  lemma WholePageOf(p: Pair, a: Action, all: seq<Event>)
    requires a.Succeed? && Pulls(p.link, a.total, |p.all|) && TakesPage(p, a, all)
    requires HonestList(all, a.checks) && Sorted(all, BY_RANK) && Settled(p, all) && Prefixed(p)
    ensures var c, to := p.link.Cursor(), NextCursor(p.link, a.total, |p.all|);
            Ingest(p.link.gate, all[c..to], a.checks).events == all[..to]
  {
    var c, to := p.link.Cursor(), NextCursor(p.link, a.total, |p.all|);
    forall i | c <= i < to ensures Takes(all[i], a.checks) { assert Asks(p, a, i); }
    WholePage(p.link.gate, all, c, to, a.checks);
  }

  lemma ShortPage(p: Pair, a: Action, all: seq<Event>)
    requires |p.all| <= |all| && a.Succeed? && Pulls(p.link, a.total, |p.all|) && !TakesPage(p, a, all)
    ensures var c, to := p.link.Cursor(), NextCursor(p.link, a.total, |p.all|);
            |News(p.link.gate.events, all, a.checks, c, to)| < to - c
  {
    var i :| 0 <= i < |all| && Asks(p, a, i) && !Takes(all[i], a.checks);
    NewsShort(p.link.gate.events, all, a.checks, p.link.Cursor(), NextCursor(p.link, a.total, |p.all|), i);
  }

  ghost predicate TookPageAt(p: Pair, run: seq<Action>, all: seq<Event>, k: nat)
    requires k < |run|
  {
    TakesPage(After(p, run, k), run[k], all)
  }

  ghost predicate PrefixedAt(p: Pair, run: seq<Action>, n: nat)
    requires n <= |run|
  {
    Prefixed(After(p, run, n))
  }

  ghost predicate PrefixedOrAheadAt(p: Pair, run: seq<Action>, n: nat)
    requires n <= |run|
  {
    PrefixedOrAhead(After(p, run, n))
  }

  lemma PrefixedAtNext(p: Pair, run: seq<Action>, all: seq<Event>, n: nat)
    requires n < |run| && HonestRun(p, run, all) && Sorted(all, BY_RANK) && PrefixedOrAheadAt(p, run, n)
    ensures PrefixedAt(p, run, n + 1) <==> PrefixedAt(p, run, n) && TookPageAt(p, run, all, n)
    ensures PrefixedOrAheadAt(p, run, n + 1)
  {
    StaysSettled(p, run, all, n);
    assert HonestAt(p, run, all, n) && HonestAt(p, run, all, n + 1);
    PrefixedNext(After(p, run, n), run[n], all);
  }

  /** From a prefix, with newcomers ranking last: after any run the local list is a prefix of the peer's, ending at the
      cursor, if and only if every page asked for on the way was taken whole. */
  lemma {:induction false} PrefixedIff(p: Pair, run: seq<Action>, all: seq<Event>, n: nat)
    requires n <= |run| && HonestRun(p, run, all) && Sorted(all, BY_RANK) && Prefixed(p)
    ensures PrefixedAt(p, run, n) <==> forall k: nat :: k < n ==> TookPageAt(p, run, all, k)
    ensures PrefixedOrAheadAt(p, run, n)
  {
    if n > 0 {
      PrefixedIff(p, run, all, n - 1);
      PrefixedAtNext(p, run, all, n - 1);
    }
  }

  // ---- from a prefix, in closed form ----

  /** The list is in order, and nothing in it ranks above the events from height `to` on. */
  ghost predicate RanksBelow(events: seq<Event>, all: seq<Event>, to: nat) {
    Sorted(events, BY_RANK) && forall i, j :: 0 <= i < |events| && to <= j < |all| ==> events[i].rank <= all[j].rank
  }

  lemma {:induction false} NewsRankBelow(events: seq<Event>, held: seq<Event>, all: seq<Event>, checks: Checks, lo: nat,
                                         hi: nat)
    requires lo <= hi <= |all| && Sorted(all, BY_RANK) && RanksBelow(events, all, lo)
    ensures RanksBelow(events + News(held, all, checks, lo, hi), all, hi)
  {
    if lo < hi {
      NewsRankBelow(events, held, all, checks, lo, hi - 1);
      OneMoreRanksBelow(events + News(held, all, checks, lo, hi - 1), all, hi - 1);
      var e := all[hi - 1];
      assert events + News(held, all, checks, lo, hi)
          == events + News(held, all, checks, lo, hi - 1) + if e !in held && Takes(e, checks) then [e] else [];
    }
  }

  lemma OneMoreRanksBelow(events: seq<Event>, all: seq<Event>, i: nat)
    requires i < |all| && Sorted(all, BY_RANK) && RanksBelow(events, all, i)
    ensures RanksBelow(events, all, i + 1) && RanksBelow(events + [all[i]], all, i + 1)
  {
    assert BY_RANK(all[i]) == all[i].rank;
    forall j | i <= j < |all| ensures all[i].rank <= all[j].rank {
      if i < j { assert BY_RANK(all[i]) <= BY_RANK(all[j]); }
    }
  }

  lemma {:induction false} NewsSplit(held: seq<Event>, now: seq<Event>, all: seq<Event>, checks: Checks, lo: nat,
                                     mid: nat, hi: nat)
    requires lo <= mid <= hi <= |all|
    requires forall i :: mid <= i < hi ==> (all[i] in now <==> all[i] in held)
    ensures News(held, all, checks, lo, hi) == News(held, all, checks, lo, mid) + News(now, all, checks, mid, hi)
  {
    if mid < hi { NewsSplit(held, now, all, checks, lo, mid, hi - 1); }
  }

  /** `last` is `link` after the pulls up to height `to`. */
  ghost predicate AppendedTo(link: Link, last: Link, all: seq<Event>, checks: Checks, to: nat) {
    && link.Cursor() <= to <= |all|
    && last.Cursor() == to && Indexed(last.gate, all)
    && last.gate.events == link.gate.events + News(link.gate.events, all, checks, link.Cursor(), to)
    && RanksBelow(last.gate.events, all, to)
  }

  lemma AppendPage(link: Link, last: Link, all: seq<Event>, checks: Checks, to: nat)
    requires HonestList(all, checks) && Sorted(all, BY_RANK) && AppendedTo(link, last, all, checks, to) && to < |all|
    requires Holds(last.gate, link.gate, all, checks, link.Cursor(), to)
    ensures AppendedTo(link, Pull(last, |all|, all, checks), all, checks, Min(|all|, to + 50))
  {
    AppendNews(last, all, checks);
    NewsOnward(link, last, all, checks, to, Min(|all|, to + 50));
  }

  lemma AppendNews(last: Link, all: seq<Event>, checks: Checks)
    requires HonestList(all, checks) && Sorted(all, BY_RANK) && Indexed(last.gate, all)
    requires last.Cursor() < |all| && RanksBelow(last.gate.events, all, last.Cursor())
    ensures var next, to, end := Pull(last, |all|, all, checks), last.Cursor(), Min(|all|, last.Cursor() + 50);
            && next.Cursor() == end && Indexed(next.gate, all)
            && next.gate.events == last.gate.events + News(last.gate.events, all, checks, to, end)
            && RanksBelow(next.gate.events, all, end)
  {
    var to, end := last.Cursor(), Min(|all|, last.Cursor() + 50);
    assert all[..|all|] == all;
    PullOnePage(last, |all|, |all|, all, checks);
    NewsRankBelow(last.gate.events, last.gate.events, all, checks, to, end);
    IngestAppends(last.gate, all, to, end, checks);
  }

  lemma NewsOnward(link: Link, last: Link, all: seq<Event>, checks: Checks, to: nat, end: nat)
    requires link.Cursor() <= to <= end <= |all|
    requires Holds(last.gate, link.gate, all, checks, link.Cursor(), to)
    ensures var news := News(link.gate.events, all, checks, link.Cursor(), to);
            link.gate.events + news + News(last.gate.events, all, checks, to, end)
            == link.gate.events + News(link.gate.events, all, checks, link.Cursor(), end)
  {
    NewsSplit(link.gate.events, last.gate.events, all, checks, link.Cursor(), to, end);
  }

  /** `last` is `link` after `n` pulls. */
  ghost predicate Converged(link: Link, last: Link, all: seq<Event>, checks: Checks, n: nat) {
    AppendedTo(link, last, all, checks, Reached(link, all, n)) && PulledTo(link, last, all, checks, n)
  }

  lemma ConvergeMore(link: Link, last: Link, all: seq<Event>, checks: Checks, n: nat)
    requires HonestList(all, checks) && Sorted(all, BY_RANK) && Converged(link, last, all, checks, n)
    ensures Converged(link, Pull(last, |all|, all, checks), all, checks, n + 1)
  {
    PullOneMore(link, last, all, checks, n);
    var to := Reached(link, all, n);
    ReachedNext(link, all, n);
    if to < |all| { AppendPage(link, last, all, checks, to); } else { PullAtEnd(last, all, checks); }
  }

  lemma ReachedNext(link: Link, all: seq<Event>, n: nat)
    requires link.Cursor() <= |all|
    ensures Reached(link, all, n + 1) == Min(|all|, Reached(link, all, n) + 50)
  {
  }

  lemma PullAtEnd(link: Link, all: seq<Event>, checks: Checks)
    requires link.Cursor() >= |all|
    ensures Pull(link, |all|, all, checks) == link
  {
  }

  /** With what is held ranking below what is to come: `n` successful pulls bring the cursor fifty events on each, or
      to the end, and append exactly the new events on the way that are taken, in the peer's order. */
  lemma PullConverges(link: Link, all: seq<Event>, checks: Checks, n: nat)
    requires HonestList(all, checks) && Sorted(all, BY_RANK) && Indexed(link.gate, all)
    requires link.Cursor() <= |all| && RanksBelow(link.gate.events, all, link.Cursor())
    ensures AppendedTo(link, Pulled(link, all, checks, n), all, checks, Min(|all|, link.Cursor() + n * 50))
  {
    var holds := (l: Link, k: nat) => Converged(link, l, all, checks, k);
    forall l, k: nat | holds(l, k) ensures holds(PullAll(all, checks)(l), k + 1) {
      ConvergeMore(link, l, all, checks, k);
    }
    RepeatKeeps(PullAll(all, checks), holds, link, n);
  }

  // ---- the store and the loop ----

  class Puller {
    var events: seq<Event>
    var eventIndex: set<nat>
    var replayIndex: set<nat>
    var lastCount: nat

    ghost function State(): Link
      reads this
    {
      Link(Gate(events, eventIndex, replayIndex), lastCount)
    }

    /** `ingest_peer_events`; `stored` says whether the new events can be written to disk. If not, it raises
        and nothing has changed. */
    method IngestPeerEvents(page: seq<Event>, checks: Checks, stored: bool)
      returns (raised: bool, accepted: nat, duplicates: nat, rejected: nat)
      modifies this
      ensures raised <==> !stored && Screen(old(State()).gate, page, checks, |page|).candidates != []
      ensures raised ==> State() == old(State())
      ensures !raised ==> State() == Link(Ingest(old(State()).gate, page, checks), old(lastCount))
      ensures !raised ==> accepted + duplicates + rejected == |page| && accepted == |events| - |old(events)|
    {
      var candidates: seq<Event>, batchIds, batchPrints := [], {}, {};
      raised, duplicates, rejected := false, 0, 0;
      for i := 0 to |page|
        invariant Screened(candidates, eventIndex + batchIds, replayIndex + batchPrints, duplicates, rejected)
                  == Screen(State().gate, page, checks, i)
        invariant |candidates| + duplicates + rejected == i
      {
        var e := page[i];
        ghost var ids, prints := eventIndex + batchIds, replayIndex + batchPrints;
        if !checks.shape(e) { rejected := rejected + 1; continue; }
        if e.fingerprint in replayIndex || e.fingerprint in batchPrints { duplicates := duplicates + 1; continue; }
        if e.id != 0 && !checks.named(e) { rejected := rejected + 1; continue; }
        if e.id != 0 && (e.id in eventIndex || e.id in batchIds) { duplicates := duplicates + 1; continue; }
        if !checks.content(e) { rejected := rejected + 1; continue; }
        var c := checks.clean(e);
        if c.id in eventIndex || c.id in batchIds { duplicates := duplicates + 1; continue; }
        candidates := candidates + [c];
        batchIds, batchPrints := batchIds + IdOf(c), batchPrints + {e.fingerprint};
        assert eventIndex + batchIds == ids + IdOf(c) && replayIndex + batchPrints == prints + {e.fingerprint};
      }
      accepted := |candidates|;
      if candidates == [] { return; }
      var staged := StableSort(events + candidates, BY_RANK);
      if !stored {
        raised := true;
        return;
      }
      events := staged;
      eventIndex, replayIndex := eventIndex + batchIds, replayIndex + batchPrints;
    }

    /** The pull of one gate in `_http_gate_pull_loop`; an exception leaves everything as it was. */
    method PullGate(remoteTotal: nat, all: seq<Event>, checks: Checks, stored: bool) returns (raised: bool)
      modifies this
      ensures raised ==> !stored && State() == old(State())
      ensures !raised ==> State() == Pull(old(State()), remoteTotal, all, checks)
    {
      var cursor := if lastCount < |events| then |events| else lastCount;
      if cursor >= remoteTotal { return false; }
      var page := Serve(all, cursor);
      if page == [] {
        lastCount := remoteTotal;
        return false;
      }
      var accepted, duplicates, rejected;
      raised, accepted, duplicates, rejected := IngestPeerEvents(page, checks, stored);
      if !raised {
        lastCount := cursor + |page|;
      }
    }
  }
}
