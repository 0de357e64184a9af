/** Replay protection of signed requests: `_prune_nonce_cache` and `_verify_openclaw_hmac` of
    backend/auth.py. Every reading of the clock is an input; one verification runs at a time. */
module NonceCache {
  import opened Sorting

  const MAX := 16384
  const TTL := 300.0
  const MAX_AGE := 60
  const GRACE := 120.0

  datatype Nonce = Nonce(text: string)

  /** The cache is a dictionary from nonce to time of recording, in insertion order. */
  datatype Entry = Entry(nonce: Nonce, time: real)

  const BY_TIME: Entry -> real := (e: Entry) => e.time

  // ---- pruning ----

  /** The unexpired ones among the first `n` entries. */
  function LiveUpTo(entries: seq<Entry>, now: real, n: nat): seq<Entry>
    requires n <= |entries|
  {
    if n == 0 then []
    else LiveUpTo(entries, now, n - 1) + if now - entries[n - 1].time > TTL then [] else [entries[n - 1]]
  }

  function Live(entries: seq<Entry>, now: real): seq<Entry> { LiveUpTo(entries, now, |entries|) }

  /** Some doomed entry carries this nonce. */
  predicate Doomed(nonce: Nonce, doomed: seq<Entry>, n: nat)
    requires n <= |doomed|
  {
    n > 0 && (doomed[n - 1].nonce == nonce || Doomed(nonce, doomed, n - 1))
  }

  function WithoutUpTo(entries: seq<Entry>, doomed: seq<Entry>, n: nat): seq<Entry>
    requires n <= |entries|
  {
    if n == 0 then []
    else WithoutUpTo(entries, doomed, n - 1) + if Doomed(entries[n - 1].nonce, doomed, |doomed|) then []
      else [entries[n - 1]]
  }

  /** The oldest entries beyond the cap. */
  function Oldest(live: seq<Entry>): seq<Entry>
    requires |live| > MAX
  {
    StableSort(live, BY_TIME)[..|live| - MAX]
  }

  /** `_prune_nonce_cache` */
  function Pruned(entries: seq<Entry>, now: real): seq<Entry> {
    var live := Live(entries, now);
    if |live| > MAX then WithoutUpTo(live, Oldest(live), |live|) else live
  }

  // ---- one request ----

  /** The headers and the secret. `timestamp` is the integer the header spells, if it spells one;
      `signed` is the answer of the signature check. */
  datatype Request = Request(hasSecret: bool, hasFields: bool, nonce: Nonce, timestamp: Stamp, signed: bool)
  datatype Stamp = Unreadable | At(seconds: int)

  /** The clock as read for the freshness test, for the grace test, when pruning and when recording. */
  datatype Clock = Clock(checked: real, grace: real, prune: real, record: real)

  function Abs(x: int): nat { if x < 0 then -x else x }

  function MaxAge(boot: real, grace: real): int { if grace - boot < GRACE then 10 else MAX_AGE }

  predicate IsFresh(boot: real, seconds: int, clock: Clock) {
    Abs(clock.checked.Floor - seconds) <= MaxAge(boot, clock.grace)
  }

  /** Everything that is checked before the cache. */
  predicate Presentable(boot: real, r: Request, clock: Clock) {
    r.hasSecret && r.hasFields && |r.nonce.text| >= 16 && r.timestamp.At? && IsFresh(boot, r.timestamp.seconds, clock)
  }

  predicate Cached(entries: seq<Entry>, nonce: Nonce) {
    exists i :: 0 <= i < |entries| && entries[i].nonce == nonce
  }

  predicate Accepts(boot: real, entries: seq<Entry>, r: Request, clock: Clock) {
    Presentable(boot, r, clock) && !Cached(Pruned(entries, clock.prune), r.nonce) && r.signed
  }

  function CacheAfter(boot: real, entries: seq<Entry>, r: Request, clock: Clock): seq<Entry> {
    if !Presentable(boot, r, clock) then entries
    else if Accepts(boot, entries, r, clock) then Pruned(entries, clock.prune) + [Entry(r.nonce, clock.record)]
    else Pruned(entries, clock.prune)
  }

  /** The cache as the program holds it. */
  class Cache {
    var entries: seq<Entry>
    const boot: real

    constructor (boot: real)
      ensures entries == [] && this.boot == boot
    {
      entries, this.boot := [], boot;
    }

    /** `_prune_nonce_cache` */
    method Prune(now: real)
      modifies this
      ensures entries == Pruned(old(entries), now)
    {
      DropExpired(now);
      if |entries| > MAX {
        DropOldest();
      }
    }

    method DropExpired(now: real)
      modifies this
      ensures entries == Live(old(entries), now)
    {
      var live: seq<Entry> := [];
      for i := 0 to |entries|
        invariant entries == old(entries) && live == LiveUpTo(entries, now, i)
      {
        if !(now - entries[i].time > TTL) {
          live := live + [entries[i]];
        }
      }
      entries := live;
    }

    method DropOldest()
      requires |entries| > MAX
      modifies this
      ensures entries == WithoutUpTo(old(entries), Oldest(old(entries)), |old(entries)|)
    {
      var oldest := StableSort(entries, BY_TIME)[..|entries| - MAX];
      var kept: seq<Entry> := [];
      for i := 0 to |entries|
        invariant entries == old(entries) && kept == WithoutUpTo(entries, oldest, i)
      {
        if !Doomed(entries[i].nonce, oldest, |oldest|) {
          kept := kept + [entries[i]];
        }
      }
      entries := kept;
    }

    /** `_verify_openclaw_hmac` */
    method Verify(r: Request, clock: Clock) returns (ok: bool)
      modifies this
      ensures ok == Accepts(boot, old(entries), r, clock)
      ensures entries == CacheAfter(boot, old(entries), r, clock)
    {
      if !r.hasSecret || !r.hasFields { return false; }
      if |r.nonce.text| < 16 { return false; }
      if r.timestamp.Unreadable? { return false; }
      var inGrace := clock.grace - boot < GRACE;
      var maxAge := if inGrace then 10 else MAX_AGE;
      if Abs(clock.checked.Floor - r.timestamp.seconds) > maxAge { return false; }
      Prune(clock.prune);
      if Cached(entries, r.nonce) { return false; }
      if !r.signed { return false; }
      entries := entries + [Entry(r.nonce, clock.record)];
      ok := true;
    }
  }

  /** The stamp is within the allowed number of seconds of the clock: 60, but 10 in the first two minutes. */
  predicate InTime(boot: real, seconds: int, clock: Clock) {
    var now, allowed := clock.checked.Floor, if clock.grace < boot + 120.0 then 10 else 60;
    now - allowed <= seconds <= now + allowed
  }

  /** Whatever the cache holds, a request is refused exactly if there is no secret, a field is missing, the nonce has
      fewer than 16 characters, the stamp is no integer or out of time, or the signature is wrong. */
  lemma RefusedWhateverIff(boot: real, r: Request, clock: Clock)
    ensures (forall entries :: !Accepts(boot, entries, r, clock))
            <==> || !r.hasSecret || !r.hasFields || |r.nonce.text| < 16 || !r.signed
                 || r.timestamp.Unreadable? || !InTime(boot, r.timestamp.seconds, clock)
  {
    assert Live([], clock.prune) == [] && Pruned([], clock.prune) == [];
    assert !Cached([], r.nonce);
    if r.timestamp.At? { FreshIffInTime(boot, r.timestamp.seconds, clock); }
    assert Accepts(boot, [], r, clock) <==> Presentable(boot, r, clock) && r.signed;
  }

  lemma FreshIffInTime(boot: real, seconds: int, clock: Clock)
    ensures IsFresh(boot, seconds, clock) <==> InTime(boot, seconds, clock)
  {
  }

  // ---- what pruning drops ----

  ghost predicate InOrder(entries: seq<Entry>) {
    && Sorted(entries, BY_TIME)
    && forall i, j :: 0 <= i < j < |entries| ==> entries[i].nonce != entries[j].nonce
  }

  /** Of the first `n` entries those before `d` have expired and the others have not. */
  ghost predicate ExpiredBelow(entries: seq<Entry>, now: real, d: nat, n: nat)
    requires d <= n <= |entries|
  {
    && (forall k :: 0 <= k < d ==> now - entries[k].time > TTL)
    && (forall k :: d <= k < n ==> now - entries[k].time <= TTL)
  }

  lemma {:induction false} LiveIsSuffix(entries: seq<Entry>, now: real, n: nat) returns (d: nat)
    requires n <= |entries| && InOrder(entries)
    ensures d <= n && ExpiredBelow(entries, now, d, n) && LiveUpTo(entries, now, n) == entries[d..n]
  {
    if n == 0 {
      d := 0;
    } else {
      d := LiveIsSuffix(entries, now, n - 1);
      if now - entries[n - 1].time > TTL {
        AllExpired(entries, now, d, n - 1);
        d := n;
      } else {
        OneMore(entries, d, n - 1);
      }
    }
  }

  lemma AllExpired(entries: seq<Entry>, now: real, d: nat, n: nat)
    requires d <= n < |entries| && InOrder(entries) && ExpiredBelow(entries, now, d, n) && now - entries[n].time > TTL
    ensures ExpiredBelow(entries, now, n + 1, n + 1) && entries[d..n] == entries[n + 1..n + 1]
  {
    OlderExpired(entries, now, n);
    assert now - entries[d].time > TTL;
  }

  lemma OlderExpired(entries: seq<Entry>, now: real, n: nat)
    requires n < |entries| && InOrder(entries) && now - entries[n].time > TTL
    ensures forall k :: 0 <= k <= n ==> now - entries[k].time > TTL
  {
    forall k | 0 <= k <= n ensures now - entries[k].time > TTL {
      assert k < n ==> BY_TIME(entries[k]) <= BY_TIME(entries[n]);
    }
  }

  lemma {:induction false} DoomedIff(nonce: Nonce, doomed: seq<Entry>, n: nat)
    requires n <= |doomed|
    ensures Doomed(nonce, doomed, n) <==> exists i :: 0 <= i < n && doomed[i].nonce == nonce
  {
    if n > 0 { DoomedIff(nonce, doomed, n - 1); }
  }

  /** Exactly the first `k` of the live entries are doomed. */
  ghost predicate DoomedBelow(live: seq<Entry>, doomed: seq<Entry>, k: nat) {
    forall i :: 0 <= i < |live| ==> Doomed(live[i].nonce, doomed, |doomed|) == (i < k)
  }

  lemma PrefixIsDoomed(live: seq<Entry>, doomed: seq<Entry>, k: nat)
    requires InOrder(live) && k <= |live| && doomed == live[..k]
    ensures DoomedBelow(live, doomed, k)
  {
    forall i | 0 <= i < |live| ensures Doomed(live[i].nonce, doomed, |doomed|) == (i < k) {
      DoomedIff(live[i].nonce, doomed, |doomed|);
      if i < k { assert doomed[i].nonce == live[i].nonce; }
    }
  }

  lemma OneMore(s: seq<Entry>, k: nat, n: nat)
    requires k <= n < |s|
    ensures s[k..n] + [s[n]] == s[k..n + 1]
  {
  }

  lemma {:induction false} WithoutPrefix(live: seq<Entry>, doomed: seq<Entry>, k: nat, n: nat)
    requires DoomedBelow(live, doomed, k) && k <= |live| && n <= |live|
    ensures WithoutUpTo(live, doomed, n) == if n <= k then [] else live[k..n]
  {
    if n > 0 {
      WithoutPrefix(live, doomed, k, n - 1);
      if n > k { OneMore(live, k, n - 1); }
    }
  }

  lemma OrderedSuffix(entries: seq<Entry>, d: nat)
    requires InOrder(entries) && d <= |entries|
    ensures InOrder(entries[d..])
  {
  }

  /** Pruning drops a prefix of the cache: what it drops has expired or has 16384 entries after it, what
      it keeps has not expired, and no more than 16384 stay. */
  lemma PrunedIsSuffix(entries: seq<Entry>, now: real) returns (d: nat)
    requires InOrder(entries)
    ensures d <= |entries| && Pruned(entries, now) == entries[d..] && |entries| - d <= MAX
    ensures forall k :: 0 <= k < d ==> now - entries[k].time > TTL || k + MAX < |entries|
    ensures forall k :: d <= k < |entries| ==> now - entries[k].time <= TTL
  {
    var e := LiveIsSuffix(entries, now, |entries|);
    ToTheEnd(entries, e);
    d := if |entries| - e > MAX then |entries| - MAX else e;
    CapLive(entries, now, e, d);
  }

  lemma CapLive(entries: seq<Entry>, now: real, e: nat, d: nat)
    requires InOrder(entries) && e <= |entries| && Live(entries, now) == entries[e..]
    requires d == if |entries| - e > MAX then |entries| - MAX else e
    ensures Pruned(entries, now) == entries[d..]
  {
    if |entries| - e > MAX { CapDropsTo(entries, e, d); }
  }

  lemma CapDropsTo(entries: seq<Entry>, e: nat, d: nat)
    requires InOrder(entries) && e < d && d + MAX == |entries|
    ensures WithoutUpTo(entries[e..], Oldest(entries[e..]), |entries| - e) == entries[d..]
  {
    OrderedSuffix(entries, e);
    CapKeepsTheNewest(entries[e..]);
    SuffixOfSuffix(entries, e, d - e);
  }

  lemma CapKeepsTheNewest(live: seq<Entry>)
    requires InOrder(live) && |live| > MAX
    ensures WithoutUpTo(live, Oldest(live), |live|) == live[|live| - MAX..]
  {
    OldestIsPrefix(live);
    DropPrefix(live, Oldest(live), |live| - MAX);
  }

  lemma OldestIsPrefix(live: seq<Entry>)
    requires InOrder(live) && |live| > MAX
    ensures Oldest(live) == live[..|live| - MAX]
  {
    SortedIsFixed(live, BY_TIME);
  }

  lemma DropPrefix(live: seq<Entry>, doomed: seq<Entry>, k: nat)
    requires InOrder(live) && k < |live| && doomed == live[..k]
    ensures WithoutUpTo(live, doomed, |live|) == live[k..]
  {
    PrefixIsDoomed(live, doomed, k);
    WithoutPrefix(live, doomed, k, |live|);
    ToTheEnd(live, k);
  }

  lemma ToTheEnd(live: seq<Entry>, k: nat)
    requires k <= |live|
    ensures live[k..|live|] == live[k..]
  {
  }

  lemma SuffixOfSuffix(entries: seq<Entry>, e: nat, k: nat)
    requires e + k <= |entries|
    ensures entries[e..][k..] == entries[e + k..]
  {
  }

  // ---- a run ----

  /** A request that was accepted, with the clock at the time. */
  datatype Acceptance = Acceptance(nonce: Nonce, seconds: int, clock: Clock)

  /** The clock never goes back, and the checks before the cache take less than 70 seconds. */
  ghost predicate Ticks(before: real, clock: Clock) {
    before <= clock.checked <= clock.grace <= clock.prune <= clock.record && clock.prune - clock.checked <= 70.0
  }

  datatype State = State(entries: seq<Entry>, log: seq<Acceptance>, now: real)

  datatype Step = Step(request: Request, clock: Clock)

  function Next(boot: real, s: State, step: Step): State {
    var entries := CacheAfter(boot, s.entries, step.request, step.clock);
    var log :=
      if Accepts(boot, s.entries, step.request, step.clock)
      then s.log + [Acceptance(step.request.nonce, step.request.timestamp.seconds, step.clock)]
      else s.log;
    State(entries, log, step.clock.record)
  }

  function After(boot: real, run: seq<Step>, n: nat): State
    requires n <= |run|
  {
    if n == 0 then State([], [], boot) else Next(boot, After(boot, run, n - 1), run[n - 1])
  }

  /** Since the process started. */
  ghost predicate Sequential(boot: real, run: seq<Step>) {
    forall k :: 0 <= k < |run| ==> Ticks(After(boot, run, k).now, run[k].clock)
  }

  /** 16384 more acceptances were recorded within 300 seconds of this one. */
  ghost predicate Crowded(log: seq<Acceptance>, i: nat) {
    i + 16384 < |log| && log[i + 16384].clock.record - log[i].clock.record <= 300.0
  }

  ghost predicate Forgotten(log: seq<Acceptance>, i: nat, now: real)
    requires i < |log|
  {
    now - log[i].clock.record > 300.0 || Crowded(log, i)
  }

  /** The cache is the recent end of the log. */
  ghost predicate IsTail(entries: seq<Entry>, log: seq<Acceptance>) {
    && |entries| <= |log|
    && forall i :: 0 <= i < |entries| ==> entries[i] == EntryOf(log[|log| - |entries| + i])
  }

  function EntryOf(a: Acceptance): Entry { Entry(a.nonce, a.clock.record) }

  ghost predicate LogInOrder(log: seq<Acceptance>, now: real) {
    && (forall i :: 0 <= i < |log| ==> log[i].clock.record <= now)
    && (forall i, j :: 0 <= i < j < |log| ==> log[i].clock.record <= log[j].clock.checked)
  }

  ghost predicate LogIsFresh(boot: real, log: seq<Acceptance>) {
    forall i :: 0 <= i < |log| ==> Ticks(boot, log[i].clock) && IsFresh(boot, log[i].seconds, log[i].clock)
  }

  ghost predicate DroppedAreForgotten(entries: seq<Entry>, log: seq<Acceptance>, now: real)
    requires |entries| <= |log|
  {
    forall k :: 0 <= k < |log| - |entries| ==> Forgotten(log, k, now)
  }

  /** A nonce comes back only after its earlier use was forgotten. */
  ghost predicate RepeatsWereForgotten(log: seq<Acceptance>) {
    forall i, j :: 0 <= i < j < |log| && log[i].nonce == log[j].nonce ==> Forgotten(log, i, log[j].clock.prune)
  }

  ghost predicate Good(boot: real, s: State) {
    && boot <= s.now
    && IsTail(s.entries, s.log) && InOrder(s.entries) && |s.entries| <= MAX + 1
    && LogInOrder(s.log, s.now) && LogIsFresh(boot, s.log)
    && DroppedAreForgotten(s.entries, s.log, s.now)
    && RepeatsWereForgotten(s.log)
  }

  /** Pruning a good cache. */
  lemma PruneKeepsTail(boot: real, s: State, now: real)
    requires Good(boot, s) && s.now <= now
    ensures var kept := Pruned(s.entries, now);
            && IsTail(kept, s.log) && InOrder(kept) && |kept| <= MAX
            && DroppedAreForgotten(kept, s.log, now)
            && (forall k :: |s.log| - |kept| <= k < |s.log| ==> now - s.log[k].clock.record <= TTL)
  {
    var d := PrunedIsSuffix(s.entries, now);
    OrderedSuffix(s.entries, d);
    TailOfTail(s.entries, s.log, d);
    var first := |s.log| - |s.entries|;
    forall k | 0 <= k < first + d ensures Forgotten(s.log, k, now) {
      if k < first {
        assert Forgotten(s.log, k, s.now);
      } else {
        assert k + MAX < |s.log| ==> s.log[k + MAX].clock.record <= s.now;
        assert s.entries[k - first] == EntryOf(s.log[k]);
      }
    }
    forall k | first + d <= k < |s.log| ensures now - s.log[k].clock.record <= TTL {
      assert s.entries[k - first] == EntryOf(s.log[k]);
    }
  }

  lemma TailOfTail(entries: seq<Entry>, log: seq<Acceptance>, d: nat)
    requires IsTail(entries, log) && d <= |entries|
    ensures IsTail(entries[d..], log)
  {
  }

  lemma ForgottenStays(log: seq<Acceptance>, more: seq<Acceptance>, i: nat, now: real, later: real)
    requires i < |log| && now <= later && Forgotten(log, i, now)
    ensures Forgotten(log + more, i, later)
  {
    assert (log + more)[i] == log[i];
    assert i + MAX < |log| ==> (log + more)[i + MAX] == log[i + MAX];
  }

  /** What is not in the pruned cache was never used or is forgotten. */
  lemma NotCachedIsForgotten(kept: seq<Entry>, log: seq<Acceptance>, now: real, nonce: Nonce)
    requires IsTail(kept, log) && DroppedAreForgotten(kept, log, now) && !Cached(kept, nonce)
    ensures forall i :: 0 <= i < |log| && log[i].nonce == nonce ==> Forgotten(log, i, now)
  {
    TailIsCached(kept, log);
  }

  lemma TailIsCached(kept: seq<Entry>, log: seq<Acceptance>)
    requires IsTail(kept, log)
    ensures forall i :: |log| - |kept| <= i < |log| ==> Cached(kept, log[i].nonce)
  {
    var first := |log| - |kept|;
    forall i | first <= i < |log| ensures Cached(kept, log[i].nonce) {
      assert kept[i - first] == EntryOf(log[i]);
    }
  }

  lemma RecordKeepsGood(boot: real, s: State, kept: seq<Entry>, a: Acceptance)
    requires Good(boot, s) && Ticks(s.now, a.clock) && IsFresh(boot, a.seconds, a.clock)
    requires IsTail(kept, s.log) && InOrder(kept) && |kept| <= MAX
    requires DroppedAreForgotten(kept, s.log, a.clock.prune) && !Cached(kept, a.nonce)
    ensures Good(boot, State(kept + [EntryOf(a)], s.log + [a], a.clock.record))
  {
    var log, entries := s.log + [a], kept + [EntryOf(a)];
    NotCachedIsForgotten(kept, s.log, a.clock.prune, a.nonce);
    RepeatsSnoc(s.log, a);
    TailSnoc(kept, s.log, a, s.now);
    forall k | 0 <= k < |log| - |entries| ensures Forgotten(log, k, a.clock.record) {
      ForgottenStays(s.log, [a], k, a.clock.prune, a.clock.record);
    }
  }

  lemma RepeatsSnoc(log: seq<Acceptance>, a: Acceptance)
    requires RepeatsWereForgotten(log)
    requires forall i :: 0 <= i < |log| && log[i].nonce == a.nonce ==> Forgotten(log, i, a.clock.prune)
    ensures RepeatsWereForgotten(log + [a])
  {
    var more := log + [a];
    forall i, j | 0 <= i < j < |more| && more[i].nonce == more[j].nonce
      ensures Forgotten(more, i, more[j].clock.prune) {
      ForgottenStays(log, [a], i, more[j].clock.prune, more[j].clock.prune);
    }
  }

  lemma TailSnoc(kept: seq<Entry>, log: seq<Acceptance>, a: Acceptance, now: real)
    requires IsTail(kept, log) && InOrder(kept) && !Cached(kept, a.nonce)
    requires LogInOrder(log, now) && now <= a.clock.record
    ensures IsTail(kept + [EntryOf(a)], log + [a]) && InOrder(kept + [EntryOf(a)])
  {
    forall i | 0 <= i < |kept| ensures kept[i].time <= a.clock.record {
      assert kept[i] == EntryOf(log[|log| - |kept| + i]);
    }
  }

  lemma StepKeepsGood(boot: real, s: State, step: Step)
    requires Good(boot, s) && Ticks(s.now, step.clock)
    ensures Good(boot, Next(boot, s, step))
  {
    var kept := Pruned(s.entries, step.clock.prune);
    PruneKeepsTail(boot, s, step.clock.prune);
    if Accepts(boot, s.entries, step.request, step.clock) {
      RecordKeepsGood(boot, s, kept, Acceptance(step.request.nonce, step.request.timestamp.seconds, step.clock));
    } else if Presentable(boot, step.request, step.clock) {
      LaterIsGood(boot, State(kept, s.log, step.clock.prune), s, step.clock.record);
    } else {
      LaterIsGood(boot, s, s, step.clock.record);
    }
  }

  lemma LaterIsGood(boot: real, t: State, s: State, now: real)
    requires Good(boot, s) && t.log == s.log && s.now <= t.now <= now
    requires IsTail(t.entries, t.log) && InOrder(t.entries) && |t.entries| <= MAX + 1
    requires DroppedAreForgotten(t.entries, t.log, t.now)
    ensures Good(boot, State(t.entries, t.log, now))
  {
    forall k | 0 <= k < |t.log| - |t.entries| ensures Forgotten(t.log, k, now) {
      assert Forgotten(t.log, k, t.now);
    }
  }

  lemma {:induction false} RunIsGood(boot: real, run: seq<Step>, n: nat)
    requires n <= |run| && Sequential(boot, run)
    ensures Good(boot, After(boot, run, n))
  {
    if n > 0 {
      RunIsGood(boot, run, n - 1);
      assert Ticks(After(boot, run, n - 1).now, run[n - 1].clock);
      StepKeepsGood(boot, After(boot, run, n - 1), run[n - 1]);
    }
  }

  // ---- what the run guarantees ----

  /** In every run the cache holds at most 16385 entries. */
  lemma CacheIsBounded(boot: real, run: seq<Step>, n: nat)
    requires n <= |run| && Sequential(boot, run)
    ensures |After(boot, run, n).entries| <= 16385
  {
    RunIsGood(boot, run, n);
  }

  /** The same timestamp and nonce are accepted twice only if, within 300 seconds of the first
      acceptance, 16384 others were recorded after it. */
  lemma ReplayNeedsACrowd(boot: real, run: seq<Step>, n: nat, i: nat, j: nat)
    requires n <= |run| && Sequential(boot, run)
    requires i < j < |After(boot, run, n).log|
    requires After(boot, run, n).log[i].nonce == After(boot, run, n).log[j].nonce
    requires After(boot, run, n).log[i].seconds == After(boot, run, n).log[j].seconds
    ensures Crowded(After(boot, run, n).log, i)
  {
    RunIsGood(boot, run, n);
    var log := After(boot, run, n).log;
    assert Forgotten(log, i, log[j].clock.prune);
    SameStampIsClose(boot, log[i], log[j]);
  }

  /** Acceptances of one timestamp lie under 121 seconds apart. */
  lemma SameStampIsClose(boot: real, a: Acceptance, b: Acceptance)
    requires IsFresh(boot, a.seconds, a.clock) && IsFresh(boot, b.seconds, b.clock) && a.seconds == b.seconds
    ensures b.clock.checked - a.clock.checked < 121.0
  {
    assert b.clock.checked.Floor - a.clock.checked.Floor <= 120;
  }

  ghost predicate NeverCrowded(log: seq<Acceptance>) { forall i: nat :: i < |log| ==> !Crowded(log, i) }

  /** Without a crowd no timestamp and nonce are accepted twice. */
  lemma NoReplay(boot: real, run: seq<Step>, n: nat, i: nat, j: nat)
    requires n <= |run| && Sequential(boot, run) && NeverCrowded(After(boot, run, n).log)
    requires i < j < |After(boot, run, n).log|
    ensures var log := After(boot, run, n).log; log[i].nonce != log[j].nonce || log[i].seconds != log[j].seconds
  {
    var log := After(boot, run, n).log;
    if log[i].nonce == log[j].nonce && log[i].seconds == log[j].seconds {
      ReplayNeedsACrowd(boot, run, n, i, j);
    }
  }

  /** The verdict depends on the history alone: in every sequential run a presentable, signed request is accepted
      exactly when every earlier use of its nonce is forgotten, by age or in a crowd. */
  lemma VerdictIsExact(boot: real, run: seq<Step>, n: nat, r: Request, clock: Clock)
    requires n <= |run| && Sequential(boot, run) && Ticks(After(boot, run, n).now, clock)
    ensures var s := After(boot, run, n);
            Accepts(boot, s.entries, r, clock)
            <==> && Presentable(boot, r, clock) && r.signed
                 && AllForgotten(s.log, r.nonce, clock.prune)
  {
    var s := After(boot, run, n);
    RunIsGood(boot, run, n);
    PruneKeepsTail(boot, s, clock.prune);
    var kept := Pruned(s.entries, clock.prune);
    if Cached(kept, r.nonce) {
      CachedIsRemembered(kept, s.log, clock.prune, r.nonce);
    } else {
      NotCachedIsForgotten(kept, s.log, clock.prune, r.nonce);
    }
  }

  ghost predicate AllForgotten(log: seq<Acceptance>, nonce: Nonce, now: real) {
    forall i :: 0 <= i < |log| && log[i].nonce == nonce ==> Forgotten(log, i, now)
  }

  lemma CachedIsRemembered(kept: seq<Entry>, log: seq<Acceptance>, now: real, nonce: Nonce)
    requires IsTail(kept, log) && Cached(kept, nonce) && |kept| <= MAX
    requires forall k :: |log| - |kept| <= k < |log| ==> now - log[k].clock.record <= TTL
    ensures !AllForgotten(log, nonce, now)
  {
    var i :| 0 <= i < |kept| && kept[i].nonce == nonce;
    var k := |log| - |kept| + i;
    assert kept[i] == EntryOf(log[k]) && !Forgotten(log, k, now);
  }

  /** Without a crowd: exactly when its nonce was not recorded in the last 300 seconds. */
  lemma VerdictWithoutACrowd(boot: real, run: seq<Step>, n: nat, r: Request, clock: Clock)
    requires n <= |run| && Sequential(boot, run) && Ticks(After(boot, run, n).now, clock)
    requires NeverCrowded(After(boot, run, n).log)
    ensures var s := After(boot, run, n);
            Accepts(boot, s.entries, r, clock)
            <==> Presentable(boot, r, clock) && r.signed && !UsedSince(s.log, r.nonce, clock.prune - 300.0)
  {
    VerdictIsExact(boot, run, n, r, clock);
    ForgottenIsUnused(After(boot, run, n).log, r.nonce, clock.prune);
  }

  lemma ForgottenIsUnused(log: seq<Acceptance>, nonce: Nonce, now: real)
    requires NeverCrowded(log)
    ensures AllForgotten(log, nonce, now) <==> !UsedSince(log, nonce, now - 300.0)
  {
    if UsedSince(log, nonce, now - 300.0) {
      var i :| 0 <= i < |log| && log[i].nonce == nonce && log[i].clock.record >= now - 300.0;
      assert !Crowded(log, i) && !Forgotten(log, i, now);
    }
  }

  ghost predicate UsedSince(log: seq<Acceptance>, nonce: Nonce, since: real) {
    exists i :: 0 <= i < |log| && log[i].nonce == nonce && log[i].clock.record >= since
  }

  /** Evicting at the cap never prefers an older entry: whatever is dropped although unexpired was
      recorded no later than anything kept. */
  lemma EvictsTheOldest(boot: real, run: seq<Step>, n: nat, now: real, i: nat, j: nat)
    requires n <= |run| && Sequential(boot, run) && After(boot, run, n).now <= now
    requires i < |After(boot, run, n).entries| && j < |After(boot, run, n).entries|
    requires !Cached(Pruned(After(boot, run, n).entries, now), After(boot, run, n).entries[i].nonce)
    requires Cached(Pruned(After(boot, run, n).entries, now), After(boot, run, n).entries[j].nonce)
    ensures After(boot, run, n).entries[i].time <= After(boot, run, n).entries[j].time
  {
    RunIsGood(boot, run, n);
    SurvivorsAreNewer(After(boot, run, n).entries, now, i, j);
  }

  lemma SuffixIsCached(entries: seq<Entry>, d: nat)
    requires d <= |entries|
    ensures forall i :: d <= i < |entries| ==> Cached(entries[d..], entries[i].nonce)
  {
    forall i | d <= i < |entries| ensures Cached(entries[d..], entries[i].nonce) {
      assert entries[d..][i - d] == entries[i];
    }
  }

  lemma SurvivorsAreNewer(entries: seq<Entry>, now: real, i: nat, j: nat)
    requires InOrder(entries) && i < |entries| && j < |entries|
    requires !Cached(Pruned(entries, now), entries[i].nonce) && Cached(Pruned(entries, now), entries[j].nonce)
    ensures entries[i].time <= entries[j].time
  {
    var d := PrunedIsSuffix(entries, now);
    var kept := Pruned(entries, now);
    SuffixIsCached(entries, d);
    var q :| 0 <= q < |kept| && kept[q].nonce == entries[j].nonce;
    assert kept[q] == entries[d + q];
    assert BY_TIME(entries[i]) <= BY_TIME(entries[j]);
  }

  // ---- across a restart ----

  /** A process started at `boot` accepts the request at some moment, as its first. */
  ghost predicate AcceptedSometime(boot: real, r: Request) {
    exists clock :: Ticks(boot, clock) && Accepts(boot, [], r, clock)
  }

  /** The cache is lost with the process. A request that was accepted before is accepted again at some moment after
      a restart at `boot`, exactly when its timestamp is no more than ten seconds older than the start. */
  lemma ReplayAcrossRestartIff(boot0: real, run: seq<Step>, k: nat, boot: real)
    requires k < |run| && Sequential(boot0, run)
    requires Accepts(boot0, After(boot0, run, k).entries, run[k].request, run[k].clock)
    ensures var r := run[k].request;
            AcceptedSometime(boot, r) <==> r.timestamp.seconds >= boot.Floor - 10
  {
    AcceptsAnewIff(boot, run[k].request);
  }

  /** What an empty cache makes of a request that is in order and signed. */
  lemma AcceptsAnewIff(boot: real, r: Request)
    requires r.hasSecret && r.hasFields && |r.nonce.text| >= 16 && r.timestamp.At? && r.signed
    ensures AcceptedSometime(boot, r) <==> r.timestamp.seconds >= boot.Floor - 10
  {
    var seconds := r.timestamp.seconds;
    if seconds >= boot.Floor - 10 {
      var t := if seconds <= boot.Floor + 10 then boot else seconds as real;
      var clock := Clock(t, t, t, t);
      EmptyStaysEmpty(t);
      assert Ticks(boot, clock) && Accepts(boot, [], r, clock);
    }
    forall clock | Ticks(boot, clock) && Accepts(boot, [], r, clock) ensures seconds >= boot.Floor - 10 {
      FreshIsRecent(boot, seconds, clock);
    }
  }

  lemma EmptyStaysEmpty(now: real)
    ensures Pruned([], now) == []
  {
  }

  lemma FreshIsRecent(boot: real, seconds: int, clock: Clock)
    requires Ticks(boot, clock) && IsFresh(boot, seconds, clock)
    ensures seconds >= boot.Floor - 10
  {
    if clock.grace - boot >= GRACE { assert clock.checked >= boot + 50.0; }
  }

  /** Within one run a request accepted at `t` is refused a moment later; after a restart one second later it is
      accepted again. */
  lemma RestartReplays(t: real)
    requires t >= 0.0
    ensures var r := Request(true, true, Nonce("0123456789abcdef"), At(t.Floor), true);
            var run := [Step(r, Clock(t, t, t, t))];
            && Sequential(t, run)
            && Accepts(t, [], r, Clock(t, t, t, t))
            && !Accepts(t, After(t, run, 1).entries, r, Clock(t, t, t, t))
            && AcceptedSometime(t + 1.0, r)
  {
    var r := Request(true, true, Nonce("0123456789abcdef"), At(t.Floor), true);
    var now := Clock(t, t, t, t);
    var run := [Step(r, now)];
    EmptyStaysEmpty(t);
    assert After(t, run, 1) == Next(t, After(t, run, 0), run[0]);
    var entries := [Entry(r.nonce, t)];
    assert After(t, run, 1).entries == entries;
    assert LiveUpTo(entries, t, 1) == LiveUpTo(entries, t, 0) + [entries[0]];
    assert Pruned(entries, t)[0].nonce == r.nonce;
    AcceptsAnewIff(t + 1.0, r);
  }
}
