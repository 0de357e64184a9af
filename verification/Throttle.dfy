/** The per-identity rate limit: `_check_throttle` of backend/main.py. */
module Throttle {
  import opened Text

  datatype NodeState = NodeState(lastSend: real, dailyCount: nat, dailyReset: real, firstSeen: real)

  /** What the reputation ledger answers: a score and an age in days, or an exception. */
  datatype Ledger = Entry(score: real, ageDays: real) | Unavailable

  datatype Request = Request(emergency: bool, transportLock: string, ledger: Ledger, now: real)

  datatype Tier = Tier(interval: real, cap: nat)

  const DAY := 86400.0

  function Max(a: real, b: real): real { if a < b then b else a }

  function Fresh(now: real): NodeState { NodeState(0.0, 0, now, now) }

  datatype Slot = Empty | Kept(state: NodeState)

  /** The table keeps an entry for a day after it was created, whatever happens to it meanwhile. */
  predicate Lives(slot: Slot, now: real) { slot.Kept? && now - slot.state.firstSeen < DAY }

  function Lookup(slot: Slot, now: real): NodeState { if Lives(slot, now) then slot.state else Fresh(now) }

  function AgeHours(s: NodeState, r: Request): real {
    var own := (r.now - s.firstSeen) / 3600.0;
    if r.ledger.Entry? then Max(own, r.ledger.ageDays * 24.0) else own
  }

  function Score(r: Request): real { if r.ledger.Entry? then r.ledger.score else 0.0 }

  function BaseTier(score: real, ageHours: real): Tier {
    if score >= 20.0 || ageHours >= 168.0 then Tier(30.0, 200)
    else if score >= 5.0 || ageHours >= 48.0 then Tier(120.0, 75)
    else Tier(300.0, 15)
  }

  /** Better standing never costs: a higher score and age mean no longer an interval and no smaller a cap,
      between 15 sends five minutes apart and 200 sends half a minute apart. */
  lemma StandingPays(score: real, age: real, better: real, older: real)
    requires score <= better && age <= older
    ensures 30.0 <= BaseTier(better, older).interval <= BaseTier(score, age).interval <= 300.0
    ensures 15 <= BaseTier(score, age).cap <= BaseTier(better, older).cap <= 200
  {
  }

  predicate PublicMesh(transportLock: string) { Lower(transportLock) == "meshtastic" }

  /** The public mesh only has its interval shortened. */
  function TierOf(s: NodeState, r: Request): Tier {
    var tier := BaseTier(Score(r), AgeHours(s, r));
    if PublicMesh(r.transportLock) && tier.interval > 30.0 then tier.(interval := 30.0) else tier
  }

  datatype Verdict = Allowed | DailyLimit(cap: nat) | TooSoon(interval: real)

  /** The counter starts again when a day has passed since the last start. */
  function Rolled(s: NodeState, now: real): NodeState {
    if now - s.dailyReset > DAY then s.(dailyCount := 0, dailyReset := now) else s
  }

  function Judge(s: NodeState, r: Request): Verdict {
    var tier := TierOf(s, r);
    if s.dailyCount >= tier.cap then DailyLimit(tier.cap)
    else if r.now - s.lastSend < tier.interval then TooSoon(tier.interval)
    else Allowed
  }

  function Admit(s: NodeState, r: Request): NodeState {
    if Judge(s, r).Allowed? then s.(lastSend := r.now, dailyCount := s.dailyCount + 1) else s
  }

  /** The state a request is judged by. */
  function Found(slot: Slot, r: Request): NodeState { Rolled(Lookup(slot, r.now), r.now) }

  class Table<Node(==)> {
    var states: map<Node, NodeState>

    constructor ()
      ensures states == map[]
    {
      states := map[];
    }

    function SlotOf(node: Node): Slot
      reads this
    {
      if node in states then Kept(states[node]) else Empty
    }

    /** `_check_throttle`; an emergency leaves no trace. */
    method Check(node: Node, r: Request) returns (verdict: Verdict)
      modifies this
      ensures r.emergency ==> verdict == Allowed && states == old(states)
      ensures !r.emergency ==>
                var before := Found(old(SlotOf(node)), r);
                verdict == Judge(before, r) && states == old(states)[node := Admit(before, r)]
    {
      if r.emergency { return Allowed; }
      if node !in states || r.now - states[node].firstSeen >= DAY {
        states := states[node := NodeState(0.0, 0, r.now, r.now)];
      }
      var s := states[node];
      if r.now - s.dailyReset > DAY {
        s := s.(dailyCount := 0);
        s := s.(dailyReset := r.now);
        states := states[node := s];
      }
      var tier := TierOf(s, r);
      if s.dailyCount >= tier.cap { return DailyLimit(tier.cap); }
      if r.now - s.lastSend < tier.interval { return TooSoon(tier.interval); }
      s := s.(lastSend := r.now);
      s := s.(dailyCount := s.dailyCount + 1);
      states := states[node := s];
      verdict := Allowed;
    }
  }

  // ---- runs of one node ----

  /** A full table may drop the entry early. */
  datatype Event = Ask(request: Request) | Evict(at: real) {
    function Time(): real { if Ask? then request.now else at }
  }

  /** One admitted send: when, under which entry and when that was created, under which tier, and its number
      under that entry. */
  datatype Send = Send(time: real, life: nat, created: real, tier: Tier, number: nat)

  /** The entry, how many there have been, and what was admitted. */
  datatype Trace = Trace(slot: Slot, lives: nat, sends: seq<Send>)

  function LifeOf(t: Trace, now: real): nat { if Lives(t.slot, now) then t.lives else t.lives + 1 }

  function Next(t: Trace, e: Event): Trace {
    match e
    case Evict(_) => t.(slot := Empty)
    case Ask(r) =>
      if r.emergency then t
      else
        var before := Found(t.slot, r);
        Trace(Kept(Admit(before, r)), LifeOf(t, r.now), t.sends + NewSend(before, LifeOf(t, r.now), r))
  }

  function NewSend(s: NodeState, life: nat, r: Request): seq<Send> {
    if Judge(s, r).Allowed? then [Send(r.now, life, s.firstSeen, TierOf(s, r), s.dailyCount + 1)] else []
  }

  function After(run: seq<Event>, n: nat): Trace
    requires n <= |run|
  {
    if n == 0 then Trace(Empty, 0, []) else Next(After(run, n - 1), run[n - 1])
  }

  /** The clock does not go back. */
  ghost predicate InOrder(run: seq<Event>) {
    forall i, j :: 0 <= i < j < |run| ==> run[i].Time() <= run[j].Time()
  }

  /** What a send shows by itself: it lies within a day of its entry's creation and within its tier's cap. */
  ghost predicate SendIsFair(s: Send) {
    && s.created <= s.time < s.created + DAY
    && 1 <= s.number <= s.tier.cap <= 200
    && s.tier.interval >= 30.0
  }

  ghost predicate AllFair(sends: seq<Send>, now: real) {
    forall i :: 0 <= i < |sends| ==> SendIsFair(sends[i]) && sends[i].time <= now
  }

  /** Under one entry sends are numbered one by one, and each keeps its tier's interval from the one before. */
  ghost predicate Linked(a: Send, b: Send) {
    b.life == a.life ==>
      b.created == a.created && b.number == a.number + 1 && b.time - a.time >= b.tier.interval
  }

  ghost predicate AllLinked(sends: seq<Send>) {
    && (forall i, j :: 0 <= i < j < |sends| && j == i + 1 ==> Linked(sends[i], sends[j]))
    && (forall i, j :: 0 <= i < j < |sends| ==> sends[i].life <= sends[j].life && sends[i].time <= sends[j].time)
  }

  /** The entry as it is agrees with the sends made under it; the reset branch has not been taken. */
  ghost predicate EntryAgrees(s: NodeState, lives: nat, sends: seq<Send>) {
    && s.dailyReset == s.firstSeen && s.dailyCount <= |sends| && s.dailyCount <= 200
    && s.lastSend == (if s.dailyCount == 0 then 0.0 else sends[|sends| - 1].time)
    && (s.dailyCount > 0 ==> sends[|sends| - 1].number == s.dailyCount && sends[|sends| - 1].created == s.firstSeen)
    && (forall i :: 0 <= i < |sends| ==> (sends[i].life == lives <==> i >= |sends| - s.dailyCount))
  }

  ghost predicate Good(t: Trace, now: real) {
    && AllFair(t.sends, now) && AllLinked(t.sends)
    && (forall i :: 0 <= i < |t.sends| ==> t.sends[i].life <= t.lives)
    && (t.slot.Kept? ==> t.slot.state.firstSeen <= now && EntryAgrees(t.slot.state, t.lives, t.sends))
  }

  lemma TierIsModest(s: NodeState, r: Request)
    ensures TierOf(s, r).interval >= 30.0 && TierOf(s, r).cap <= 200
  {
  }

  /** The daily reset is dead: an entry is gone before its day is over. */
  lemma ResetIsDead(t: Trace, now: real, r: Request)
    requires Good(t, now)
    ensures Found(t.slot, r) == Lookup(t.slot, r.now)
  {
  }

  lemma FoundAgrees(t: Trace, now: real, r: Request)
    requires Good(t, now) && now <= r.now
    ensures var s := Found(t.slot, r);
            s.firstSeen <= r.now < s.firstSeen + DAY && EntryAgrees(s, LifeOf(t, r.now), t.sends)
  {
    ResetIsDead(t, now, r);
  }

  /** A send that an entry allows fits behind the others. */
  lemma SendFits(s: NodeState, life: nat, sends: seq<Send>, now: real, tier: Tier)
    requires AllFair(sends, now) && AllLinked(sends) && forall i :: 0 <= i < |sends| ==> sends[i].life <= life
    requires EntryAgrees(s, life, sends) && s.firstSeen <= now < s.firstSeen + DAY
    requires tier.interval >= 30.0 && s.dailyCount < tier.cap <= 200 && now - s.lastSend >= tier.interval
    ensures var more := sends + [Send(now, life, s.firstSeen, tier, s.dailyCount + 1)];
            && AllFair(more, now) && AllLinked(more)
            && EntryAgrees(s.(lastSend := now, dailyCount := s.dailyCount + 1), life, more)
  {
    var send := Send(now, life, s.firstSeen, tier, s.dailyCount + 1);
    if sends != [] { assert Linked(sends[|sends| - 1], send); }
  }

  lemma AllowedKeepsGood(t: Trace, s: NodeState, life: nat, now: real, tier: Tier)
    requires AllFair(t.sends, now) && AllLinked(t.sends)
    requires forall i :: 0 <= i < |t.sends| ==> t.sends[i].life <= t.lives <= life
    requires EntryAgrees(s, life, t.sends) && s.firstSeen <= now < s.firstSeen + DAY
    requires tier.interval >= 30.0 && s.dailyCount < tier.cap <= 200 && now - s.lastSend >= tier.interval
    ensures Good(Trace(Kept(s.(lastSend := now, dailyCount := s.dailyCount + 1)), life,
                       t.sends + [Send(now, life, s.firstSeen, tier, s.dailyCount + 1)]), now)
  {
    SendFits(s, life, t.sends, now, tier);
  }

  lemma RefusedKeepsGood(t: Trace, s: NodeState, life: nat, now: real)
    requires AllFair(t.sends, now) && AllLinked(t.sends)
    requires forall i :: 0 <= i < |t.sends| ==> t.sends[i].life <= t.lives <= life
    requires EntryAgrees(s, life, t.sends) && s.firstSeen <= now
    ensures Good(Trace(Kept(s), life, t.sends), now)
  {
  }

  lemma NextIs(t: Trace, r: Request)
    requires !r.emergency
    ensures var s, life := Found(t.slot, r), LifeOf(t, r.now);
            var tier := TierOf(s, r);
            && life >= t.lives
            && Next(t, Ask(r))
               == (if Judge(s, r).Allowed?
                   then Trace(Kept(s.(lastSend := r.now, dailyCount := s.dailyCount + 1)), life,
                              t.sends + [Send(r.now, life, s.firstSeen, tier, s.dailyCount + 1)])
                   else Trace(Kept(s), life, t.sends))
            && (Judge(s, r).Allowed? ==> s.dailyCount < tier.cap && r.now - s.lastSend >= tier.interval)
  {
  }

  lemma AskKeepsGood(t: Trace, now: real, r: Request)
    requires Good(t, now) && now <= r.now && !r.emergency
    ensures Good(Next(t, Ask(r)), r.now)
  {
    var s, life := Found(t.slot, r), LifeOf(t, r.now);
    FoundAgrees(t, now, r);
    NextIs(t, r);
    TierIsModest(s, r);
    assert AllFair(t.sends, r.now);
    if Judge(s, r).Allowed? {
      AllowedKeepsGood(t, s, life, r.now, TierOf(s, r));
    } else {
      RefusedKeepsGood(t, s, life, r.now);
    }
  }

  lemma StepKeepsGood(t: Trace, e: Event, now: real)
    requires Good(t, now) && now <= e.Time()
    ensures Good(Next(t, e), e.Time())
  {
    if e.Ask? && !e.request.emergency { AskKeepsGood(t, now, e.request); }
  }

  function Clock(run: seq<Event>, n: nat): real
    requires n <= |run|
  {
    if n > 0 then run[n - 1].Time() else if run != [] then run[0].Time() else 0.0
  }

  lemma ClockAdvances(run: seq<Event>, n: nat)
    requires 0 < n <= |run| && InOrder(run)
    ensures Clock(run, n - 1) <= run[n - 1].Time()
  {
  }

  lemma {:induction false} RunIsGood(run: seq<Event>, n: nat)
    requires n <= |run| && InOrder(run)
    ensures Good(After(run, n), Clock(run, n))
  {
    if n > 0 {
      RunIsGood(run, n - 1);
      ClockAdvances(run, n);
      StepKeepsGood(After(run, n - 1), run[n - 1], Clock(run, n - 1));
    }
  }

  // ---- the guarantees ----

  /** However the tier changes between calls: each send counts within its tier's daily cap, at most 200, and under
      one entry consecutive sends keep the later one's interval, at least 30 seconds. */
  lemma SendsAreSpacedAndCapped(run: seq<Event>, n: nat, i: nat)
    requires n <= |run| && InOrder(run) && i < |After(run, n).sends|
    ensures var sends := After(run, n).sends;
            && 1 <= sends[i].number <= sends[i].tier.cap <= 200
            && (i > 0 && sends[i].life == sends[i - 1].life ==>
                  sends[i].time - sends[i - 1].time >= sends[i].tier.interval >= 30.0)
  {
    RunIsGood(run, n);
    var sends := After(run, n).sends;
    assert SendIsFair(sends[i]);
    if i > 0 { assert Linked(sends[i - 1], sends[i]); }
  }

  lemma {:induction false} NumberedInLife(sends: seq<Send>, i: nat, j: nat)
    requires AllLinked(sends) && i <= j < |sends| && sends[i].life == sends[j].life
    ensures sends[j].number == sends[i].number + (j - i)
  {
    if i < j {
      assert Linked(sends[j - 1], sends[j]);
      assert sends[i].life <= sends[j - 1].life <= sends[j].life || i == j - 1;
      NumberedInLife(sends, i, j - 1);
    }
  }

  /** Two hundred sends later another entry is in use. */
  lemma NextLife(t: Trace, now: real, i: nat)
    requires Good(t, now) && i + 200 < |t.sends|
    ensures t.sends[i].life != t.sends[i + 200].life
  {
    assert SendIsFair(t.sends[i]) && SendIsFair(t.sends[i + 200]);
    if t.sends[i].life == t.sends[i + 200].life { NumberedInLife(t.sends, i, i + 200); }
  }

  /** No entry is dropped before its day is over. */
  ghost predicate NoEvictions(run: seq<Event>) { forall k :: 0 <= k < |run| ==> run[k].Ask? }

  /** Entries are created a day apart. */
  ghost predicate Apart(t: Trace) {
    && (forall i, j :: 0 <= i < j < |t.sends| && t.sends[i].life != t.sends[j].life ==>
          t.sends[j].created - t.sends[i].created >= DAY)
    && (t.slot.Empty? ==> t.sends == [])
    && (t.slot.Kept? ==> forall i :: 0 <= i < |t.sends| ==>
          if t.sends[i].life == t.lives then t.sends[i].created == t.slot.state.firstSeen
          else t.slot.state.firstSeen - t.sends[i].created >= DAY)
  }

  lemma AskKeepsApart(t: Trace, now: real, r: Request)
    requires Good(t, now) && Apart(t) && now <= r.now
    ensures Apart(Next(t, Ask(r)))
  {
    ResetIsDead(t, now, r);
    if !r.emergency {
      var s, life := Found(t.slot, r), LifeOf(t, r.now);
      forall i | 0 <= i < |t.sends|
        ensures if t.sends[i].life == life then t.sends[i].created == s.firstSeen
                else s.firstSeen - t.sends[i].created >= DAY
      {
      }
    }
  }

  lemma StepKeepsApart(t: Trace, now: real, e: Event, next: Trace)
    requires Good(t, now) && Apart(t) && now <= e.Time() && e.Ask? && next == Next(t, e)
    ensures Apart(next)
  {
    AskKeepsApart(t, now, e.request);
  }

  lemma {:induction false} RunIsApart(run: seq<Event>, n: nat)
    requires n <= |run| && InOrder(run) && NoEvictions(run)
    ensures Apart(After(run, n))
  {
    if n > 0 {
      RunIsApart(run, n - 1);
      RunIsGood(run, n - 1);
      ClockAdvances(run, n);
      StepKeepsApart(After(run, n - 1), Clock(run, n - 1), run[n - 1], After(run, n));
    }
  }

  /** Any 401 sends take more than a day, across entries that are forgotten by age: no window of 86400 seconds
      holds more than 400. */
  lemma AtMost400InADay(run: seq<Event>, n: nat, i: nat)
    requires n <= |run| && InOrder(run) && NoEvictions(run) && i + 400 < |After(run, n).sends|
    ensures After(run, n).sends[i + 400].time - After(run, n).sends[i].time > 86400.0
  {
    var t := After(run, n);
    RunIsGood(run, n);
    RunIsApart(run, n);
    NextLife(t, Clock(run, n), i);
    NextLife(t, Clock(run, n), i + 200);
    assert SendIsFair(t.sends[i]) && SendIsFair(t.sends[i + 400]);
  }

  /** How many of the first `n` sends were made under entry number `life`. */
  function SentUnder(sends: seq<Send>, life: nat, n: nat): nat
    requires n <= |sends|
  {
    if n == 0 then 0 else SentUnder(sends, life, n - 1) + if sends[n - 1].life == life then 1 else 0
  }

  lemma {:induction false} CountIsSent(s: NodeState, life: nat, sends: seq<Send>, n: nat)
    requires n <= |sends| && EntryAgrees(s, life, sends)
    ensures SentUnder(sends, life, n) == if n <= |sends| - s.dailyCount then 0 else n - (|sends| - s.dailyCount)
  {
    if n > 0 { CountIsSent(s, life, sends, n - 1); }
  }

  /** When the last send was made, if it was made under this entry. */
  function LastUnder(sends: seq<Send>, life: nat): real {
    if sends != [] && sends[|sends| - 1].life == life then sends[|sends| - 1].time else 0.0
  }

  lemma JudgeByHistory(s: NodeState, life: nat, sends: seq<Send>, r: Request)
    requires EntryAgrees(s, life, sends)
    ensures Judge(s, r).Allowed?
            <==> && SentUnder(sends, life, |sends|) < TierOf(s, r).cap
                 && r.now - LastUnder(sends, life) >= TierOf(s, r).interval
  {
    CountIsSent(s, life, sends, |sends|);
  }

  /** The verdict in terms of the history: a request is admitted exactly when the sends under the entry in use are
      fewer than its tier's cap and its tier's interval has passed since the last of them. */
  lemma VerdictIsExact(run: seq<Event>, n: nat, r: Request)
    requires n <= |run| && InOrder(run) && Clock(run, n) <= r.now
    ensures var t := After(run, n);
            var s, life := Found(t.slot, r), LifeOf(t, r.now);
            Judge(s, r).Allowed?
            <==> && SentUnder(t.sends, life, |t.sends|) < TierOf(s, r).cap
                 && r.now - LastUnder(t.sends, life) >= TierOf(s, r).interval
  {
    var t := After(run, n);
    RunIsGood(run, n);
    FoundAgrees(t, Clock(run, n), r);
    JudgeByHistory(Found(t.slot, r), LifeOf(t, r.now), t.sends, r);
  }

  /** The node's own age never earns a better tier: no entry gets as old as two days, so only what the ledger
      says of age and score counts. */
  lemma OwnAgeNeverCounts(run: seq<Event>, n: nat, r: Request)
    requires n <= |run| && InOrder(run) && Clock(run, n) <= r.now
    ensures BaseTier(Score(r), AgeHours(Found(After(run, n).slot, r), r))
            == BaseTier(Score(r), if r.ledger.Entry? then r.ledger.ageDays * 24.0 else 0.0)
  {
    RunIsGood(run, n);
    FoundAgrees(After(run, n), Clock(run, n), r);
  }

  /** Standing as the ledger alone gives it; without an answer there is none. */
  predicate IsTrusted(l: Ledger) { l.Entry? && (l.score >= 20.0 || l.ageDays >= 7.0) }

  predicate IsEstablished(l: Ledger) { l.Entry? && (l.score >= 5.0 || l.ageDays >= 2.0) }

  /** The sends a day and the seconds between two of them that a request is held to, from the ledger and the transport:
      on the public mesh the interval is half a minute for everybody, and the daily numbers are unchanged. */
  function Held(r: Request): Tier {
    var cap := if IsTrusted(r.ledger) then 200 else if IsEstablished(r.ledger) then 75 else 15;
    var interval := if Lower(r.transportLock) == "meshtastic" || IsTrusted(r.ledger) then 30.0
                    else if IsEstablished(r.ledger) then 120.0 else 300.0;
    Tier(interval, cap)
  }

  /** In every run the verdict follows from the ledger, the transport and the sends under the entry in use. */
  lemma StandingDecides(run: seq<Event>, n: nat, r: Request)
    requires n <= |run| && InOrder(run) && Clock(run, n) <= r.now
    ensures var t := After(run, n);
            var s, sent, last := Found(t.slot, r), SentUnder(t.sends, LifeOf(t, r.now), |t.sends|),
                                 LastUnder(t.sends, LifeOf(t, r.now));
            Judge(s, r) == if sent >= Held(r).cap then DailyLimit(Held(r).cap)
                           else if r.now - last < Held(r).interval then TooSoon(Held(r).interval)
                           else Allowed
  {
    var t := After(run, n);
    RunIsGood(run, n);
    FoundAgrees(t, Clock(run, n), r);
    TierIsHeld(Found(t.slot, r), r);
    CountIsSent(Found(t.slot, r), LifeOf(t, r.now), t.sends, |t.sends|);
  }

  lemma TierIsHeld(s: NodeState, r: Request)
    requires s.firstSeen <= r.now < s.firstSeen + DAY
    ensures TierOf(s, r) == Held(r)
  {
  }

  // ---- what forgetting an entry costs ----

  function Plain(now: real): Event { Ask(Request(false, "", Unavailable, now)) }

  /** A run of three requests, the last two one second apart, with the end of the entry's day between them: all
      three are admitted. */
  lemma ForgettingLosesTheInterval(start: real)
    requires start >= 300.0
    ensures var run := [Plain(start), Plain(start + 86399.0), Plain(start + 86400.0)];
            && InOrder(run) && NoEvictions(run)
            && var sends := After(run, 3).sends;
               |sends| == 3 && sends[2].time - sends[1].time == 1.0 < sends[2].tier.interval
  {
    var run := [Plain(start), Plain(start + 86399.0), Plain(start + 86400.0)];
    OneSend(Trace(Empty, 0, []), run[0].request);
    assert After(run, 1) == Next(After(run, 0), run[0]);
    OneSend(After(run, 1), run[1].request);
    assert After(run, 2) == Next(After(run, 1), run[1]);
    OneSend(After(run, 2), run[2].request);
    assert After(run, 3) == Next(After(run, 2), run[2]);
  }

  /** A new node whose entry has little on it and lies back five minutes is admitted. */
  lemma OneSend(t: Trace, r: Request)
    requires !r.emergency && r.ledger.Unavailable? && r.transportLock == ""
    requires r.now >= 300.0
    requires Lives(t.slot, r.now) ==>
               var s := t.slot.state;
               r.now - s.dailyReset <= DAY && s.dailyCount < 15 && r.now - s.lastSend >= 300.0
    ensures var s := Lookup(t.slot, r.now);
            var next := Next(t, Ask(r));
            && next.slot == Kept(s.(lastSend := r.now, dailyCount := s.dailyCount + 1))
            && |next.sends| == |t.sends| + 1 && next.sends[..|t.sends|] == t.sends
            && next.sends[|t.sends|].time == r.now && next.sends[|t.sends|].tier == Tier(300.0, 15)
  {
    assert !PublicMesh(r.transportLock);
  }
}
