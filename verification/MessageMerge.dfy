/** The messages a poll moves around, and the merge of two message lists.

    The merge is written over an arbitrary rule `r` (id and duplicate test of a copy), with `mid`
    reading the same id off a bare message; DmPoll supplies the rule of backend/main.py. */
module MessageMerge {
  import opened Sorting
  import opened KeyedBest
  import opened ArrivalOrder

  /** `float(item.get("timestamp", 0) or 0)` either yields seconds or raises. */
  datatype Timestamp = Seconds(t: real) | Unreadable

  datatype Message = Message(
    msgId: string, timestamp: Timestamp, deliveryClass: string, senderId: string, senderSeal: string,
    contractVersion: string, recoveryRequired: bool, recoveryState: string, ciphertext: string)

  datatype Source = Relay | Reticulum

  /** A collected message and where it came from. */
  datatype Copy = Copy(message: Message, source: Source)

  /** The tie-break treats an unreadable timestamp as 0. */
  function TieBreak(t: Timestamp): real {
    match t
    case Seconds(s) => s
    case Unreadable => 0.0
  }

  const WHEN := (m: Message) => TieBreak(m.timestamp)

  function Tag(messages: seq<Message>, source: Source): (r: seq<Copy>)
    ensures |r| == |messages| && forall i :: 0 <= i < |r| ==> r[i] == Copy(messages[i], source)
  {
    seq(|messages|, i requires 0 <= i < |messages| => Copy(messages[i], source))
  }

  function Messages(copies: seq<Copy>): (r: seq<Message>)
    ensures |r| == |copies| && forall i :: 0 <= i < |r| ==> r[i] == copies[i].message
  {
    seq(|copies|, i requires 0 <= i < |copies| => copies[i].message)
  }

  /** Both lists, relay first. */
  function Arrivals(relay: seq<Message>, direct: seq<Message>): (r: seq<Copy>)
    ensures |r| == |relay| + |direct|
  {
    Tag(relay, Relay) + Tag(direct, Reticulum)
  }

  /** One representative per id, every id-less message, unsorted. */
  function Kept<K(==, !new)>(all: seq<Copy>, r: Rule<Copy, K>): seq<Message> {
    Messages(Slots(all, r))
  }

  datatype MergeResult = Merged(messages: seq<Message>) | ValueError

  predicate AllReadable(messages: seq<Message>) {
    forall i :: 0 <= i < |messages| ==> messages[i].timestamp.Seconds?
  }

  /** The final sort raises when a kept timestamp is unreadable. */
  function SortMerged(kept: seq<Message>): MergeResult {
    if AllReadable(kept) then Merged(StableSort(kept, WHEN)) else ValueError
  }

  function MergeBy<K(==, !new)>(relay: seq<Message>, direct: seq<Message>, r: Rule<Copy, K>): MergeResult {
    SortMerged(Kept(Arrivals(relay, direct), r))
  }

  /** The program keeps the messages in one list and their sources in the dictionary. */
  ghost predicate Represents<K(!new)>(
        merged: seq<Message>, index: map<K, (nat, Source)>, slots: seq<Copy>, positions: map<K, nat>) {
    && merged == Messages(slots)
    && index.Keys == positions.Keys
    && (forall k :: k in index ==>
          index[k].0 == positions[k] < |slots| && slots[positions[k]].source == index[k].1)
  }

  /** What `add_messages` maintains. */
  ghost predicate Tracking<K(!new)>(
        merged: seq<Message>, index: map<K, (nat, Source)>, slots: seq<Copy>, positions: map<K, nat>,
        done: seq<Copy>, r: Rule<Copy, K>)
  {
    Represents(merged, index, slots, positions) && InStep(slots, positions, done, r)
  }

  lemma MessagesSnoc(slots: seq<Copy>, x: Copy)
    ensures Messages(slots + [x]) == Messages(slots) + [x.message]
  {
  }

  lemma MessagesUpdate(slots: seq<Copy>, p: nat, x: Copy)
    requires p < |slots|
    ensures Messages(slots[p := x]) == Messages(slots)[p := x.message]
  {
  }

  lemma TrackKeyless<K(!new)>(
        merged: seq<Message>, index: map<K, (nat, Source)>, slots: seq<Copy>, positions: map<K, nat>,
        done: seq<Copy>, x: Copy, r: Rule<Copy, K>)
    requires Tracking(merged, index, slots, positions, done, r) && r.key(x) == r.none
    ensures Tracking(merged + [x.message], index, slots + [x], positions, done + [x], r)
  {
    StepKeyless(slots, positions, done, x, r);
    MessagesSnoc(slots, x);
  }

  lemma TrackNew<K(!new)>(merged: seq<Message>, index: map<K, (nat, Source)>, slots: seq<Copy>, positions: map<K, nat>,
                 done: seq<Copy>, x: Copy, r: Rule<Copy, K>)
    requires Tracking(merged, index, slots, positions, done, r) && r.key(x) != r.none && r.key(x) !in index
    ensures Tracking(merged + [x.message], index[r.key(x) := (|merged|, x.source)], slots + [x],
                     positions[r.key(x) := |slots|],
                     done + [x], r)
  {
    StepNew(slots, positions, done, x, r);
    MessagesSnoc(slots, x);
  }

  lemma RepresentsUpdate<K(!new)>(
        merged: seq<Message>, index: map<K, (nat, Source)>, slots: seq<Copy>, positions: map<K, nat>,
        k: K, x: Copy)
    requires Represents(merged, index, slots, positions) && k in index
    requires forall j :: j in positions && j != k ==> positions[j] != positions[k]
    ensures positions[k] < |slots| && positions[k] < |merged|
    ensures Represents(merged[positions[k] := x.message], index[k := (positions[k], x.source)],
                       slots[positions[k] := x], positions)
  {
    MessagesUpdate(slots, positions[k], x);
  }

  lemma RepresentsAt<K(!new)>(
        merged: seq<Message>, index: map<K, (nat, Source)>, slots: seq<Copy>, positions: map<K, nat>, k: K)
    requires Represents(merged, index, slots, positions) && k in index
    ensures index[k].0 == positions[k] < |slots| && positions[k] < |merged|
    ensures slots[positions[k]] == Copy(merged[positions[k]], index[k].1)
  {
  }

  lemma PositionsDiffer<K(!new)>(slots: seq<Copy>, positions: map<K, nat>, done: seq<Copy>, r: Rule<Copy, K>, k: K)
    requires InStep(slots, positions, done, r) && k in positions
    ensures forall j :: j in positions && j != k ==> positions[j] != positions[k]
  {
    forall j | j in positions && j != k ensures positions[j] != positions[k] {
      assert Located(slots, positions[j], done, r, j) && Located(slots, positions[k], done, r, k);
    }
  }

  lemma TrackLoser<K(!new)>(
        merged: seq<Message>, index: map<K, (nat, Source)>, slots: seq<Copy>, positions: map<K, nat>,
        done: seq<Copy>, x: Copy, r: Rule<Copy, K>)
    requires Tracking(merged, index, slots, positions, done, r) && r.key(x) in index
    requires index[r.key(x)].0 < |merged| && !r.beats(x, Copy(merged[index[r.key(x)].0], index[r.key(x)].1))
    ensures Tracking(merged, index, slots, positions, done + [x], r)
  {
    RepresentsAt(merged, index, slots, positions, r.key(x));
    StepRival(slots, positions, done, x, r);
  }

  lemma TrackWinner<K(!new)>(
        merged: seq<Message>, index: map<K, (nat, Source)>, slots: seq<Copy>, positions: map<K, nat>,
        done: seq<Copy>, x: Copy, r: Rule<Copy, K>, p: nat)
    requires Tracking(merged, index, slots, positions, done, r) && r.key(x) in index && p == index[r.key(x)].0
    requires p < |merged| && r.beats(x, Copy(merged[p], index[r.key(x)].1))
    ensures p < |slots|
    ensures Tracking(merged[p := x.message], index[r.key(x) := (p, x.source)], slots[p := x], positions, done + [x], r)
  {
    RepresentsAt(merged, index, slots, positions, r.key(x));
    StepRival(slots, positions, done, x, r);
    PositionsDiffer(slots, positions, done, r, r.key(x));
    RepresentsUpdate(merged, index, slots, positions, r.key(x), x);
  }

  lemma TrackedPosition<K(!new)>(
        merged: seq<Message>, index: map<K, (nat, Source)>, slots: seq<Copy>, positions: map<K, nat>,
        done: seq<Copy>, r: Rule<Copy, K>, k: K)
    requires Tracking(merged, index, slots, positions, done, r) && k in index
    ensures index[k].0 < |merged|
  {
    RepresentsAt(merged, index, slots, positions, k);
  }

  /** `_merge_dm_poll_messages`: the list and the id index are updated in place, then sorted. */
  method MergeMessages<K(==, !new)>(
        relay: seq<Message>, direct: seq<Message>, r: Rule<Copy, K>) returns (result: MergeResult)
    ensures result == MergeBy(relay, direct, r)
  {
    var merged: seq<Message> := [];
    var index: map<K, (nat, Source)> := map[];
    ghost var slots: seq<Copy>, positions: map<K, nat> := [], map[];
    merged, index, slots, positions := AddMessages(merged, index, slots, positions, relay, Relay, [], r);
    assert [] + Tag(relay, Relay) == Tag(relay, Relay);
    merged, index, slots, positions :=
      AddMessages(merged, index, slots, positions, direct, Reticulum, Tag(relay, Relay), r);
    if exists i :: 0 <= i < |merged| && merged[i].timestamp.Unreadable? {
      return ValueError;
    }
    return Merged(StableSort(merged, WHEN));
  }

  lemma TagNone(done: seq<Copy>, items: seq<Message>, source: Source)
    ensures done + Tag(items[..0], source) == done
  {
  }

  lemma TagSnoc(done: seq<Copy>, items: seq<Message>, source: Source, i: nat)
    requires i < |items|
    ensures done + Tag(items[..i + 1], source) == done + Tag(items[..i], source) + [Copy(items[i], source)]
  {
  }

  /** The inner `add_messages`; the rule's key is the trimmed message id, its comparison the
      duplicate test. */
  method AddMessages<K(==, !new)>(merged0: seq<Message>, index0: map<K, (nat, Source)>,
                                  ghost slots0: seq<Copy>, ghost positions0: map<K, nat>,
                                  items: seq<Message>, source: Source, ghost done: seq<Copy>, r: Rule<Copy, K>)
    returns (merged: seq<Message>, index: map<K, (nat, Source)>, ghost slots: seq<Copy>, ghost positions: map<K, nat>)
    requires Tracking(merged0, index0, slots0, positions0, done, r)
    ensures Tracking(merged, index, slots, positions, done + Tag(items, source), r)
  {
    merged, index, slots, positions := merged0, index0, slots0, positions0;
    TagNone(done, items, source);
    for i := 0 to |items|
      invariant Tracking(merged, index, slots, positions, done + Tag(items[..i], source), r)
    {
      TagSnoc(done, items, source, i);
      merged, index, slots, positions := AddMessage(merged, index, slots, positions, Copy(items[i], source),
                                                    done + Tag(items[..i], source), r);
    }
    assert items[..|items|] == items;
  }

  /** The body of that loop. */
  method AddMessage<K(==, !new)>(merged0: seq<Message>, index0: map<K, (nat, Source)>,
                                 ghost slots0: seq<Copy>, ghost positions0: map<K, nat>,
                                 item: Copy, ghost done: seq<Copy>, r: Rule<Copy, K>)
    returns (merged: seq<Message>, index: map<K, (nat, Source)>, ghost slots: seq<Copy>, ghost positions: map<K, nat>)
    requires Tracking(merged0, index0, slots0, positions0, done, r)
    ensures Tracking(merged, index, slots, positions, done + [item], r)
  {
    merged, index, slots, positions := merged0, index0, slots0, positions0;
    var msgId := r.key(item);
    if msgId == r.none {
      TrackKeyless(merged, index, slots, positions, done, item, r);
      merged, slots := merged + [item.message], slots + [item];
    } else if msgId !in index {
      TrackNew(merged, index, slots, positions, done, item, r);
      index, positions := index[msgId := (|merged|, item.source)], positions[msgId := |slots|];
      merged, slots := merged + [item.message], slots + [item];
    } else {
      TrackedPosition(merged, index, slots, positions, done, r, msgId);
      var (p, existingSource) := index[msgId];
      if r.beats(item, Copy(merged[p], existingSource)) {
        TrackWinner(merged, index, slots, positions, done, item, r, p);
        merged, slots := merged[p := item.message], slots[p := item];
        index := index[msgId := (p, item.source)];
      } else {
        TrackLoser(merged, index, slots, positions, done, item, r);
      }
    }
  }

  // ---- what the merge promises ----

  /** `mid` reads the id off the message alone. */
  ghost predicate Agree<K(!new)>(r: Rule<Copy, K>, mid: Rule<Message, K>) {
    r.none == mid.none && forall c :: r.key(c) == mid.key(c.message)
  }

  /** `m` is the representative of id `k` among the arrivals. */
  ghost predicate RepresentsId<K(!new)>(m: Message, all: seq<Copy>, r: Rule<Copy, K>, k: K) {
    exists w :: IsWinner(all, r, k, w) && m == all[w].message
  }

  lemma MessagesKeyless<K(!new)>(copies: seq<Copy>, r: Rule<Copy, K>, mid: Rule<Message, K>)
    requires Agree(r, mid)
    ensures Keyless(Messages(copies), mid) == Messages(Keyless(copies, r))
  {
    if copies != [] {
      var init, last := copies[..|copies| - 1], copies[|copies| - 1];
      MessagesKeyless(init, r, mid);
      assert copies == init + [last];
      MessagesSnoc(init, last);
      KeylessSnoc(init, last, r);
      KeylessSnoc(Messages(init), last.message, mid);
      if r.key(last) == r.none { MessagesSnoc(Keyless(init, r), last); }
    }
  }

  lemma {:induction false} MessagesSeen<K(!new)>(
        copies: seq<Copy>, r: Rule<Copy, K>, mid: Rule<Message, K>, k: K, n: nat)
    requires Agree(r, mid) && n <= |copies|
    ensures Seen(Messages(copies), mid, k, n) <==> Seen(copies, r, k, n)
  {
    if n > 0 { MessagesSeen(copies, r, mid, k, n - 1); }
  }

  /** The messages stand in the order of the arrivals that opened their places. */
  ghost predicate KeptInOrder<K(!new)>(kept: seq<Message>, all: seq<Copy>, r: Rule<Copy, K>) {
    exists copies, openers :: InOrder(copies, all, r, openers) && kept == Messages(copies)
  }

  /** One kept message per id, each its id's representative, every id-less one, all in order of arrival. */
  ghost predicate FaithfulSelection<K(!new)>(
        kept: seq<Message>, all: seq<Copy>, r: Rule<Copy, K>, mid: Rule<Message, K>)
  {
    && DistinctKeys(kept, mid)
    && (forall k :: k != r.none ==> (HasKey(kept, mid, k) <==> HasKey(all, r, k)))
    && (forall i :: 0 <= i < |kept| && mid.key(kept[i]) != r.none ==> RepresentsId(kept[i], all, r, mid.key(kept[i])))
    && Keyless(kept, mid) == Messages(Keyless(all, r))
    && KeptInOrder(kept, all, r)
  }

  lemma KeptFaithful<K(!new)>(all: seq<Copy>, r: Rule<Copy, K>, mid: Rule<Message, K>)
    requires Agree(r, mid) && StrictWeakOrder(r.beats)
    ensures FaithfulSelection(Kept(all, r), all, r, mid)
  {
    var copies := Slots(all, r);
    SlotsFaithful(all, r);
    SlotsInOrder(all, r);
    MessagesKeyless(copies, r, mid);
    forall k ensures HasKey(Messages(copies), mid, k) <==> HasKey(copies, r, k) {
      MessagesSeen(copies, r, mid, k, |copies|);
    }
  }

  /** What the returned list is: a faithful selection, sorted by time, equal times in order. */
  ghost predicate FaithfulMerge<K(!new)>(out: seq<Message>, all: seq<Copy>, r: Rule<Copy, K>, mid: Rule<Message, K>) {
    && DistinctKeys(out, mid)
    && (forall k :: k != mid.none ==> (HasKey(out, mid, k) <==> HasKey(all, r, k)))
    && (forall i :: 0 <= i < |out| && mid.key(out[i]) != mid.none ==> RepresentsId(out[i], all, r, mid.key(out[i])))
    && Sorted(out, WHEN)
    && (exists kept :: FaithfulSelection(kept, all, r, mid) && SameUpToStableSort(out, kept))
  }

  ghost predicate SameUpToStableSort(out: seq<Message>, kept: seq<Message>) {
    multiset(out) == multiset(kept) && forall t :: WithKey(out, WHEN, t) == WithKey(kept, WHEN, t)
  }

  lemma MergeFaithful<K(!new)>(relay: seq<Message>, direct: seq<Message>, r: Rule<Copy, K>, mid: Rule<Message, K>)
    requires Agree(r, mid) && StrictWeakOrder(r.beats)
    requires MergeBy(relay, direct, r).Merged?
    ensures FaithfulMerge(MergeBy(relay, direct, r).messages, Arrivals(relay, direct), r, mid)
  {
    var all, out := Arrivals(relay, direct), MergeBy(relay, direct, r).messages;
    var kept := Kept(all, r);
    KeptFaithful(all, r, mid);
    StableSortCorrect(kept, WHEN);
    PermutationKeepsDistinct(kept, out, mid);
    SameMembers(kept, out, mid);
    assert SameUpToStableSort(out, kept);
  }

  /** No other list is a faithful merge: the promise leaves nothing open. */
  lemma MergeDetermined<K(!new)>(a: seq<Message>, b: seq<Message>, all: seq<Copy>, r: Rule<Copy, K>,
                                 mid: Rule<Message, K>)
    requires FaithfulMerge(a, all, r, mid) && FaithfulMerge(b, all, r, mid)
    ensures a == b
  {
    var x :| FaithfulSelection(x, all, r, mid) && SameUpToStableSort(a, x);
    var y :| FaithfulSelection(y, all, r, mid) && SameUpToStableSort(b, y);
    KeptUnique(x, y, all, r);
    forall t ensures WithKey(a, WHEN, t) == WithKey(b, WHEN, t) {
      assert WithKey(a, WHEN, t) == WithKey(x, WHEN, t);
      assert WithKey(b, WHEN, t) == WithKey(y, WHEN, t);
    }
    StableSortUnique(a, b, WHEN);
  }

  lemma KeptUnique<K(!new)>(x: seq<Message>, y: seq<Message>, all: seq<Copy>, r: Rule<Copy, K>)
    requires KeptInOrder(x, all, r) && KeptInOrder(y, all, r)
    ensures x == y
  {
    var a, m :| InOrder(a, all, r, m) && x == Messages(a);
    var b, n :| InOrder(b, all, r, n) && y == Messages(b);
    InOrderUnique(a, b, all, r, m, n);
  }

  lemma SameMembers<K(!new)>(a: seq<Message>, b: seq<Message>, mid: Rule<Message, K>)
    requires multiset(a) == multiset(b)
    ensures forall i :: 0 <= i < |b| ==> b[i] in a
    ensures forall k :: HasKey(a, mid, k) <==> HasKey(b, mid, k)
  {
    forall i | 0 <= i < |b| ensures b[i] in a { assert b[i] in multiset(a); }
    forall k ensures HasKey(a, mid, k) <==> HasKey(b, mid, k) {
      if HasKey(a, mid, k) { KeyMoves(a, b, mid, k); }
      if HasKey(b, mid, k) { KeyMoves(b, a, mid, k); }
    }
  }

  lemma KeyMoves<K(!new)>(a: seq<Message>, b: seq<Message>, mid: Rule<Message, K>, k: K)
    requires multiset(a) == multiset(b) && HasKey(a, mid, k)
    ensures HasKey(b, mid, k)
  {
    var i := SeenWhere(a, mid, k, |a|);
    assert a[i] in multiset(b);
    var j :| 0 <= j < |b| && b[j] == a[i];
    SeenAt(b, mid, j, |b|);
  }

  /** Merging a merged list again, with nothing new, changes nothing. */
  lemma MergeAgain<K(!new)>(relay: seq<Message>, direct: seq<Message>, r: Rule<Copy, K>, mid: Rule<Message, K>)
    requires Agree(r, mid) && StrictWeakOrder(r.beats)
    requires MergeBy(relay, direct, r).Merged?
    ensures MergeBy(MergeBy(relay, direct, r).messages, [], r) == MergeBy(relay, direct, r)
  {
    var kept, out := Kept(Arrivals(relay, direct), r), MergeBy(relay, direct, r).messages;
    MergeFaithful(relay, direct, r, mid);
    var copies := Arrivals(out, []);
    assert forall i :: 0 <= i < |out| ==> r.key(copies[i]) == mid.key(out[i]);
    SlotsOfDistinct(copies, r);
    assert Messages(copies) == out;
    StableSortCorrect(kept, WHEN);
    ReadablePermutation(kept, out);
    SortedIsFixed(out, WHEN);
  }

  lemma ReadablePermutation(a: seq<Message>, b: seq<Message>)
    requires multiset(a) == multiset(b) && AllReadable(a)
    ensures AllReadable(b)
  {
    forall i | 0 <= i < |b| ensures b[i].timestamp.Seconds? {
      assert b[i] in multiset(a);
      var j :| 0 <= j < |a| && a[j] == b[i];
    }
  }

  /** Arrival `i` survives the merge. */
  ghost predicate Survives<K(!new)>(all: seq<Copy>, r: Rule<Copy, K>, i: int) {
    0 <= i < |all| && (r.key(all[i]) == r.none || IsWinner(all, r, r.key(all[i]), i))
  }

  lemma RaisesExactly<K(!new)>(relay: seq<Message>, direct: seq<Message>, r: Rule<Copy, K>, mid: Rule<Message, K>)
    requires Agree(r, mid) && StrictWeakOrder(r.beats)
    ensures var all := Arrivals(relay, direct);
            MergeBy(relay, direct, r).ValueError?
            <==> exists i :: Survives(all, r, i) && all[i].message.timestamp.Unreadable?
  {
    var all := Arrivals(relay, direct);
    var kept := Kept(all, r);
    KeptFaithful(all, r, mid);
    if !AllReadable(kept) {
      var p :| 0 <= p < |kept| && kept[p].timestamp.Unreadable?;
      var i := KeptComesFrom(all, r, mid, kept, p);
      assert Survives(all, r, i);
    }
    if i :| Survives(all, r, i) && all[i].message.timestamp.Unreadable? {
      KeptContains(all, r, mid, kept, i);
      var p :| 0 <= p < |kept| && kept[p] == all[i].message;
      assert kept[p].timestamp.Unreadable?;
    }
  }

  /** A relay copy without a readable timestamp that is not replaced makes the merge raise. */
  lemma KeptCopyRaises<K(!new)>(m: Message, direct: Message, r: Rule<Copy, K>, mid: Rule<Message, K>)
    requires Agree(r, mid) && StrictWeakOrder(r.beats)
    requires m.timestamp.Unreadable? && !r.beats(Copy(direct, Reticulum), Copy(m, Relay))
    ensures MergeBy([m], [direct], r) == ValueError
  {
    var all := Arrivals([m], [direct]);
    assert all[0] == Copy(m, Relay) && all[1] == Copy(direct, Reticulum);
    assert Survives(all, r, 0);
    RaisesExactly([m], [direct], r, mid);
  }

  lemma PairKept<K(!new)>(m: Message, direct: Message, r: Rule<Copy, K>)
    requires r.key(Copy(m, Relay)) == r.key(Copy(direct, Reticulum)) && r.key(Copy(m, Relay)) != r.none
    ensures Kept(Arrivals([m], [direct]), r)
            == [if r.beats(Copy(direct, Reticulum), Copy(m, Relay)) then direct else m]
  {
    var x, y := Copy(m, Relay), Copy(direct, Reticulum);
    assert [] + [x] == [x] && Arrivals([m], [direct]) == [x] + [y];
    SlotsSnocNew([], x, r);
    HasKeySnoc([], x, r, r.key(y));
    SlotsSnocRival([x], y, r);
    assert Winner([x], r, r.key(y)) == 0 && Position([x], r, r.key(y)) == 0;
  }

  lemma KeptComesFrom<K(!new)>(all: seq<Copy>, r: Rule<Copy, K>, mid: Rule<Message, K>,
                      kept: seq<Message>, p: nat)
    returns (i: nat)
    requires Agree(r, mid) && FaithfulSelection(kept, all, r, mid) && p < |kept|
    ensures Survives(all, r, i) && all[i].message == kept[p]
  {
    if mid.key(kept[p]) == r.none {
      KeylessIff(kept, mid, kept[p]);
      i := IdlessComesFrom(all, r, kept[p]);
    } else {
      var w :| IsWinner(all, r, mid.key(kept[p]), w) && kept[p] == all[w].message;
      i := w;
    }
  }

  lemma IdlessComesFrom<K(!new)>(all: seq<Copy>, r: Rule<Copy, K>, m: Message) returns (i: nat)
    requires m in Messages(Keyless(all, r))
    ensures Survives(all, r, i) && all[i].message == m
  {
    var idless := Keyless(all, r);
    var j :| 0 <= j < |idless| && Messages(idless)[j] == m;
    KeylessIff(all, r, idless[j]);
    i :| 0 <= i < |all| && all[i] == idless[j];
  }

  lemma KeptContains<K(!new)>(all: seq<Copy>, r: Rule<Copy, K>, mid: Rule<Message, K>,
                     kept: seq<Message>, i: nat)
    requires Agree(r, mid) && FaithfulSelection(kept, all, r, mid)
    requires Survives(all, r, i)
    ensures all[i].message in kept
  {
    var k := r.key(all[i]);
    if k == r.none {
      KeylessIff(all, r, all[i]);
      var idless := Keyless(all, r);
      var j :| 0 <= j < |idless| && idless[j] == all[i];
      assert Messages(idless)[j] == all[i].message;
      KeylessIff(kept, mid, all[i].message);
    } else {
      SeenAt(all, r, i, |all|);
      assert HasKey(all, r, k) && HasKey(kept, mid, k);
      var p := SeenWhere(kept, mid, k, |kept|);
      var w :| IsWinner(all, r, k, w) && kept[p] == all[w].message;
      WinnerUnique(all, r, k, i, w);
    }
  }

  /** Every arrival is in the result, or shares its id with a message of the result. */
  lemma EveryArrivalAccounted<K(!new)>(
        relay: seq<Message>, direct: seq<Message>, r: Rule<Copy, K>, mid: Rule<Message, K>, m: Message)
    requires Agree(r, mid) && StrictWeakOrder(r.beats)
    requires MergeBy(relay, direct, r).Merged?
    requires m in relay || m in direct
    ensures var out := MergeBy(relay, direct, r).messages;
            if mid.key(m) == r.none then m in out else HasKey(out, mid, mid.key(m))
  {
    var all, out := Arrivals(relay, direct), MergeBy(relay, direct, r).messages;
    var kept := Kept(all, r);
    MergeFaithful(relay, direct, r, mid);
    KeptFaithful(all, r, mid);
    StableSortCorrect(kept, WHEN);
    var i := ArrivalOf(relay, direct, m);
    if mid.key(m) == r.none {
      KeptContains(all, r, mid, kept, i);
      assert m in multiset(out);
    } else {
      SeenAt(all, r, i, |all|);
    }
  }

  lemma ArrivalOf(relay: seq<Message>, direct: seq<Message>, m: Message) returns (i: nat)
    requires m in relay || m in direct
    ensures i < |Arrivals(relay, direct)| && Arrivals(relay, direct)[i].message == m
  {
    if m in relay { i :| 0 <= i < |relay| && relay[i] == m; }
    else { var j :| 0 <= j < |direct| && direct[j] == m; i := |relay| + j; }
  }

  /** The merge never returns more than it was given. */
  lemma MergeNoLonger<K(!new)>(relay: seq<Message>, direct: seq<Message>, r: Rule<Copy, K>)
    ensures |Kept(Arrivals(relay, direct), r)| <= |relay| + |direct|
  {
    SlotsNoLonger(Arrivals(relay, direct), r, |relay| + |direct|);
  }

  lemma {:induction false} SlotsNoLonger<K(!new)>(all: seq<Copy>, r: Rule<Copy, K>, n: nat)
    requires n <= |all|
    ensures |SlotsUpTo(all, r, n)| <= n
  {
    if n > 0 {
      SlotsNoLonger(all, r, n - 1);
      SlotsUpToStep(all, r, n - 1);
    }
  }
}
