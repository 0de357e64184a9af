/** The dead-drop poll of backend/main.py: annotation, duplicate ranking, and the merge. */
module DmPoll {
  import opened Text
  import opened Sorting
  import opened KeyedBest
  import opened MessageMerge

  const REDUCED_VERSION := "request-v2-reduced-v3"
  const BATCH_LIMIT := 8

  predicate StartsWith(s: string, prefix: string) { prefix <= s }

  predicate IsRequest(m: Message) { Lower(Strip(m.deliveryClass)) == "request" }

  predicate IsBlinded(senderId: string) {
    StartsWith(senderId, "sealed:") || StartsWith(senderId, "sender_token:")
  }

  /** `_is_canonical_reduced_request_message` */
  predicate IsCanonical(m: Message) {
    IsRequest(m) && Strip(m.contractVersion) == REDUCED_VERSION && m.recoveryRequired
  }

  /** `_annotate_request_recovery_message` */
  function Annotate(m: Message): (r: Message)
    ensures r.msgId == m.msgId && r.timestamp == m.timestamp && r.ciphertext == m.ciphertext
  {
    if !IsRequest(m) || !IsBlinded(Strip(m.senderId)) || !StartsWith(Strip(m.senderSeal), "v3:") then m
    else
      var state := Lower(Strip(m.recoveryState));
      m.(contractVersion := if Strip(m.contractVersion) == "" then REDUCED_VERSION else m.contractVersion,
         recoveryRequired := true,
         recoveryState := if state in {"pending", "verified", "failed"} then state else "pending")
  }

  /** A request whose sender is blinded and whose seal has version 3. */
  predicate IsSealedRequest(m: Message) {
    IsRequest(m) && IsBlinded(Strip(m.senderId)) && StartsWith(Strip(m.senderSeal), "v3:")
  }

  /** Annotation touches sealed requests only, and of those only three fields: recovery becomes required, its state
      one of the three known ones, a known state is kept and any other becomes "pending", and a contract version that
      is there is kept. */
  lemma AnnotateRewrites(m: Message)
    ensures !IsSealedRequest(m) ==> Annotate(m) == m
    ensures IsSealedRequest(m) ==>
              var r, state := Annotate(m), Lower(Strip(m.recoveryState));
              && r == m.(contractVersion := r.contractVersion, recoveryRequired := true,
                         recoveryState := r.recoveryState)
              && r.recoveryState in {"pending", "verified", "failed"}
              && r.recoveryState == (if state in {"pending", "verified", "failed"} then state else "pending")
              && Strip(r.contractVersion) != ""
              && (Strip(m.contractVersion) != "" ==> r.contractVersion == m.contractVersion)
  {
    ReducedVersionIsTrimmed();
  }

  function AnnotateAll(messages: seq<Message>): (r: seq<Message>)
    ensures |r| == |messages| && forall i :: 0 <= i < |r| ==> r[i] == Annotate(messages[i])
  {
    seq(|messages|, i requires 0 <= i < |messages| => Annotate(messages[i]))
  }

  /** `_request_duplicate_authority_rank` */
  function AuthorityRank(m: Message): int {
    if !IsRequest(m) then 0
    else if IsCanonical(m) then 3
    else if IsBlinded(Strip(m.senderId)) then 1
    else if Strip(m.senderId) != "" then 2
    else 0
  }

  /** `_request_duplicate_recovery_rank` */
  function RecoveryRank(m: Message): int {
    if !IsCanonical(m) then 0
    else
      var state := Lower(Strip(m.recoveryState));
      if state == "verified" then 2 else if state == "pending" then 1 else 0
  }

  /** `_poll_duplicate_source_rank` */
  function SourceRank(s: Source): int {
    match s
    case Relay => 2
    case Reticulum => 1
  }

  /** `_should_replace_dm_poll_duplicate` */
  predicate ShouldReplace(candidate: Copy, existing: Copy) {
    var ca, ea := AuthorityRank(candidate.message), AuthorityRank(existing.message);
    if ca != ea then ca > ea
    else
      var cr, er := RecoveryRank(candidate.message), RecoveryRank(existing.message);
      if cr != er then cr > er
      else
        var cs, es := SourceRank(candidate.source), SourceRank(existing.source);
        if cs != es then cs > es
        else TieBreak(candidate.message.timestamp) > TieBreak(existing.message.timestamp)
  }

  /** Messages are keyed by their trimmed id; an empty one is no id. */
  const POLL: Rule<Copy, string> :=
    Rule((c: Copy) => Strip(c.message.msgId), "", (a: Copy, b: Copy) => ShouldReplace(a, b))

  const MESSAGE_ID: Rule<Message, string> :=
    Rule((m: Message) => Strip(m.msgId), "", (a: Message, b: Message) => false)

  lemma RulesAgree()
    ensures Agree(POLL, MESSAGE_ID)
  {
  }

  /** The four ranks, most significant first. */
  type Rank = (int, int, int, real)

  function RankOf(c: Copy): Rank {
    (AuthorityRank(c.message), RecoveryRank(c.message), SourceRank(c.source), TieBreak(c.message.timestamp))
  }

  /** Lexicographic comparison, written the other way round from the cascade of the program. */
  predicate Above(a: Rank, b: Rank) {
    || a.0 > b.0
    || (a.0 == b.0 && a.1 > b.1)
    || (a.0 == b.0 && a.1 == b.1 && a.2 > b.2)
    || (a.0 == b.0 && a.1 == b.1 && a.2 == b.2 && a.3 > b.3)
  }

  lemma ShouldReplaceIsLexicographic(candidate: Copy, existing: Copy)
    ensures ShouldReplace(candidate, existing) <==> Above(RankOf(candidate), RankOf(existing))
  {
  }

  lemma ShouldReplaceIsStrictWeakOrder()
    ensures StrictWeakOrder(POLL.beats)
  {
    forall a: Copy, b: Copy ensures POLL.beats(a, b) == Above(RankOf(a), RankOf(b)) {
      ShouldReplaceIsLexicographic(a, b);
    }
    StrictWeakOrderByRank(POLL.beats, RankOf, Above);
  }

  /** What `_merge_dm_poll_messages` returns. */
  function Merge(relay: seq<Message>, direct: seq<Message>): MergeResult {
    MergeBy(relay, direct, POLL)
  }

  method MergeDmPollMessages(relay: seq<Message>, direct: seq<Message>) returns (r: MergeResult)
    ensures r == Merge(relay, direct)
  {
    r := MergeMessages(relay, direct, POLL);
  }

  /** The merge keeps one message per id, the first maximal one in relay-then-direct order, in the place where its id
      first arrived, and every message without an id in its own; it sorts them by time without reordering equal times.
      */
  lemma MergeKeepsTheBestOfEachId(relay: seq<Message>, direct: seq<Message>)
    requires Merge(relay, direct).Merged?
    ensures FaithfulMerge(Merge(relay, direct).messages, Arrivals(relay, direct), POLL, MESSAGE_ID)
  {
    ShouldReplaceIsStrictWeakOrder();
    RulesAgree();
    MergeFaithful(relay, direct, POLL, MESSAGE_ID);
  }

  /** And no other list than the one returned is that. */
  lemma MergeIsDetermined(relay: seq<Message>, direct: seq<Message>, out: seq<Message>)
    requires Merge(relay, direct).Merged?
    ensures FaithfulMerge(out, Arrivals(relay, direct), POLL, MESSAGE_ID) <==> out == Merge(relay, direct).messages
  {
    MergeKeepsTheBestOfEachId(relay, direct);
    if FaithfulMerge(out, Arrivals(relay, direct), POLL, MESSAGE_ID) {
      MergeDetermined(out, Merge(relay, direct).messages, Arrivals(relay, direct), POLL, MESSAGE_ID);
    }
  }

  /** Merging a merged list again, with nothing new, changes nothing. */
  lemma MergeIdempotent(relay: seq<Message>, direct: seq<Message>)
    requires Merge(relay, direct).Merged?
    ensures Merge(Merge(relay, direct).messages, []) == Merge(relay, direct)
  {
    ShouldReplaceIsStrictWeakOrder();
    RulesAgree();
    MergeAgain(relay, direct, POLL, MESSAGE_ID);
  }

  /** The merge raises exactly when a message it would keep has an unreadable timestamp; the
      losing duplicates may have any. */
  lemma MergeRaisesExactly(relay: seq<Message>, direct: seq<Message>)
    ensures var all := Arrivals(relay, direct);
            Merge(relay, direct).ValueError?
            <==> exists i :: Survives(all, POLL, i) && all[i].message.timestamp.Unreadable?
  {
    ShouldReplaceIsStrictWeakOrder();
    RulesAgree();
    RaisesExactly(relay, direct, POLL, MESSAGE_ID);
  }

  /** It happens: a relay copy without a readable timestamp is kept over a direct copy that has one, and the merge
      raises. */
  lemma RelayCopyRaises(m: Message, t: real)
    requires m.timestamp.Unreadable?
    ensures Merge([m], [m.(timestamp := Seconds(t))]) == ValueError
  {
    var direct := m.(timestamp := Seconds(t));
    SameAuthority(m, Seconds(t));
    SameRecovery(m, Seconds(t));
    ShouldReplaceIsLexicographic(Copy(direct, Reticulum), Copy(m, Relay));
    ShouldReplaceIsStrictWeakOrder();
    RulesAgree();
    KeptCopyRaises(m, direct, POLL, MESSAGE_ID);
  }

  lemma SameKind(m: Message, t: Timestamp)
    ensures IsRequest(m.(timestamp := t)) == IsRequest(m) && IsCanonical(m.(timestamp := t)) == IsCanonical(m)
  {
  }

  lemma SameAuthority(m: Message, t: Timestamp)
    ensures AuthorityRank(m.(timestamp := t)) == AuthorityRank(m)
  {
    SameKind(m, t);
  }

  lemma SameRecovery(m: Message, t: Timestamp)
    ensures RecoveryRank(m.(timestamp := t)) == RecoveryRank(m)
  {
    SameKind(m, t);
  }

  /** Whenever a canonical copy of an id arrives, the copy returned is canonical, and no other
      canonical copy is further along in recovery; a direct copy is returned only when every
      relay copy ranks below it. */
  lemma RepresentativePreference(relay: seq<Message>, direct: seq<Message>, k: string, w: nat, j: nat)
    requires var all := Arrivals(relay, direct);
             j < |all| && POLL.key(all[j]) == k && IsWinner(all, POLL, k, w)
    ensures var all := Arrivals(relay, direct);
            && (IsCanonical(all[j].message) ==>
                  IsCanonical(all[w].message) && RecoveryRank(all[j].message) <= RecoveryRank(all[w].message))
            && (all[w].source.Reticulum? && all[j].source.Relay? ==>
                  AuthorityRank(all[j].message) < AuthorityRank(all[w].message)
                  || (AuthorityRank(all[j].message) == AuthorityRank(all[w].message)
                      && RecoveryRank(all[j].message) < RecoveryRank(all[w].message)))
  {
    var all := Arrivals(relay, direct);
    assert !POLL.beats(all[j], all[w]);
    ShouldReplaceIsLexicographic(all[j], all[w]);
  }

  /** Annotation turns every sealed v3 request without a contract version into a canonical one. */
  lemma AnnotationMakesCanonical(m: Message)
    requires IsRequest(m) && IsBlinded(Strip(m.senderId)) && StartsWith(Strip(m.senderSeal), "v3:")
    requires Strip(m.contractVersion) in {"", REDUCED_VERSION}
    ensures IsCanonical(Annotate(m)) && AuthorityRank(Annotate(m)) == 3
    ensures Annotate(Annotate(m)) == Annotate(m)
  {
    ReducedVersionIsTrimmed();
    StatesAreStable();
  }

  lemma ReducedVersionIsTrimmed()
    ensures Strip(REDUCED_VERSION) == REDUCED_VERSION
  {
    assert REDUCED_VERSION[0] == 'r' && REDUCED_VERSION[|REDUCED_VERSION| - 1] == '3';
    TrimFixed(REDUCED_VERSION, IsSpace);
  }

  lemma LowercaseWord(s: string)
    requires s != [] && forall i :: 0 <= i < |s| ==> 'a' <= s[i] <= 'z'
    ensures Text.Lower(Strip(s)) == s
  {
    TrimFixed(s, IsSpace);
    assert Text.Lower(s) == s;
  }

  lemma StatesAreStable()
    ensures Text.Lower(Strip("pending")) == "pending"
    ensures Text.Lower(Strip("verified")) == "verified"
    ensures Text.Lower(Strip("failed")) == "failed"
  {
    LowercaseWord("pending");
    LowercaseWord("verified");
    LowercaseWord("failed");
  }
}
