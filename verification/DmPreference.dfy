/** Which copy of a message a poll returns, told from the fields of the copies alone. */
module DmPreference {
  import opened Text
  import opened Sorting
  import opened KeyedBest
  import opened MessageMerge
  import opened DmPoll

  /** A request whose sender is given in the open. */
  predicate IsNamed(m: Message) { IsRequest(m) && Strip(m.senderId) != "" && !IsBlinded(Strip(m.senderId)) }

  predicate IsBlindedRequest(m: Message) { IsRequest(m) && IsBlinded(Strip(m.senderId)) }

  function RecoveryState(m: Message): string { Lower(Strip(m.recoveryState)) }

  /** Equally good: both canonical and equally far in recovery, or neither canonical and of the same kind. */
  predicate Alike(a: Message, b: Message) {
    && (IsCanonical(a) <==> IsCanonical(b))
    && if IsCanonical(a) then
         && (RecoveryState(a) == "verified" <==> RecoveryState(b) == "verified")
         && (RecoveryState(a) == "pending" <==> RecoveryState(b) == "pending")
       else (IsNamed(a) <==> IsNamed(b)) && (IsBlindedRequest(a) <==> IsBlindedRequest(b))
  }

  lemma AuthorityByKind(m: Message)
    ensures AuthorityRank(m)
            == if IsCanonical(m) then 3 else if IsNamed(m) then 2 else if IsBlindedRequest(m) then 1 else 0
  {
  }

  lemma RecoveryByState(m: Message)
    ensures RecoveryRank(m)
            == if !IsCanonical(m) then 0
               else if RecoveryState(m) == "verified" then 2 else if RecoveryState(m) == "pending" then 1 else 0
  {
  }

  /** What a copy that is not replaced by another one has over it, most significant first: being canonical, then a
      named sender, then a blinded one; among canonical copies the recovery state; then the relay; then the later
      time. */
  ghost predicate AtLeastAsGood(w: Copy, j: Copy) {
    && (IsCanonical(j.message) ==> IsCanonical(w.message))
    && (IsNamed(j.message) ==> IsCanonical(w.message) || IsNamed(w.message))
    && (IsBlindedRequest(j.message) ==> IsCanonical(w.message) || IsNamed(w.message) || IsBlindedRequest(w.message))
    && (IsCanonical(j.message) && RecoveryState(j.message) == "verified" ==> RecoveryState(w.message) == "verified")
    && (IsCanonical(j.message) && RecoveryState(j.message) == "pending" ==>
          RecoveryState(w.message) in {"verified", "pending"})
    && (Alike(w.message, j.message) && j.source == Relay ==> w.source == Relay)
    && (Alike(w.message, j.message) && j.source == w.source ==>
          NotEarlier(w.message.timestamp, j.message.timestamp))
  }

  /** Read as a time, where an unreadable one stands for 0. */
  predicate NotEarlier(w: Timestamp, j: Timestamp) {
    match (w, j)
    case (Seconds(a), Seconds(b)) => b <= a
    case (Seconds(a), Unreadable) => 0.0 <= a
    case (Unreadable, Seconds(b)) => b <= 0.0
    case (Unreadable, Unreadable) => true
  }

  lemma KindsCompare(w: Message, j: Message)
    requires AuthorityRank(j) <= AuthorityRank(w)
    ensures IsCanonical(j) ==> IsCanonical(w)
    ensures IsNamed(j) ==> IsCanonical(w) || IsNamed(w)
    ensures IsBlindedRequest(j) ==> IsCanonical(w) || IsNamed(w) || IsBlindedRequest(w)
  {
    AuthorityByKind(w);
    AuthorityByKind(j);
  }

  lemma StatesCompare(w: Message, j: Message)
    requires IsCanonical(w) && IsCanonical(j) && RecoveryRank(j) <= RecoveryRank(w)
    ensures RecoveryState(j) == "verified" ==> RecoveryState(w) == "verified"
    ensures RecoveryState(j) == "pending" ==> RecoveryState(w) in {"verified", "pending"}
  {
    RecoveryByState(w);
    RecoveryByState(j);
  }

  lemma AlikeRanks(w: Message, j: Message)
    requires Alike(w, j)
    ensures AuthorityRank(w) == AuthorityRank(j) && RecoveryRank(w) == RecoveryRank(j)
  {
    AuthorityByKind(w);
    AuthorityByKind(j);
    RecoveryByState(w);
    RecoveryByState(j);
  }

  lemma NotReplaced(w: Copy, j: Copy)
    requires !ShouldReplace(j, w)
    ensures AtLeastAsGood(w, j)
  {
    KindsCompare(w.message, j.message);
    if IsCanonical(j.message) {
      AuthorityByKind(w.message);
      AuthorityByKind(j.message);
      StatesCompare(w.message, j.message);
    }
    if Alike(w.message, j.message) { AlikeRanks(w.message, j.message); }
  }

  predicate SameLaneAndTime(a: Copy, b: Copy) {
    a.source == b.source && TieBreak(a.message.timestamp) == TieBreak(b.message.timestamp)
  }

  /** The copy returned for an id is at least as good as every copy that arrived; of equally good ones from the same
      lane and time it is the first. */
  lemma BestByFields(relay: seq<Message>, direct: seq<Message>, k: string, w: nat, j: nat)
    requires var all := Arrivals(relay, direct);
             j < |all| && POLL.key(all[j]) == k && IsWinner(all, POLL, k, w)
    ensures var all := Arrivals(relay, direct);
            && AtLeastAsGood(all[w], all[j])
            && (Alike(all[w].message, all[j].message) && SameLaneAndTime(all[w], all[j]) ==> w <= j)
  {
    var all := Arrivals(relay, direct);
    assert !POLL.beats(all[j], all[w]);
    NotReplaced(all[w], all[j]);
    if j < w {
      assert POLL.beats(all[w], all[j]);
      if Alike(all[w].message, all[j].message) { AlikeRanks(all[w].message, all[j].message); }
    }
  }

  // ---- one copy on each lane ----

  /** Of two copies of a message the direct one is returned exactly if it replaces the relay one. */
  lemma PairMerges(a: Message, b: Message)
    requires Strip(a.msgId) == Strip(b.msgId) && Strip(a.msgId) != "" && a.timestamp.Seconds? && b.timestamp.Seconds?
    ensures Merge([a], [b]) == Merged([if ShouldReplace(Copy(b, Reticulum), Copy(a, Relay)) then b else a])
  {
    PairKept(a, b, POLL);
    SingletonSorted(if ShouldReplace(Copy(b, Reticulum), Copy(a, Relay)) then b else a);
  }

  lemma SingletonSorted(m: Message)
    requires m.timestamp.Seconds?
    ensures SortMerged([m]) == Merged([m])
  {
    assert Insert([], m, WHEN) == [m];
    assert [m][..0] == [];
  }

  /** A request of the old kind from the sender id `sender`, which is named or blinded. */
  ghost predicate IsOldRequest(m: Message, sender: string) {
    && Lower(Strip(m.deliveryClass)) == "request" && Strip(m.senderId) == sender
    && Strip(m.contractVersion) == "" && !StartsWith(Strip(m.senderSeal), "v3:")
    && m.timestamp.Seconds?
  }

  /** A sealed request of version 3 as it arrives. */
  ghost predicate IsSealedV3(m: Message, sender: string) {
    && Lower(Strip(m.deliveryClass)) == "request" && Strip(m.senderId) == sender
    && Strip(m.contractVersion) == "" && StartsWith(Strip(m.senderSeal), "v3:")
    && m.timestamp.Seconds?
  }

  /** The two ways of hiding a sender. */
  ghost predicate Hides(sender: string) {
    exists token :: sender == "sealed:" + token || sender == "sender_token:" + token
  }

  lemma HidesIffBlinded(sender: string)
    ensures Hides(sender) <==> IsBlinded(sender)
  {
    if "sealed:" <= sender { assert sender == "sealed:" + sender[7..]; }
    if "sender_token:" <= sender { assert sender == "sender_token:" + sender[13..]; }
  }

  lemma OldKind(m: Message, sender: string)
    requires IsOldRequest(m, sender) && sender != ""
    ensures !IsCanonical(m) && Annotate(m) == m
    ensures if Hides(sender) then IsBlindedRequest(m) else IsNamed(m)
  {
    HidesIffBlinded(sender);
  }

  lemma SealedKind(m: Message, sender: string)
    requires IsSealedV3(m, sender) && Hides(sender)
    ensures IsCanonical(Annotate(m))
  {
    HidesIffBlinded(sender);
    AnnotationMakesCanonical(m);
  }

  lemma AnnotatedPair(a: Message, b: Message)
    ensures AnnotateAll([a]) == [Annotate(a)] && AnnotateAll([b]) == [Annotate(b)]
  {
  }

  /** Of a named and a hidden sender, neither sealed with version 3, the named one is returned, whichever lane it
      came on. */
  lemma NamedOverHidden(named: Message, hidden: Message, alice: string, token: string)
    requires IsOldRequest(named, alice) && alice != "" && !Hides(alice)
    requires IsOldRequest(hidden, token) && Hides(token)
    requires Strip(named.msgId) == Strip(hidden.msgId) && Strip(named.msgId) != ""
    ensures Merge(AnnotateAll([hidden]), AnnotateAll([named])) == Merged([named])
    ensures Merge(AnnotateAll([named]), AnnotateAll([hidden])) == Merged([named])
  {
    OldKind(named, alice);
    OldKind(hidden, token);
    AuthorityByKind(named);
    AuthorityByKind(hidden);
    AnnotatedPair(named, hidden);
    PairMerges(hidden, named);
    PairMerges(named, hidden);
  }

  /** A sealed request of version 3 is returned in place of any request of the old kind. */
  lemma SealedOverOld(sealed: Message, former: Message, token: string, sender: string)
    requires IsSealedV3(sealed, token) && Hides(token) && IsOldRequest(former, sender) && sender != ""
    requires Strip(sealed.msgId) == Strip(former.msgId) && Strip(former.msgId) != ""
    ensures Merge(AnnotateAll([former]), AnnotateAll([sealed])) == Merged([Annotate(sealed)])
    ensures Merge(AnnotateAll([sealed]), AnnotateAll([former])) == Merged([Annotate(sealed)])
  {
    SealedKind(sealed, token);
    OldKind(former, sender);
    AuthorityByKind(Annotate(sealed));
    AuthorityByKind(former);
    AnnotatedPair(sealed, former);
    PairMerges(former, Annotate(sealed));
    PairMerges(Annotate(sealed), former);
  }

  /** A request that claims the reduced contract without a version 3 seal. */
  ghost predicate ClaimsContract(m: Message, sender: string) {
    && Lower(Strip(m.deliveryClass)) == "request" && Strip(m.senderId) == sender
    && Strip(m.contractVersion) == "request-v2-reduced-v3" && !StartsWith(Strip(m.senderSeal), "v3:")
    && m.timestamp.Seconds?
  }

  lemma ClaimKind(m: Message, sender: string)
    requires ClaimsContract(m, sender) && Hides(sender)
    ensures Annotate(m) == m && (IsCanonical(m) <==> m.recoveryRequired) && !IsNamed(m)
  {
    HidesIffBlinded(sender);
  }

  /** Claiming the contract is not enough: a hidden sender who claims it is returned in place of a named one exactly
      if the copy says that recovery is required. */
  lemma ClaimNeedsRecovery(claim: Message, named: Message, token: string, alice: string)
    requires ClaimsContract(claim, token) && Hides(token)
    requires IsOldRequest(named, alice) && alice != "" && !Hides(alice)
    requires Strip(claim.msgId) == Strip(named.msgId) && Strip(named.msgId) != ""
    ensures Merge(AnnotateAll([claim]), AnnotateAll([named]))
            == Merged([if claim.recoveryRequired then claim else named])
  {
    ClaimKind(claim, token);
    OldKind(named, alice);
    AuthorityByKind(claim);
    AuthorityByKind(named);
    AnnotatedPair(claim, named);
    PairMerges(claim, named);
  }
}
