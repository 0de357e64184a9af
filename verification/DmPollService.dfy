/** The poll of backend/main.py as an instance of Polling. */
module DmPollService {
  import opened Text
  import opened KeyedBest
  import opened MessageMerge
  import opened DmPoll
  import M = Mailboxes
  import P = Polling

  /** Annotate both lanes, then merge; `None` is the `ValueError` of the final sort. */
  function Combine(relay: seq<Message>, direct: seq<Message>): P.Option<seq<Message>> {
    match Merge(AnnotateAll(relay), AnnotateAll(direct))
    case ValueError => P.None
    case Merged(messages) => P.Some(messages)
  }

  /** The stores compare raw ids; the merge compares trimmed ones. */
  const DM: P.Poller<Message, string> :=
    P.Poller((m: Message) => m.msgId, (m: Message) => Strip(m.msgId), WHEN, (m: Message) => m.timestamp.Seconds?,
             (m: Message) => m.msgId == "", Combine)

  lemma CombineReadable(relay: seq<Message>, direct: seq<Message>)
    requires P.AllReadable(DM, relay) && P.AllReadable(DM, direct)
    ensures Merge(AnnotateAll(relay), AnnotateAll(direct)).Merged?
  {
    var ra, da := AnnotateAll(relay), AnnotateAll(direct);
    MergeRaisesExactly(ra, da);
    var all := Arrivals(ra, da);
    forall i | 0 <= i < |all| ensures all[i].message.timestamp.Seconds? {
      if i < |relay| { assert DM.readable(relay[i]); } else { assert DM.readable(direct[i - |relay|]); }
    }
  }

  lemma CombineAnswers(relay: seq<Message>, direct: seq<Message>, out: seq<Message>, m: Message)
    requires Merge(AnnotateAll(relay), AnnotateAll(direct)) == Merged(out)
    requires m in relay || m in direct
    ensures exists i :: 0 <= i < |out| && MESSAGE_ID.key(out[i]) == MESSAGE_ID.key(Annotate(m))
  {
    var ra, da, a := AnnotateAll(relay), AnnotateAll(direct), Annotate(m);
    if m in relay { var i :| 0 <= i < |relay| && relay[i] == m; assert ra[i] == a; }
    else { var i :| 0 <= i < |direct| && direct[i] == m; assert da[i] == a; }
    ShouldReplaceIsStrictWeakOrder();
    RulesAgree();
    EveryArrivalAccounted(ra, da, POLL, MESSAGE_ID, a);
    if MESSAGE_ID.key(a) != MESSAGE_ID.none {
      var i := SeenWhere(out, MESSAGE_ID, MESSAGE_ID.key(a), |out|);
    }
  }

  lemma CombineIsGood(relay: seq<Message>, direct: seq<Message>)
    requires P.AllReadable(DM, relay) && P.AllReadable(DM, direct)
    ensures P.GoodCombination(DM, relay, direct)
  {
    CombineReadable(relay, direct);
    var out := Merge(AnnotateAll(relay), AnnotateAll(direct)).messages;
    MergeNoLonger(AnnotateAll(relay), AnnotateAll(direct), POLL);
    forall m | m in relay || m in direct ensures P.Answered(DM, out, m) {
      CombineAnswers(relay, direct, out, m);
      var i :| 0 <= i < |out| && MESSAGE_ID.key(out[i]) == MESSAGE_ID.key(Annotate(m));
      assert DM.tag(out[i]) == DM.tag(m);
    }
  }

  /** The poll of the program meets everything Polling asks of its merge, so its theorems hold of
      it: no run of deliveries and polls loses a message, and polling drains the queues. */
  lemma PollerIsSound()
    ensures P.Sound(DM)
  {
    forall relay, direct | P.AllReadable(DM, relay) && P.AllReadable(DM, direct)
      ensures P.GoodCombination(DM, relay, direct) {
      CombineIsGood(relay, direct);
    }
  }

  /** Whether the direct lane skips a message depends on its id alone, so the exact loss condition of the
      collectors applies to it. */
  lemma DirectLaneIgnoresById()
    ensures M.IgnoredById(DM.DirectKind())
    ensures forall m: Message :: DM.DirectKind().ignored(m) <==> m.msgId == ""
  {
  }
}
