# ShadowBroker: verified models

Dafny 4.11 models of the parts of ShadowBroker whose correctness is not plain from reading one function,
with proofs about every input, every run or every reachable state. `dafny verify dfyconfig.toml` checks the
whole project.

| Modules | Program | Main results |
|---|---|---|
| `Wilson`, `Backtest`, `Verdict` | `backend/analytics/backtest.py` | the interval ends are exactly the roots of the score equation; the verdict in closed form; threshold search is optimal on all suites of n cases if and only if n < 10^9 |
| `Sorting`, `KeyedBest`, `ArrivalOrder`, `MessageMerge`, `DmPoll`, `DmPreference` | message merge in `backend/main.py` | the merge keeps exactly the best record of every id, stably sorted; the description fits one list only; which copy is best, from the fields alone; merging is idempotent |
| `Mailboxes`, `MailboxOrder`, `Runs`, `Polling`, `PollOrder`, `DmPollService` | destructive polling in `backend/main.py`, `mesh_dm_relay.py`, `mesh_rns.py` | no run of deliveries and polls loses a message; asking while there is more drains the queues, oldest first |
| `InfonetChain`, `InfonetSync`, `InfonetForks`, `InfonetTurns`, `InfonetNode` | hash chain and pull sync in `mesh_hashchain.py`, `backend/main.py` | safety against any peer that obeys the fork rule; a complete classification of how a sync with an honest peer ends, whatever the client refuses, with the locator in closed form; why the client is told what it is told; against any peer, exactly when the loop never ends |
| `Push`, `GatePull`, `GateSafety` | the push and gate-pull loops in `backend/main.py` | gap-free, duplicate-free delivery over every run; exactly what a receiver holds after any run, and when it catches up |
| `LineRuns`, `CableGeometry`, `CableEdges` | `scripts/sanitize_submarine_cables.py` | the two splitting loops are one pass producing the maximal runs; which edges are drawn; selection per name; idempotence |
| `NonceCache` | `backend/auth.py` | replay protection over every sequential run, and the exact verdict in terms of the history |
| `Throttle` | `_check_throttle` in `backend/main.py` | spacing, daily cap and sliding-window bound over every run |
| `Text`, `EnvFile`, `PinRefresh` | `scripts/refresh_privacy_core_pin.py` | the two line patterns agree; parse and rewrite round trip of the whole file |
| `Registry`, `ManualNames`, `ImportedRows`, `Categories`, `TrackedNames` | the two tracked-name scripts | who holds each registration, under which category, after any calls or rows |

Code that updates state is written as classes and methods with loops (`Infonet`, `Store`, `Service`, `Node`,
`Puller`, `Cache`, `Table`, `Import`), each proved to compute a function of the old state; the theorems are
about those functions and about runs of them. `KeyedBest` and `Runs` are generic: the first serves both the
message merge and the cable selection, the second carries what one step conserves over to whole runs.

## What the proofs found

These properties fail as one would first state them. The model keeps the code as it is, proves the exact
condition, and where it helps a concrete failing case.

- Threshold search: from 10^9 cases on the 1e-9 tolerances swallow a whole case (`Backtest.OptimalIffBelowBillion`).
- Threshold search: the accuracy test in it never decides, since a better accuracy is a better confidence
  (`Verdict.AccuracyTestIsDead`). A suite can reach the target in accuracy and fail it (`Verdict.AccuracyIsNotEnough`).
- Message merge: it raises when a record it keeps has an unreadable timestamp, although the comparison before
  treats such a timestamp as 0 (`DmPoll.MergeRaisesExactly`, `DmPoll.RelayCopyRaises`). The stores write every
  timestamp as a float themselves (`mesh_dm_relay.py:187`, `906`, `1588`, `1895`; `_store_private_dm` in `mesh_rns.py`),
  so the program's only call of the merge (`backend/main.py:7423`) never hands it such a record, and runs do not raise.
- Direct mailboxes: a message without id vanishes from its box exactly when the box is collected and what was gathered
  is within the limit (`Mailboxes.IgnoredIsLostIff`, `Mailboxes.IgnoredLossHappens`); the store refuses such messages,
  which is why runs lose nothing.
- Polling: anonymous requests, and requests while the direct lane is down, may be told that there is no more while
  direct messages wait (`Polling.PollProgress`); the relay boxes drain in every case.
- Legacy polling: more is reported exactly when the batch is full, even if nothing is left
  (`PollOrder.LegacyMoreIffFull`).
- Sync: a page limit above 500 ends a sync early (`InfonetSync.LargePagesStopEarly`, `InfonetForks.EarlyStopExists`),
  since the server cuts at 500 and the client takes that for a short page.
- Sync: a fork on a shared history is reported as success exactly when the page ends at or below the fork
  (`InfonetForks.UnnoticedForkIff`). With the program's page of 100 events that needs a fork at least 136 deep
  (`InfonetForks.ShallowForksAreNoticed`), and at 136 it happens (`InfonetForks.UnnoticedForkExists`).
- Sync: the loop need not end. It never ends exactly when it comes, with rounds left, to an empty chain and from then on
  gets nothing but forks (`InfonetTurns.NeverEndsIff`, `InfonetTurns.ForkerNeverLetsGo`). The fork rule excludes that.
- Sync: the comment at `backend/main.py:1789-1791` speaks of resetting when the remote chain is longer; the code
  looks at the local length only, and so does the model.
- Age: a receiver takes an event only within its freshness bound, 24 h by default
  (`backend/services/mesh/mesh_rollout_flags.py:58-66`, `mesh_hashchain.py:2540-2556`), so an honest chain may hold
  events that a newcomer refuses. A sync then keeps what lies below the first of them and fails
  (`InfonetSync.SyncFromPrefix`). A chain of fewer than 20 events with no sampled event in common is wiped first; if the
  peer's first event is too old, the client is left with nothing (`InfonetSync.ResetLosesIff`,
  `InfonetForks.WipedForNothing`), which is what the program's message about an expired genesis chain reports
  (`backend/main.py:1826-1838`).
- Push: a receiver that reset itself, or refused one event, is never brought up by push, while the cursor goes on
  (`Push.PushHealsIff`, `Push.BehindHappens`, `Push.RefusalHappens`).
- Gate pull: an event that sorts in below the cursor is never fetched, and one that is refused once, outside the 30-day
  window say, is never asked for again (`GatePull.PullCompletesIff`, `GatePull.SkippingHappens`,
  `GatePull.RefusalHappens`). When a peer serves nothing of what it announced, the cursor jumps to the announced count,
  and what appears below it later is missed (`GateSafety.EmptyPageJumps`, `GateSafety.AnnouncedAndMissed`).
- Nonces: a request accepted before a restart can be accepted again after it exactly when its timestamp is at most ten
  seconds older than the start (`NonceCache.ReplayAcrossRestartIff`, `NonceCache.RestartReplays`).
- Throttle: the numbers are those of the code (`backend/main.py:4208-4213`); its docstring gives others. The table drops
  an entry a day after creating it, so the daily reset is dead (`Throttle.ResetIsDead`), a node's own age never earns it
  a tier (`Throttle.OwnAgeNeverCounts`), and two sends may be closer than the interval, but only when the entry was
  forgotten between them (`Throttle.SendsAreSpacedAndCapped`, `Throttle.ForgettingLosesTheInterval`).
- Pin refresh: reading in text mode leaves no carriage return, so the branch that keeps `\r\n` is dead
  (`PinRefresh.Refresh`).
- Cable filter: the branch `current[-1] != a` is dead (`CableGeometry.FilterLandSegments`).
- Row import: a row without a usable name still blocks later named rows of the same registration and category
  (`ImportedRows.IndexAfter` names the rows that count).

## Model

| member | source | states |
|---|---|---|
| `Wilson.EndsAreTheRoots` | backend/analytics/backtest.py:113-124 | the unclamped ends are exactly the solutions of the score equation (p - phat)^2 = z^2 p(1-p)/total: a value solves it if and only if it is one of the two |
| `Wilson.EndsAreOrdered` | backend/analytics/backtest.py:113-124 | 0 <= lower <= phat <= upper <= 1, so the final clamps never change a bound |
| `Wilson.LowerStrictlyIncreasing` | backend/analytics/backtest.py:107-124 | for a fixed total, one more success strictly raises the lower bound |
| `Wilson.UpperStrictlyIncreasing` | backend/analytics/backtest.py:107-124 | the same for the upper bound when z >= 0 |
| `Wilson.SwapMirrors` | backend/analytics/backtest.py:107-124 | counting failures instead of successes turns (l, u) into (1 - u, 1 - l) |
| `Wilson.PerfectRecord` | backend/analytics/backtest.py:113-124 | exact ends of a perfect and of an empty record |
| `Wilson.PerfectRecordMeetsTarget` | backend/analytics/backtest.py:214-236 | a perfect suite reaches the target confidence if and only if total (1 - target) >= target z^2 |
| `Backtest.EvaluateCase` | backend/analytics/backtest.py:133-173 | the loop with two running peaks computes the case result defined from the maxima over the feed |
| `Backtest.AlertIffSomeReadingCrosses` | backend/analytics/backtest.py:140-157 | a case is flagged if and only if the prior or one single reading reaches the threshold by itself |
| `Backtest.CountsPartition` | backend/analytics/backtest.py:207-210 | the four confusion counts partition every suite, and correct cases are tp + tn |
| `Backtest.ReportCountsAgree` | backend/analytics/backtest.py:203-212 | the four counts of a report add up to the suite, and its correct cases are those flagged correct |
| `Backtest.ReportAccuracy` | backend/analytics/backtest.py:211-213 | its accuracy is the share of those cases |
| `Backtest.ReportEnds` | backend/analytics/backtest.py:211-236 | its confidence and upper bound are the ends of the interval for that number, unclamped |
| `Backtest.RaisingTheThreshold` | backend/analytics/backtest.py:144-157 | raising the threshold never raises true or false positives; sensitivity falls, specificity rises |
| `Backtest.ConfidenceFollowsCorrect` | backend/analytics/backtest.py:212-236 | more correct cases of as many means strictly more confidence and accuracy, so meeting the target is upward closed |
| `Backtest.GridEndsNearMaximum` | backend/analytics/backtest.py:263-265 | the last threshold tried is the grid point nearest to max_threshold, within half a step |
| `Backtest.PrefersExactly` | backend/analytics/backtest.py:266-285 | below 10^9 cases the 1e-9 tolerances never confuse two counts: the test prefers more correct cases, then the higher threshold |
| `Backtest.TuneAlertThreshold` | backend/analytics/backtest.py:241-287 | for a suite of any size and every non-zero step, the threshold returned is the fold of that test over the grid, with its own report; below 10^9 cases it is the largest best one |
| `Backtest.SearchIsOptimal` | backend/analytics/backtest.py:241-287 | for every suite below 10^9 cases and every positive step, the result is the largest grid threshold among those with the most correct cases |
| `Backtest.SearchCanMissTheBest` | backend/analytics/backtest.py:273-285 | from 10^9 cases on there is a suite where the search gives up the better threshold |
| `Backtest.OptimalIffBelowBillion` | backend/analytics/backtest.py:241-287 | the search is optimal on all suites of n cases if and only if n < 10^9 |
| `Verdict.MeetsTargetIff` | backend/analytics/backtest.py:211-236 | the verdict in closed form: with c of n cases right, a target t is met if and only if t < 1, c >= n t and (c - n t)^2 >= 1.96^2 n t (1 - t) |
| `Verdict.LowerReachesIff` | backend/analytics/backtest.py:113-124 | the same for the lower end of any interval with z > 0 |
| `Verdict.EmptySuiteMeetsIff` | backend/analytics/backtest.py:111-112 | an empty suite meets exactly the targets up to 0 |
| `Verdict.AllRightMeetsIff` | backend/analytics/backtest.py:211-236 | with all n cases right the target is met if and only if n (1 - t) >= 3.8416 t |
| `Verdict.AccuracyIsNotEnough` | backend/analytics/backtest.py:211-236 | a concrete suite with accuracy 0.9 that does not meet a target of 0.8 |
| `Verdict.ReportCells` | backend/analytics/backtest.py:203-212 | the four counts of a report are the numbers of positive and negative cases of the suite for which some reading crossed, or none did |
| `Verdict.CaseResultSays` | backend/analytics/backtest.py:133-173 | what the result of each case says: label, alert, agreement, and the two peaks as greatest values over the feed |
| `Verdict.AlertByReadings` | backend/analytics/backtest.py:127-157 | which values of a reading count for which kind of case, with the factor 0.95 for conflicts |
| `Verdict.ReportRatesAre` | backend/analytics/backtest.py:211-236 | accuracy, sensitivity and specificity as shares of all, the positive and the negative cases, 0 where there are none |
| `Verdict.AccuracyTestIsDead` | backend/analytics/backtest.py:270-285 | a threshold with better accuracy has better confidence too, so the accuracy test of the search never decides |
| `Verdict.HalvesGoToEven` | backend/analytics/backtest.py:263 | the number of steps is rounded half to even |
| `DmPoll.AnnotateRewrites` | backend/main.py:7734-7749 | annotation touches blinded v3 requests only, and of those exactly three fields, in the stated way |
| `DmPoll.AnnotationMakesCanonical` | backend/main.py:7724-7749 | annotation turns every sealed v3 request without a contract version into a canonical one |
| `DmPoll.ShouldReplaceIsLexicographic` | backend/main.py:7756-7819 | the cascade of early returns is lexicographic comparison by authority, recovery, source and time |
| `DmPoll.ShouldReplaceIsStrictWeakOrder` | backend/main.py:7790-7819 | the replace test is asymmetric and transitive, and its ties are transitive |
| `MessageMerge.MergeMessages` | backend/main.py:7826-7852 | the list and index dictionary updated in place compute the dictionary-free selection followed by a stable sort |
| `DmPoll.MergeDmPollMessages` | backend/main.py:7826-7852 | the same with the program's keys and ranks |
| `DmPoll.MergeKeepsTheBestOfEachId` | backend/main.py:7826-7852 | one record per non-empty trimmed id, the first maximal one in relay-then-direct order, in the place where its id first arrived; every id-less record in its own place; sorted by time, equal times in that order |
| `DmPoll.MergeIsDetermined` | backend/main.py:7826-7852 | a list meets that description if and only if it is the one returned |
| `DmPoll.MergeIdempotent` | backend/main.py:7826-7852 | merging the result again with nothing gives it back |
| `DmPoll.MergeRaisesExactly` | backend/main.py:7852 | the merge raises if and only if a record it would keep has an unreadable timestamp |
| `DmPoll.RelayCopyRaises` | backend/main.py:7806-7852 | it does so for every relay copy with an unreadable timestamp, even beside a readable direct copy of the same message |
| `DmPoll.RepresentativePreference` | backend/main.py:7756-7819 | the copy kept is canonical if any arriving copy is, and no canonical copy is further in recovery |
| `DmPreference.BestByFields` | backend/main.py:7724-7819 | from the fields alone: the copy returned is canonical if any copy is, else from a named sender if any is, else from a hidden one if any is; among canonical copies verified before pending before the rest; then relay before direct; then the later time, an unreadable one as 0; then the first |
| `DmPreference.NamedOverHidden` | backend/main.py:7756-7852 | a named sender is returned in place of a hidden one without a version 3 seal, whichever lane each came on |
| `DmPreference.SealedOverOld` | backend/main.py:7734-7852 | a request sealed with version 3 is returned in place of any old one, on either lane |
| `DmPreference.ClaimNeedsRecovery` | backend/main.py:7724-7852 | a hidden sender that claims the reduced contract without a seal is returned in place of a named one if and only if the copy requires recovery |
| `KeyedBest.SlotsFaithful` | backend/main.py:7830-7848 | the ordered-dictionary loop keeps every key once, as its winner, and every keyless record in order |
| `KeyedBest.SlotsFollowFirstOccurrence` | scripts/sanitize_submarine_cables.py:132-139 | keys stay in the order in which they were first seen, whatever replaces their value |
| `KeyedBest.StepRival` | backend/main.py:7845-7848 | overwriting the slot of a known key exactly when the newcomer wins keeps list and index in step |
| `Sorting.StableSortCorrect` | backend/main.py:7852 | the sort permutes, sorts and keeps the order of equal keys |
| `Sorting.StableSortUnique` | backend/main.py:7852 | sortedness and stability determine the result |
| `Mailboxes.Store.CollectFromKeys` | backend/services/mesh/mesh_dm_relay.py:1984-2029 | the destructive collector, popping boxes, deduplicating, sorting, cutting and putting back, computes `Collect` |
| `Mailboxes.CollectConserves` | backend/services/mesh/mesh_dm_relay.py:1984-2029 | a message that was in a box is still there, or was handed out, or one with its id was |
| `Mailboxes.IgnoredIsLostIff` | backend/services/mesh/mesh_rns.py:1306-1335 | the one exception, exactly: an ignored (id-less) message is neither kept nor represented if and only if its box is collected and what was gathered is within the limit |
| `Mailboxes.IgnoredLossHappens` | backend/services/mesh/mesh_rns.py:1316-1335 | a concrete box where it happens |
| `DmPollService.DirectLaneIgnoresById` | backend/services/mesh/mesh_rns.py:1319-1321 | the direct lane skips a message because of its id alone, so the condition applies to it |
| `Mailboxes.CollectBounded` | backend/services/mesh/mesh_dm_relay.py:1984-2029 | at most `limit` messages, all from requested boxes; more is reported if and only if a positive limit is exceeded by what was gathered, and then exactly `limit` are handed out |
| `Mailboxes.CollectProgress` | backend/services/mesh/mesh_dm_relay.py:1984-2029 | handing out anything shrinks the backlog, and reporting no more means the boxes are empty |
| `Mailboxes.CollectOnlyRemoves` | backend/services/mesh/mesh_rns.py:1306-1335 | a collection adds nothing to any box |
| `MailboxOrder.GatherIsFirsts` | backend/services/mesh/mesh_dm_relay.py:1984-2000 | what a collection gathers is, of every id, the copy that comes first in the boxes as requested, in that order |
| `MailboxOrder.CollectIsOldestFirst` | backend/services/mesh/mesh_dm_relay.py:2001-2029 | what is handed out is sorted by time, ties in the order found, and every gathered message handed out precedes every one that is not |
| `MailboxOrder.NothingOlderStays` | backend/services/mesh/mesh_dm_relay.py:2001-2029 | no requested box keeps the first copy of an id that is older than a message handed out |
| `MailboxOrder.CollectLeavesInPlace` | backend/services/mesh/mesh_dm_relay.py:2005-2029 | when there is more, a box keeps exactly its messages not handed out, in their order; other boxes are untouched |
| `Polling.Service.PollOnce` | backend/main.py:7403-7426 | budgeted collection from two lanes, merge and cut, on the stores as they are |
| `Polling.PollAnswersWhole` | backend/main.py:7403-7426 | because the direct lane gets only the rest of the budget, the slice to 8 drops nothing |
| `Polling.PollConserves` | backend/main.py:7403-7426 | a poll answers and loses nothing: each waiting message still waits or is represented in the answer |
| `Polling.NoMessageLost` | backend/main.py:7340-7426 | over any run of deliveries and polls a message waiting after i steps is waiting after n, or was answered by one of the steps between |
| `Polling.PollProgress` | backend/main.py:7403-7426 | a poll that reports more shrinks the backlog; one that does not leaves the relay boxes empty in every case, and the direct boxes too unless the request is anonymous or that lane is down, when they are as they were |
| `Polling.PollingDrains` | backend/main.py:7340-7426 | asking while there is more empties every box the request reaches, the relay boxes in every case, and answers everything in it |
| `Polling.DirectLaneWaits` | backend/main.py:7403-7426 | anonymous requests, and requests while the direct lane is down, leave that lane as it was however often they are made |
| `PollOrder.PollTakesTheOldest` | backend/main.py:7403-7426 | a poll takes the oldest of each lane: what stays behind is no older than what was taken |
| `PollOrder.PollTakesEight` | backend/main.py:7403-7426 | a poll takes at most eight messages, and reports more only when it took eight |
| `PollOrder.BoxesStayDistinct` | backend/services/mesh/mesh_rns.py:1285-1303 | over every run no box of the direct lane holds an id twice |
| `Polling.LegacyPoll` | backend/main.py:7907-7919 | the multi-token loop over the relay computes a fold over the first 32 tokens: messages, boxes and `has_more` |
| `Polling.LegacyNoMoreMeansEmpty` | backend/main.py:7907-7919 | when it reports no more, every box of every token it was given is empty |
| `PollOrder.LegacyMoreIffFull` | backend/main.py:7907-7919 | it reports more if and only if its batch of eight is full, whether or not anything is left |
| `Polling.LegacyConserves` | backend/main.py:7907-7919 | the legacy loop returns everything it removed; its cut drops nothing |
| `DmPollService.PollerIsSound` | backend/main.py:7403-7426 | annotation and merge meet all that the poll theorems assume of them |
| `DmPollService.CombineAnswers` | backend/main.py:7403-7424 | every message handed to the merge is represented in its result by a message with the same trimmed id |
| `Runs.RunConserves` | backend/main.py:7340-7426 | what is pending after i steps is pending after n, or shows in the output of the steps between |
| `Runs.AskingDrains` | backend/main.py:7340-7426 | repeating a request while it says there is more, terminates with nothing pending |
| `InfonetChain.IngestIsSafe` | backend/services/mesh/mesh_hashchain.py:2467-2752 | whatever a peer sends, a good chain stays good and only grows, only by events that pass the checks on the chain before them, and the three counts add up |
| `InfonetChain.TallyIs` | backend/services/mesh/mesh_hashchain.py:2467-2752 | for any page: the duplicates are exactly the well-formed events that are known, or flagged by the replay filter, when their turn comes; the rest is accepted or rejected |
| `InfonetChain.SequencesIncrease` | backend/services/mesh/mesh_hashchain.py:2523-2530 | along a good chain the sequence numbers of every author increase |
| `InfonetChain.SharedHistory` | backend/services/mesh/mesh_hashchain.py:2467-2752 | two linked chains that share an event share it at the same height, with everything before it |
| `InfonetChain.KnownBelowFork` | backend/services/mesh/mesh_hashchain.py:2467-2752 | an event of one chain is known to the other if and only if it lies below the fork |
| `InfonetChain.IngestAtPrefix` | backend/services/mesh/mesh_hashchain.py:2467-2752 | the tally of a page that starts inside a prefix, whatever the receiver refuses: known events are duplicates, new ones are accepted up to the first refused one (too old, say), and all from there on are rejected |
| `InfonetChain.IngestOffChain` | backend/services/mesh/mesh_hashchain.py:2467-2752 | the same page at a chain that has left the peer's changes nothing: shared events are duplicates, the rest rejected |
| `InfonetNode.Infonet.IngestEvents` | backend/services/mesh/mesh_hashchain.py:2467-2752 | the loop over head, id index and sequence tables keeps them in agreement and computes `Ingest` |
| `InfonetNode.Infonet.GetLocator` | backend/services/mesh/mesh_hashchain.py:3357-3375 | the loop with doubling steps computes the locator defined by its sampled heights |
| `InfonetNode.Infonet.GetEventsAfterLocator` | backend/services/mesh/mesh_hashchain.py:3377-3392 | the scan of the locator finds the first known entry and the page after it |
| `InfonetNode.Infonet.ResetChain` | backend/services/mesh/mesh_hashchain.py:1796-1816 | a reset leaves a valid empty node |
| `InfonetNode.Infonet.ServeSync` | backend/main.py:5551-5562 | page limit clamped to 1..500, and the fork rule |
| `InfonetNode.Infonet.SyncFromPeer` | backend/main.py:1758-1842 | the round loop with its reset branch, on the node in place, computes `Sync` |
| `InfonetSync.SamplesAreDense` | backend/services/mesh/mesh_hashchain.py:3357-3375 | the last ten heights are all in the locator |
| `InfonetSync.SamplesFall` | backend/services/mesh/mesh_hashchain.py:3357-3375 | sampled heights start at the head and strictly fall |
| `InfonetSync.SyncIsSafe` | backend/main.py:1776-1842 | against any peer that obeys the fork rule, honest or not: the chain stays good and gets only events that passed the checks, extends the old one unless reset, is never reset from 20 events on; requests are bounded by rounds plus resets |
| `InfonetSync.SyncTellsWhy` | backend/main.py:1776-1842 | against the same peers: ok if and only if the rounds were used up or the last reply was an unforked list with nothing rejected that was empty, all known or short; a rate limit is passed on with its wait, and nothing else has one; forks, failures and malformed replies are reported as such |
| `InfonetSync.HonestPeersObeyForkRule` | backend/main.py:5557-5562 | a peer that runs `infonet_sync_post` never answers a one-entry locator with a fork |
| `InfonetSync.ServeMeets` | backend/main.py:5557-5562 | where the server's page starts, or that it reports a fork, as a function of both chains |
| `InfonetSync.UnknownLocatorIsFork` | backend/services/mesh/mesh_hashchain.py:3377-3392 | a locator that names nothing the server holds, nor the genesis, is answered with a fork and no events |
| `InfonetSync.RoundFromPrefix` | backend/main.py:1776-1842 | from a prefix, one round appends the next page up to the first event the client refuses |
| `InfonetSync.SyncFromPrefix` | backend/main.py:1776-1842 | from a prefix, without a reset: the client ends with the peer's events up to where it would have read or the first it refuses, whichever is lower; ok if and only if it read nothing it refuses, and then it has all of the chain on an empty or (up to 500) short page and a full page per round otherwise |
| `InfonetSync.SyncOfStillPeer` | backend/main.py:1776-1842 | against a chain that stands still, in closed form: ok if and only if every event the rounds have room for is taken |
| `InfonetSync.SyncClassified` | backend/main.py:1776-1842 | from any good chain, against an honest append-only peer: at most one reset and max_rounds + 1 requests; below 20 events with no sampled event shared it starts over from nothing and ends as a sync from there does; from 20 on it reports the fork and leaves the chain alone; with a shared history the exact condition for ok |
| `InfonetSync.ResetLosesIff` | backend/main.py:1788-1838 | such a small chain is wiped in every case, and nothing takes its place if and only if the peer has no first event or the client refuses it; then the sync fails, in the branch the program calls stale_genesis if age is the reason |
| `InfonetSync.LargePagesStopEarly` | backend/main.py:1837-1842 | with a page limit above 500 a sync from a prefix takes one page of 500 up to the first refused event, is ok if and only if the page holds none, and is then complete if and only if at most 500 events were missing |
| `InfonetSync.OffChainRound` | backend/main.py:1809-1840 | a round from a chain that forked off above the meeting point changes nothing; ok if and only if the whole page is shared |
| `InfonetForks.LocatorClosed` | backend/services/mesh/mesh_hashchain.py:3357-3375 | the sampled heights in closed form: ten in a row, then gaps of 2, 4, 8, until 31 or the start of the chain |
| `InfonetForks.MeetClosed` | backend/services/mesh/mesh_hashchain.py:3357-3392 | where the server's page starts, in closed form: behind the first sample below the fork, or a fork is reported |
| `InfonetForks.ShallowForkMeetsAtFork` | backend/services/mesh/mesh_hashchain.py:3357-3392 | a fork at most nine deep on a shared history is met exactly at the fork |
| `InfonetForks.UnnoticedForkIff` | backend/main.py:1805-1840 | a forked client keeps its branch and is told that all is well if and only if the whole page lies below the fork; for every page limit |
| `InfonetForks.ShallowForksAreNoticed` | backend/main.py:1805-1840 | with the program's page of 100, no fork less than 136 deep goes unnoticed |
| `InfonetForks.DeepForkGoesUnnoticed` | backend/main.py:1805-1840 | with that page, a fork 136 deep on 128 or more shared events is reported as success and never repaired |
| `InfonetForks.UnnoticedForkExists` | backend/main.py:1805-1840 | a sync with two concrete honest chains that ends so |
| `InfonetForks.EarlyStopExists` | backend/main.py:1837-1842 | a sync from scratch with page limit 501 against 501 concrete events reports success without all of them |
| `InfonetForks.TenDeepForkMeetsEarly` | backend/services/mesh/mesh_hashchain.py:3357-3392 | a fork ten deep is met one event below the fork |
| `InfonetForks.WipedForNothing` | backend/main.py:1788-1838 | a concrete sync: one local event, a peer with two others the first of which is refused, and the client is left with nothing |
| `InfonetTurns.SyncTakesTurns` | backend/main.py:1776-1842 | one turn of the loop, against any peer, is one step of `Sync` where `Sync` is defined |
| `InfonetTurns.TurnsReachSync` | backend/main.py:1776-1842 | under the fork rule the loop ends within two turns per round and one more, with the outcome of `Sync` |
| `InfonetTurns.NeverEndsIff` | backend/main.py:1776-1842 | against any peer whatever, the loop never ends if and only if it comes, with rounds left, to an empty chain at a request from which on every request from genesis is answered with a fork |
| `InfonetTurns.ForkerNeverLetsGo` | backend/main.py:1788-1804 | a peer that calls everything a fork keeps the loop going for ever if and only if the chain has fewer than 20 events and there is a round to use |
| `Push.Node.PushCycle` | backend/main.py:2184-2233 | one pass over the peers, with the chain growing meanwhile, adds its steps to the history; afterwards what each peer ever acknowledged is the chain up to its cursor |
| `Push.StreamIsChainPrefix` | backend/main.py:2191-2233 | whatever the peers answer, the batches a peer acknowledged since the last restart, joined, are the chain up to its cursor |
| `Push.SenderIsIndependent` | backend/main.py:2184-2233 | the sender's state does not depend on what receivers make of the batches |
| `Push.StreamInNet` | backend/main.py:2191-2233 | so the same holds in every run of the network |
| `Push.BatchContinues` | backend/main.py:2191-2197 | a batch continues exactly at the cursor and has at most 50 events |
| `Push.CursorsOnlyAdvance` | backend/main.py:2232-2233 | only an acknowledged request to that peer moves a cursor, and only forward; other peers are untouched |
| `Push.CursorsAreMonotone` | backend/main.py:2191-2233 | cursors are monotone over every run without a restart |
| `Push.PushIsSafe` | backend/main.py:2184-2233 | over every run (growth, refusals, lost replies, restarts, events a receiver does not take at the time, receivers that sync by themselves) a receiver that starts on a prefix stays on one and never gets shorter |
| `Push.BatchIsTaken` | backend/main.py:5797-5807 | what a receiver of a prefix makes of a batch: from below the cursor it rejects everything, otherwise it takes what is new up to the first event it refuses |
| `Push.NothingRejectedIff` | backend/main.py:5797-5807 | a batch passes without a rejection if and only if it is empty, or starts within what the receiver holds and ends before anything it refuses |
| `Push.CoveredStepIff` | backend/main.py:2184-2233 | step by step, exactly when a receiver still holds all its cursor counts as delivered: an acknowledged batch with a refused event loses it, a restart or an own sync regains it |
| `Push.CoveredThroughoutIff` | backend/main.py:2184-2233 | it does so all along a run if and only if every batch it acknowledged was fully taken |
| `Push.CursorAdvances` | backend/main.py:2191-2233 | n acknowledged requests move the cursor by min(50 n, what is left) |
| `Push.PushDelivers` | backend/main.py:5797-5807 | the receiver follows the cursor along the sender's chain up to the first event it refuses, and stays there; from below the cursor it stays where it is |
| `Push.BehindTakesNothing` | backend/main.py:2191-2233 | a receiver that fell behind its cursor rejects every batch whole, and stays behind |
| `Push.PushHealsIff` | backend/main.py:2191-2233 | pushing brings a receiver to the sender's chain if and only if the cursor is not above what it holds and it takes every event from there on |
| `Push.BehindHappens` | backend/main.py:2191-2233 | a concrete receiver that is never brought back |
| `Push.RefusalHappens` | backend/main.py:2191-2233 | a concrete receiver that refuses the first event as too old and stays empty for ever, while the cursor counts everything as delivered |
| `GatePull.Puller.IngestPeerEvents` | backend/services/mesh/mesh_hashchain.py:1244-1329 | screening (ids given or worked out, both duplicate tests), staging, writing and sorting computes `Ingest`; a failed write raises and changes nothing; the three counts add up to the page |
| `GatePull.Puller.PullGate` | backend/main.py:2342-2395 | the pull of one gate with its two-fold cursor computes `Pull` |
| `GatePull.IngestAdds` | backend/services/mesh/mesh_hashchain.py:1244-1329 | taking a page of the peer's list adds exactly the events that are new and pass, in order, and the duplicate indexes stay right |
| `GatePull.PullsAdd` | backend/main.py:2342-2395 | after n pulls from a peer that stands still: the cursor, and exactly which of the peer's events are held |
| `GatePull.PullCompletesIff` | backend/main.py:2342-2395 | pulling to the end completes the gate if and only if everything below the first cursor was there already and everything from it on was there or is taken |
| `GatePull.LostForGood` | backend/main.py:2342-2395 | an event the peer sorts in below the cursor is never fetched, and one that was refused is never asked for again |
| `GatePull.SkippingHappens` | backend/main.py:2344-2350 | two concrete events where it happens |
| `GatePull.RefusalHappens` | backend/main.py:2342-2395 | two concrete events, the first outside the time window: an empty gate never gets it though the cursor passes it |
| `GatePull.RunHoldsIff` | backend/main.py:2342-2395 | over every run of appends, failed and successful pulls, with the time window moving: the gate holds exactly what it held at the start and what some pull asked for at a time when it was taken |
| `GatePull.AskedForOnce` | backend/main.py:2342-2395 | no event is asked for twice |
| `GatePull.PrefixedIff` | backend/main.py:2342-2395 | with newcomers ranking last, the local list is a prefix of the peer's ending at the cursor if and only if every page asked for was taken whole |
| `GatePull.PullConverges` | backend/main.py:2342-2395 | each successful pull moves the cursor by min(50, remaining) and appends exactly the new events on the way that are taken, in the peer's order |
| `GateSafety.IngestIsSound` | backend/services/mesh/mesh_hashchain.py:1244-1329 | whatever a peer sends, a gate loses nothing, gets only clean copies of events that passed every check, holds no id twice and stays in order |
| `GateSafety.EntersIff` | backend/services/mesh/mesh_hashchain.py:1244-1329 | exactly when a single event enters: genuine, with a proper id or none, and new by fingerprint, given id and worked-out id |
| `GateSafety.EmptyPageJumps` | backend/main.py:2383-2386 | an empty page moves the cursor to the announced count |
| `GateSafety.AnnouncedAndMissed` | backend/main.py:2342-2395 | two events announced and not served at first are never fetched |
| `CableGeometry.SplitAtJumps` | scripts/sanitize_submarine_cables.py:52-63 | splitting into segments and dropping the short ones computes the runs without a jump |
| `CableGeometry.FilterLandSegments` | scripts/sanitize_submarine_cables.py:73-92 | the second loop, written differently, computes the runs at sea; its restart branch is never taken |
| `CableGeometry.PipelineIsOnePass` | scripts/sanitize_submarine_cables.py:118-122 | the two stages are one pass that cuts at every edge failing either test |
| `LineRuns.Fusion` | scripts/sanitize_submarine_cables.py:118-122 | cutting at one kind of bad edge and the pieces at another is cutting once at both |
| `LineRuns.RunsAreMaximal` | scripts/sanitize_submarine_cables.py:52-92 | the runs are exactly the maximal stretches of good edges with at least two points, from left to right |
| `LineRuns.RunsKeepGoodEdges` | scripts/sanitize_submarine_cables.py:52-92 | the edges of the runs, in order, are exactly the good edges of the line |
| `CableGeometry.CleanGeometryIsSound` | scripts/sanitize_submarine_cables.py:117-123 | a cleaned geometry has only parts of two points or more (section 3.1.4 of RFC 7946) with good edges, keeps every good edge once and in order, and is left alone by a second cleaning |
| `CableEdges.NoJumpIff` | scripts/sanitize_submarine_cables.py:27-29 | for longitudes within 180 degrees an edge is no jump if and only if it spans at most 90 degrees directly or across the antimeridian, either way |
| `CableEdges.DrawnIff` | scripts/sanitize_submarine_cables.py:27-80 | an edge is drawn if and only if it is no jump and at most twelve hundredths of it lie on land |
| `CableEdges.OneEdgeSanitized` | scripts/sanitize_submarine_cables.py:107-139 | a wanted cable of one edge is left in place if the edge is drawn and dropped otherwise |
| `CableEdges.CrossingStays` | scripts/sanitize_submarine_cables.py:27-63 | a cable over the antimeridian at sea is kept whole |
| `CableEdges.LongEdgeIsCut` | scripts/sanitize_submarine_cables.py:27-63 | an edge of 100 degrees is cut |
| `CableEdges.SurvivesIff` | scripts/sanitize_submarine_cables.py:107-124 | a feature survives if and only if its name is neither empty nor synthetic and some edge of it is drawn |
| `CableEdges.ResultsAreWanted` | scripts/sanitize_submarine_cables.py:107-139 | no result has an unwanted name, and every part of every result has only drawn edges |
| `CableEdges.PointsAreCounted` | scripts/sanitize_submarine_cables.py:134-137 | features of one name are compared by the number of points of all their parts together |
| `CableGeometry.GeometryRoundTrip` | scripts/sanitize_submarine_cables.py:42-49 | `iter_parts` inverts `parts_to_geometry` (83-88), and no parts means no geometry |
| `CableGeometry.Sanitize` | scripts/sanitize_submarine_cables.py:110-139 | the loop over features with its name dictionary computes `Sanitized` |
| `CableGeometry.SanitizeSelectsTheBest` | scripts/sanitize_submarine_cables.py:130-138 | every feature kept is the earliest survivor of its name with the most points |
| `CableGeometry.SanitizeCoversEveryName` | scripts/sanitize_submarine_cables.py:110-139 | one feature for every surviving name and no others |
| `CableGeometry.SanitizeKeepsOrder` | scripts/sanitize_submarine_cables.py:110-139 | the features come in the order in which their names first survive |
| `CableGeometry.SanitizeIsIdempotent` | scripts/sanitize_submarine_cables.py:110-139 | sanitising twice is sanitising once |
| `NonceCache.Cache.Prune` | backend/auth.py:383-393 | expiry followed by eviction of the oldest, in place |
| `NonceCache.Cache.Verify` | backend/auth.py:396-465 | the checks in their order, the pruned cache and the recording |
| `NonceCache.PrunedIsSuffix` | backend/auth.py:383-393 | pruning drops a prefix: the expired, and those with 16384 entries after them; it keeps nothing expired and at most 16384 |
| `NonceCache.CacheIsBounded` | backend/auth.py:365-465 | in every sequential run the cache holds at most 16385 entries |
| `NonceCache.ReplayNeedsACrowd` | backend/auth.py:425-465 | the same timestamp and nonce are accepted twice only if 16384 other acceptances were recorded within 300 s of the first |
| `NonceCache.NoReplay` | backend/auth.py:425-465 | without such a crowd no timestamp and nonce are accepted twice |
| `NonceCache.VerdictIsExact` | backend/auth.py:396-465 | in every sequential run a presentable, signed request is accepted if and only if every earlier use of its nonce is forgotten: older than 300 s, or followed by 16384 acceptances within 300 s of it |
| `NonceCache.VerdictWithoutACrowd` | backend/auth.py:396-465 | without such a crowd: if and only if its nonce was not recorded in the last 300 s |
| `NonceCache.EvictsTheOldest` | backend/auth.py:389-393 | whatever pruning drops is no newer than anything it keeps |
| `NonceCache.ReplayAcrossRestartIff` | backend/auth.py:369-436 | a request accepted before a restart is accepted again at some moment after it if and only if its timestamp is at most ten seconds older than the start |
| `NonceCache.RestartReplays` | backend/auth.py:369-465 | a concrete request accepted, refused a moment later, and accepted again after a restart |
| `NonceCache.RefusedWhateverIff` | backend/auth.py:412-465 | whatever the cache holds, a request is refused if and only if there is no secret, a field is missing, the nonce is shorter than 16, the stamp is no integer or off by more than 60 s (10 s in the first two minutes), or the signature is wrong |
| `Throttle.Table.Check` | backend/main.py:4157-4234 | the per-node state is looked up, created anew after a day, and updated as the step function says; emergencies leave no trace; other nodes are untouched |
| `Throttle.SendsAreSpacedAndCapped` | backend/main.py:4178-4234 | over any run, however the tier changes: each send counts within its cap, at most 200, and under one entry consecutive sends keep the later one's interval, at least 30 s |
| `Throttle.ResetIsDead` | backend/main.py:4157-4193 | an entry is gone before its day is over, so the daily reset is never reached |
| `Throttle.OwnAgeNeverCounts` | backend/main.py:4195-4213 | and no entry gets as old as 48 h: only the ledger's score and age decide the tier |
| `Throttle.StandingPays` | backend/main.py:4208-4213 | better standing never means a longer interval or a smaller cap |
| `Throttle.StandingDecides` | backend/main.py:4195-4234 | in every run the verdict follows from the ledger, the transport and the sends under the entry in use: 200, 75 or 15 a day, 30, 120 or 300 s apart, and 30 s for everybody on the public mesh |
| `Throttle.AtMost400InADay` | backend/main.py:4157-4234 | across entries forgotten by age, any window of 86400 s holds at most 400 sends |
| `Throttle.VerdictIsExact` | backend/main.py:4200-4234 | a request is admitted if and only if the sends under the entry in use are below the cap and the interval since the last of them has passed |
| `Throttle.ForgettingLosesTheInterval` | backend/main.py:4157-4198 | a run of three admitted requests, the last two one second apart across a forgotten entry |
| `EnvFile.ParseLines` | scripts/refresh_privacy_core_pin.py:30-38 | reading lines into a dictionary; the last assignment of a key wins |
| `EnvFile.LastAssignmentWins` | scripts/refresh_privacy_core_pin.py:30-38 | a key has a value if and only if some line assigns it, and the value of the last such line |
| `EnvFile.ReplaceOrAppend` | scripts/refresh_privacy_core_pin.py:49-63 | the loop with its flag computes the refreshed lines and whether a pin was there |
| `PinRefresh.ParseComplete` | scripts/refresh_privacy_core_pin.py:32-37 | a line that fits the pattern is read as its key and cleaned value, so it fits in one way only |
| `PinRefresh.ParseSound` | scripts/refresh_privacy_core_pin.py:32-37 | a line that is read as something fits the pattern with that key and value |
| `PinRefresh.PatternsAgree` | scripts/refresh_privacy_core_pin.py:33-54 | the pattern that finds the pin and the pattern that reads keys agree on every line |
| `PinRefresh.CleanUnquotes` | scripts/refresh_privacy_core_pin.py:37 | one pair of quotes of either kind comes off a value |
| `PinRefresh.CleanUnquotesTwice` | scripts/refresh_privacy_core_pin.py:37 | of two pairs both come off if the double ones are outside, only the single ones if those are |
| `EnvFile.RefreshedValues` | scripts/refresh_privacy_core_pin.py:49-63 | the rewritten lines read like the old ones, except that the pin is the digest |
| `EnvFile.RefreshedOthers` | scripts/refresh_privacy_core_pin.py:49-63 | every other line keeps its content and order; at most one blank line is added, at the end |
| `EnvFile.RefreshIsIdempotent` | scripts/refresh_privacy_core_pin.py:49-63 | a second rewrite is the identity |
| `EnvFile.SplitJoined` | scripts/refresh_privacy_core_pin.py:79-93 | joining break-free lines and splitting the text gives the lines back |
| `PinRefresh.WriteThenRead` | scripts/refresh_privacy_core_pin.py:78-93 | text mode reads back what it wrote, whatever the platform's line ending |
| `PinRefresh.Refresh` | scripts/refresh_privacy_core_pin.py:66-96 | the decision of `main`; the branch for carriage returns is never taken |
| `PinRefresh.DecisionIff` | scripts/refresh_privacy_core_pin.py:41-84 | nothing is done for want of a lane if and only if no line has a pin and neither lane says yes; the file is current if and only if the pin's last value matches the digest |
| `PinRefresh.WrittenIsReadBack` | scripts/refresh_privacy_core_pin.py:78-93 | the updated text has no carriage return and is read back as it was written |
| `PinRefresh.RefreshSettles` | scripts/refresh_privacy_core_pin.py:66-96 | after an update the file on disk reads as before with the pin set, a second run on it finds it current, and the other lines are in place |
| `Registry.StealReg` | scripts/finalize_plane_alert_import.py:62-74 | the loop over a snapshot, deleting and rewriting in place, computes `Stolen` in whatever order it visits the names |
| `Registry.StolenHolds` | scripts/finalize_plane_alert_import.py:62-74 | stealing takes the registration from every unprotected name and nothing else from anybody, deletions included |
| `ManualNames.Table.EnsureEntry` | scripts/finalize_plane_alert_import.py:76-95 | one call on the table and the list of names |
| `ManualNames.Table.AddAll` | scripts/finalize_plane_alert_import.py:166-174 | the manual loop on table and list of names, its count, and when it raises |
| `ManualNames.NamesListed` | scripts/finalize_plane_alert_import.py:93-95 | the list of names only grows at its end, and holds exactly what it held and what was called |
| `ManualNames.EnsuredHolds` | scripts/finalize_plane_alert_import.py:76-95 | one call moves one registration and leaves the holders of every other one alone |
| `ManualNames.HoldersAfter` | scripts/finalize_plane_alert_import.py:166-170 | after any calls: exactly who holds each registration, from the calls and the starting table |
| `ManualNames.ProtectedAfter` | scripts/finalize_plane_alert_import.py:166-174 | a protected name keeps all its registrations in place; it is there at the end if and only if it was at the start or was called |
| `ManualNames.LostIff` | scripts/finalize_plane_alert_import.py:172-174 | the error is raised if and only if a baseline name was missing at the start and is not added by hand |
| `Categories.StolenNames` | scripts/finalize_plane_alert_import.py:62-74 | stealing drops an unprotected name if and only if it had registrations and all were the stolen one; no category changes |
| `Categories.CategoryAfter` | scripts/finalize_plane_alert_import.py:86-92 | a name has the category of the last call that gave it something, or its old one |
| `ImportedRows.Import.constructor` | scripts/apply_plane_alert_to_tracked_names.py:153-165 | the index built from the table holds exactly its normalised registrations |
| `ImportedRows.Import.Run` | scripts/apply_plane_alert_to_tracked_names.py:173-206 | the row loop over table, index, counters and seen set computes `After` |
| `ImportedRows.IndexStaysExact` | scripts/apply_plane_alert_to_tracked_names.py:155-206 | the index stays exactly the registrations of the table, and the two counters together count its growth |
| `ImportedRows.CountersCount` | scripts/apply_plane_alert_to_tracked_names.py:196-206 | `added_regs` counts the new names in the table, `added_entries` the new ones in the list, which is only given names it does not hold |
| `ImportedRows.IndexAfter` | scripts/apply_plane_alert_to_tracked_names.py:173-206 | a registration is in the index at the end if and only if it was at the start or some row offers it, told from the rows alone |
| `ImportedRows.HoldersAfter` | scripts/apply_plane_alert_to_tracked_names.py:173-206 | a tracked registration keeps exactly its holders; a new one is held by the first row's name that offers it and nobody else |
| `ImportedRows.EntriesOnlyGrow` | scripts/apply_plane_alert_to_tracked_names.py:186-206 | no name is dropped and no entry loses or reorders a registration |
| `Categories.NextCategories` | scripts/apply_plane_alert_to_tracked_names.py:186-206 | a row changes no category; a name it adds gets the row's category in the table and in the list |
| `Categories.CategoriesKept` | scripts/apply_plane_alert_to_tracked_names.py:173-206 | after any rows old names have their old category and new ones that of a row that shows them |
| `TrackedNames.NormIsStable` | scripts/apply_plane_alert_to_tracked_names.py:62-63 | normalising a registration twice is normalising it once |
| `TrackedNames.ImportKeepsOwners` | scripts/apply_plane_alert_to_tracked_names.py:173-206 | the ownership theorem on the program's own strings |
| `TrackedNames.ManualOwners` | scripts/finalize_plane_alert_import.py:166-170 | the same for the names added by hand |

## Left out

What the models assume:

- HTTP, threads, files, clocks and Tor are inputs: replies, outcomes and clock readings are parameters of the steps.
- Cryptography is a Boolean input: signatures, HMAC checks and hashes appear as predicates. Equal ids mean equal events
  (`SameHashSameEvent`), and no digest is the all-zero hash.
- `math.sqrt` is any function whose value is non-negative and squares to its argument; numbers are `real`, so
  rounding and NaN are not modelled. `round` is half-to-even.
- The risk engine, the land polygon and the display-name rules are arbitrary functions or inputs.
- String case mapping is ASCII; other characters are left as they are.
- Where an honest peer's chain is used, its events are well formed and the replay filter raises no false alarm on them
  (`Admissible`); in general it may raise any. Whether the receiver takes them now is left open.
- The events of a peer's gate list have an id that working it out again confirms, and no id or fingerprint occurs twice;
  the puller's indexes know at the start exactly those it holds. Whether it takes them is left open.

What is not modelled:

- Caching and spilling of the event list, Merkle proofs and type counters. Every check of an event that is not spelled
  out is part of the abstract predicate `content` of the chain so far and the event.
- Hydration of gate and relay stores after a sync, and the wording of sync errors, the hint at an expired genesis chain
  included.
- Time passing during a sync: what a client refuses is fixed for one sync. In the push and gate-pull runs it may differ
  from request to request.
- The response filter of `infonet_sync_post`: the model is the private transport, where it drops nothing; its refusals
  of malformed requests (426, 409) appear as failed replies.
- Pruning of mailboxes by age and the relay's per-box quotas; claims, exposure views and diagnostics of a poll.
- Chain resets of the sender in the push model: the sender's chain is append-only there. Receivers may start anywhere.
- Other gates than the one pulled, and pruning of the replay index by age. Places in the sort order of a gate list are
  real numbers standing for (timestamp, sequence, id).
- Interleaving of two verifications: `_verify_openclaw_hmac` awaits the body between the nonce check and the recording,
  and the model takes one verification at a time, with less than 70 s between its first clock reading and the prune.
- The throttle table's own timer: it is taken to agree with the clock the function reads. Eviction from a full table is
  a step of the runs.
- Finding the library and its digest in the pin script, and the byte-order mark.
- An entry without a `registrations` list, on which `ensure_entry` would raise, and the order of names in the JSON file.
- The block for the UK Royal Family after the row loop, `sync_plane_alert_db`, and the category and display-name rules.
- Points with an altitude, and features' members other than name, properties and geometry.
- Route tiers, status and redaction views, profiles and all UI: long, but settled by reading cases.

Statements that are weaker than one might expect:

- Throttle.AtMost400InADay: bounds admitted sends that are not emergencies, because emergencies are never counted, in runs
  without early eviction, because a full table may forget an entry at any time.
- NonceCache.NoReplay: holds within one process, because the cache is lost on a restart.
- InfonetNode.Infonet.IngestEvents: `content` is one predicate for the whole page, so neither time passing meanwhile (the
  grace period of a revoked key, freshness) nor a key binding left by an event that was then rejected is modelled.
- TrackedNames.NormIsStable: case mapping is ASCII, because the full Unicode tables are not part of this model.
- InfonetSync.SyncIsSafe: bounds resets by the rounds left rather than by one, because a dishonest peer can cause a reset in every round.
