/** Runs of a state machine whose steps also produce output, and what carries over from one step
    to a whole run. */
module Runs {

  /** One step: the next state and what it outputs. */
  type StepFn<!S, !A, !M> = (S, A) -> (S, seq<M>)

  function StateAfter<S, A, M>(step: StepFn<S, A, M>, s: S, actions: seq<A>, n: nat): S
    requires n <= |actions|
  {
    if n == 0 then s else step(StateAfter(step, s, actions, n - 1), actions[n - 1]).0
  }

  /** What steps `i` to `n` output. */
  function OutputOf<S, A, M>(step: StepFn<S, A, M>, s: S, actions: seq<A>, i: nat, n: nat): seq<M>
    requires i <= n <= |actions|
    decreases n
  {
    if n == i then []
    else OutputOf(step, s, actions, i, n - 1) + step(StateAfter(step, s, actions, n - 1), actions[n - 1]).1
  }

  ghost predicate Accumulates<M(!new)>(seen: seq<M> -> bool) {
    forall a, b :: seen(a) || seen(b) ==> seen(a + b)
  }

  /** From a good state every valid action leads to a good state, and whatever was pending stays
      pending or shows in the output. */
  ghost predicate Conserving<S(!new), A(!new), M>(step: StepFn<S, A, M>, good: S -> bool, valid: A -> bool,
                                                   pending: S -> bool, seen: seq<M> -> bool)
  {
    forall s, a :: good(s) && valid(a) ==>
      good(step(s, a).0) && (pending(s) ==> pending(step(s, a).0) || seen(step(s, a).1))
  }

  lemma {:induction false} RunStaysGood<S(!new), A(!new), M>(
      step: StepFn<S, A, M>, good: S -> bool, valid: A -> bool, pending: S -> bool, seen: seq<M> -> bool,
      s: S, actions: seq<A>, n: nat)
    requires Conserving(step, good, valid, pending, seen)
    requires good(s) && n <= |actions| && forall j :: 0 <= j < |actions| ==> valid(actions[j])
    ensures good(StateAfter(step, s, actions, n))
  {
    if n > 0 { RunStaysGood(step, good, valid, pending, seen, s, actions, n - 1); }
  }

  /** What is pending after `i` steps is pending after `n`, or shows in the output of the steps between. */
  lemma {:induction false} RunConserves<S(!new), A(!new), M(!new)>(
      step: StepFn<S, A, M>, good: S -> bool, valid: A -> bool, pending: S -> bool, seen: seq<M> -> bool,
      s: S, actions: seq<A>, i: nat, n: nat)
    requires Conserving(step, good, valid, pending, seen) && Accumulates(seen)
    requires good(s) && i <= n <= |actions| && forall j :: 0 <= j < |actions| ==> valid(actions[j])
    ensures pending(StateAfter(step, s, actions, i)) ==>
              pending(StateAfter(step, s, actions, n)) || seen(OutputOf(step, s, actions, i, n))
    decreases n
  {
    if i < n {
      RunConserves(step, good, valid, pending, seen, s, actions, i, n - 1);
      RunStaysGood(step, good, valid, pending, seen, s, actions, n - 1);
    }
  }

  // ---- repeating one action until it says stop ----

  /** `ask` reports the output, the next state and whether there is more. */
  type AskFn<!S, !M> = S -> (seq<M>, S, bool)

  function StateAtStop<S, M>(ask: AskFn<S, M>, s: S, n: nat): S
    decreases n
  {
    if n == 0 then s else if ask(s).2 then StateAtStop(ask, ask(s).1, n - 1) else ask(s).1
  }

  function OutputAtStop<S, M>(ask: AskFn<S, M>, s: S, n: nat): seq<M>
    decreases n
  {
    if n == 0 then [] else if ask(s).2 then ask(s).0 + OutputAtStop(ask, ask(s).1, n - 1) else ask(s).0
  }

  /** While there is more, asking makes the state smaller; when there is no more, nothing is pending. */
  ghost predicate Draining<S(!new), M>(
        ask: AskFn<S, M>, good: S -> bool, size: S -> nat, pending: S -> bool, seen: seq<M> -> bool) {
    forall s :: good(s) ==>
      && good(ask(s).1)
      && (pending(s) ==> pending(ask(s).1) || seen(ask(s).0))
      && (if ask(s).2 then size(ask(s).1) < size(s) else !pending(ask(s).1))
  }

  lemma {:induction false} AskingDrains<S(!new), M(!new)>(
        ask: AskFn<S, M>, good: S -> bool, size: S -> nat, pending: S -> bool,
        seen: seq<M> -> bool, s: S, n: nat)
    requires Draining(ask, good, size, pending, seen) && Accumulates(seen)
    requires good(s) && n > size(s)
    ensures !pending(StateAtStop(ask, s, n))
    ensures pending(s) ==> seen(OutputAtStop(ask, s, n))
    decreases n
  {
    if ask(s).2 { AskingDrains(ask, good, size, pending, seen, ask(s).1, n - 1); }
  }
}
