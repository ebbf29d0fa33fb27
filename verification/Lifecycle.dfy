/** The lifecycle state machine (src/lifecycle_state_machine.cpp). */
module Lifecycle {

  datatype State = Bootstrapping | Initializing | Running | Stopping | Stopped | Faulted

  /** src/lifecycle_state_machine.cpp:7-28 */
  predicate IsLegalTransition(current: State, next: State) {
    match current
    case Bootstrapping => next == Initializing || next == Faulted
    case Initializing => next == Running || next == Stopping || next == Faulted
    case Running => next == Stopping || next == Faulted
    case Stopping => next == Stopped || next == Faulted
    case Stopped => next == Bootstrapping
    case Faulted => next == Stopping || next == Stopped || next == Bootstrapping
  }

  /** The same table read backwards: from where each state may be entered. */
  lemma PredecessorsOf(current: State)
    ensures IsLegalTransition(current, Bootstrapping) <==> current == Stopped || current == Faulted
    ensures IsLegalTransition(current, Initializing) <==> current == Bootstrapping
    ensures IsLegalTransition(current, Running) <==> current == Initializing
    ensures IsLegalTransition(current, Stopping) <==> current in {Initializing, Running, Faulted}
    ensures IsLegalTransition(current, Stopped) <==> current == Stopping || current == Faulted
    ensures IsLegalTransition(current, Faulted) <==> current != Stopped && current != Faulted
  {
  }

  /** A history starts stopped and takes legal transitions only. */
  ghost predicate LegalHistory(h: seq<State>) {
    && |h| > 0 && h[0] == Stopped
    && forall i, j :: 0 <= i < |h| && 0 <= j < |h| && j == i + 1 ==> IsLegalTransition(h[i], h[j])
  }

  /** Running is entered from Initializing only, which is entered from Bootstrapping only. */
  lemma RunningNeedsBootstrap(h: seq<State>, i: nat)
    requires LegalHistory(h) && i < |h| && h[i] == Running
    ensures i >= 3 && h[i - 1] == Initializing && h[i - 2] == Bootstrapping && h[i - 3] in {Stopped, Faulted}
  {
    assert i > 0 && IsLegalTransition(h[i - 1], h[i]);
    assert i - 1 > 0 && IsLegalTransition(h[i - 2], h[i - 1]);
    assert i - 2 > 0 && IsLegalTransition(h[i - 3], h[i - 2]);
  }

  /** The table alone lets a host run twice without ever being stopped in between. */
  lemma TableAllowsRerunWithoutStop()
    ensures var h := [Stopped, Bootstrapping, Initializing, Running, Faulted, Bootstrapping, Initializing, Running];
            LegalHistory(h)
  {
  }

  class LifecycleStateMachine {
    var state: State
    var history: seq<State>

    ghost predicate Valid()
      reads this
    {
      LegalHistory(history) && history[|history| - 1] == state
    }

    constructor ()
      ensures Valid() && state == Stopped && history == [Stopped]
    {
      state, history := Stopped, [Stopped];
    }

    /** src/lifecycle_state_machine.cpp:43-51 */
    method TransitionTo(next: State) returns (ok: bool)
      requires Valid()
      modifies this
      ensures Valid()
      ensures ok <==> IsLegalTransition(old(state), next)
      ensures ok ==> state == next && history == old(history) + [next]
      ensures !ok ==> state == old(state) && history == old(history)
    {
      if !IsLegalTransition(state, next) {
        return false;
      }
      state := next;
      history := history + [next];
      ok := true;
    }
  }
}
