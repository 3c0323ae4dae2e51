/** Runs of a state machine: what every step keeps holds all along, and what relates neighbours relates the ends. */
module Runs {

  ghost predicate IsRun<S(!new), A(!new)>(step: (S, A, S) -> bool, states: seq<S>, acts: seq<A>) {
    && |states| == |acts| + 1
    && forall i :: 0 <= i < |acts| ==> step(states[i], acts[i], states[i + 1])
  }

  /** An invariant of single steps holds in every state of a run that starts in it. */
  lemma {:induction false} RunInvariant<S(!new), A(!new)>(
    step: (S, A, S) -> bool, inv: S -> bool, states: seq<S>, acts: seq<A>)
    requires IsRun(step, states, acts) && inv(states[0])
    requires forall i :: 0 <= i < |acts| && inv(states[i]) && step(states[i], acts[i], states[i + 1]) ==>
             inv(states[i + 1])
    ensures forall i :: 0 <= i < |states| ==> inv(states[i])
    decreases |acts|
  {
    if acts != [] {
      var n := |acts| - 1;
      RunInvariant(step, inv, states[..n + 1], acts[..n]);
      forall i | 0 <= i <= n ensures inv(states[i]) {
        assert inv(states[..n + 1][i]);
      }
      assert step(states[n], acts[n], states[n + 1]);
    }
  }

  /**
  If a step keeps the invariant exactly when it meets a condition, a run keeps it all along exactly when
  every step does.
  */
  lemma RunExact<S(!new), A(!new)>(
    step: (S, A, S) -> bool, inv: S -> bool, cond: (S, A) -> bool, states: seq<S>, acts: seq<A>)
    requires IsRun(step, states, acts) && inv(states[0])
    requires forall i :: 0 <= i < |acts| && inv(states[i]) ==> (inv(states[i + 1]) <==> cond(states[i], acts[i]))
    ensures (forall i :: 0 <= i < |states| ==> inv(states[i])) <==>
            (forall i :: 0 <= i < |acts| ==> cond(states[i], acts[i]))
  {
    if forall i :: 0 <= i < |acts| ==> cond(states[i], acts[i]) {
      RunInvariant(step, inv, states, acts);
    }
    if forall i :: 0 <= i < |states| ==> inv(states[i]) {
      forall i | 0 <= i < |acts| ensures cond(states[i], acts[i]) {
        assert inv(states[i]) && inv(states[i + 1]);
      }
    }
  }

  /**
  A reflexive, transitive relation that holds across single steps holds between any earlier and later state
  of a run.
  */
  lemma {:induction false} RunRelation<S(!new), A(!new)>(
    step: (S, A, S) -> bool, rel: (S, S) -> bool, states: seq<S>, acts: seq<A>, i: nat, j: nat)
    requires IsRun(step, states, acts) && i <= j < |states|
    requires forall s :: rel(s, s)
    requires forall s, t, u :: rel(s, t) && rel(t, u) ==> rel(s, u)
    requires forall k :: i <= k < j && step(states[k], acts[k], states[k + 1]) ==> rel(states[k], states[k + 1])
    ensures rel(states[i], states[j])
    decreases j
  {
    if i < j {
      RunRelation(step, rel, states, acts, i, j - 1);
    }
  }
}
