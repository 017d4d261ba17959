/** Loops whose number of turns is not known in advance, as the repetition of a partial step. */
module Iteration {
  import opened Wrappers

  /** The step can be taken at least `k` times in a row from `s`. */
  ghost predicate Endures<S>(step: S -> Option<S>, s: S, k: nat)
    decreases k
  {
    k == 0 || (step(s).Some? && Endures(step, step(s).value, k - 1))
  }

  /** A loop with an invariant under which a next step always exists never ends. */
  lemma {:induction false} EnduresForever<S(!new)>(step: S -> Option<S>, inv: S -> bool, s: S, k: nat)
    requires inv(s)
    requires forall x :: inv(x) ==> step(x).Some? && inv(step(x).value)
    ensures Endures(step, s, k)
    decreases k
  {
    if k > 0 {
      EnduresForever(step, inv, step(s).value, k - 1);
    }
  }

  /** A loop with an invariant under which every step lowers a rank ends within that rank. */
  lemma {:induction false} EndsWithinRank<S(!new)>(step: S -> Option<S>, inv: S -> bool, rank: S -> nat, s: S)
    requires inv(s)
    requires forall x :: inv(x) && step(x).Some? ==> inv(step(x).value) && rank(step(x).value) < rank(x)
    ensures !Endures(step, s, rank(s) + 1)
    decreases rank(s)
  {
    if step(s).Some? {
      var r := step(s).value;
      EndsWithinRank(step, inv, rank, r);
      FewerStepsToo(step, r, rank(r) + 1, rank(s));
    }
  }

  lemma {:induction false} FewerStepsToo<S>(step: S -> Option<S>, s: S, j: nat, k: nat)
    requires j <= k && !Endures(step, s, j)
    ensures !Endures(step, s, k)
    decreases j
  {
    if j > 0 && step(s).Some? {
      FewerStepsToo(step, step(s).value, j - 1, k - 1);
    }
  }
}
