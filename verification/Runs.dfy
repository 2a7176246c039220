/** Sequences of states in which each follows from the one before by a step. */
module Runs {
  ghost predicate Stepwise<S(!new)>(step: (S, S) -> bool, run: seq<S>, from: nat) {
    forall i :: from <= i < |run| - 1 ==> step(run[i], run[i + 1])
  }

  /** `run'` goes on from where `run` stopped. */
  ghost predicate Went<S(!new)>(step: (S, S) -> bool, run: seq<S>, run': seq<S>) {
    |run| > 0 && run <= run' && Stepwise(step, run', |run| - 1)
  }

  lemma OneMore<S(!new)>(step: (S, S) -> bool, run: seq<S>, from: nat, s: S)
    requires |run| > 0 && Stepwise(step, run, from) && step(run[|run| - 1], s)
    ensures Stepwise(step, run + [s], from)
  {
    forall i | from <= i < |run|
      ensures step((run + [s])[i], (run + [s])[i + 1])
    {
      if i == |run| - 1 {
        assert (run + [s])[i + 1] == s;
      }
    }
  }

  lemma WentOne<S(!new)>(step: (S, S) -> bool, run: seq<S>, s: S)
    requires |run| > 0 && step(run[|run| - 1], s)
    ensures Went(step, run, run + [s])
  {
    OneMore(step, run, |run| - 1, s);
  }

  /** Running on from where one part of a run stopped. */
  lemma WentOn<S(!new)>(step: (S, S) -> bool, run: seq<S>)
    requires |run| > 0
    ensures Went(step, run, run)
    ensures forall a, b, c :: Went(step, a, b) && Went(step, b, c) ==> Went(step, a, c)
  {
    forall a, b, c | Went(step, a, b) && Went(step, b, c)
      ensures Went(step, a, c)
    {
      forall i | |a| - 1 <= i < |c| - 1
        ensures step(c[i], c[i + 1])
      {
        if i < |b| - 1 {
          assert c[i] == b[i] && c[i + 1] == b[i + 1];
        }
      }
    }
  }
}
