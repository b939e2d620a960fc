/** Runs of a state machine whose atomic steps are given by a partial function. */
module Runs {
  import opened Options

  /** The state after all steps, or None if one of them was not enabled where it was taken. */
  function Run<S, A>(next: (S, A) -> Option<S>, s: S, steps: seq<A>): Option<S> {
    if steps == [] then Some(s)
    else
      var before := Run(next, s, steps[..|steps| - 1]);
      if before.None? then None else next(before.value, steps[|steps| - 1])
  }

  lemma RunExtends<S, A>(next: (S, A) -> Option<S>, s: S, steps: seq<A>, t: S, step: A)
    requires Run(next, s, steps) == Some(t)
    ensures Run(next, s, steps + [step]) == next(t, step)
  {
    assert (steps + [step])[..|steps|] == steps;
  }
}
