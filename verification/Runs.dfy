/** Runs of a step system: what any list of enabled steps leads to. */
module Runs {
  import opened Text

  /** The state after a list of steps, or None if one of them was not enabled. */
  function After<S, T>(next: (S, T) -> Option<S>, s: S, steps: seq<T>): Option<S> {
    if steps == [] then Some(s)
    else match After(next, s, steps[..|steps| - 1])
      case None => None
      case Some(t) => next(t, steps[|steps| - 1])
  }

  /** What every step keeps, every run keeps. */
  lemma {:induction false} RunKeeps<S(!new), T(!new)>(next: (S, T) -> Option<S>, inv: S -> bool, s: S, steps: seq<T>,
      s': S)
    requires forall a, step :: inv(a) && next(a, step).Some? ==> inv(next(a, step).value)
    requires inv(s) && After(next, s, steps) == Some(s')
    ensures inv(s')
  {
    if steps != [] {
      RunKeeps(next, inv, s, steps[..|steps| - 1], After(next, s, steps[..|steps| - 1]).value);
    }
  }

  lemma NoSteps<S, T>(next: (S, T) -> Option<S>, s: S)
    ensures After<S, T>(next, s, []) == Some(s)
  {}

  lemma Extend<S, T>(next: (S, T) -> Option<S>, s: S, steps: seq<T>, t: S, step: T)
    requires After(next, s, steps) == Some(t)
    ensures After(next, s, steps + [step]) == next(t, step)
  {
    assert (steps + [step])[..|steps|] == steps;
  }

  /** A first step and then the rest. */
  lemma {:induction false} StepThen<S, T>(next: (S, T) -> Option<S>, s: S, step: T, rest: seq<T>)
    requires next(s, step).Some?
    ensures After(next, s, [step] + rest) == After(next, next(s, step).value, rest)
  {
    if rest == [] {
      assert [step] + rest == [step] && [step][..0] == [];
    } else {
      StepThen(next, s, step, rest[..|rest| - 1]);
      LastOfConcat([step], rest);
    }
  }

  lemma TwoSteps<S, T>(next: (S, T) -> Option<S>, s: S, a: T, b: T)
    ensures After(next, s, [a]) == next(s, a)
    ensures After(next, s, [a, b]) == if next(s, a).None? then None else next(next(s, a).value, b)
  {
    NoSteps(next, s);
    assert [a, b][..1] == [a] && [a][..0] == [];
  }
}
