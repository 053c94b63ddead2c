/** Runs of a state machine: sequences of steps, each possible when it comes. */
module Interleaving {

  datatype Outcome<S> = Stuck | At(state: S)

  /** Where a sequence of steps leads; `next` is stuck where a step is not possible. */
  function Exec<S, A>(init: S, next: (S, A) -> Outcome<S>, trace: seq<A>): Outcome<S> {
    if trace == [] then At(init)
    else
      match Exec(init, next, trace[..|trace| - 1])
      case At(s) => next(s, trace[|trace| - 1])
      case Stuck => Stuck
  }

  /** One more step. */
  lemma ExecMore<S, A>(init: S, next: (S, A) -> Outcome<S>, trace: seq<A>, a: A)
    requires Exec(init, next, trace).At?
    ensures Exec(init, next, trace + [a]) == next(Exec(init, next, trace).state, a)
  {
    assert (trace + [a])[..|trace|] == trace;
  }

  /** What holds at first and is kept by every step holds after every run. */
  lemma {:induction false} Invariant<S(!new), A(!new)>(
      init: S, next: (S, A) -> Outcome<S>, inv: S -> bool, trace: seq<A>)
    requires inv(init)
    requires forall s, a :: inv(s) && next(s, a).At? ==> inv(next(s, a).state)
    ensures Exec(init, next, trace).At? ==> inv(Exec(init, next, trace).state)
  {
    if trace != [] {
      Invariant(init, next, inv, trace[..|trace| - 1]);
    }
  }
}
