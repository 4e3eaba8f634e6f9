/** Runs of a deterministic machine over a sequence of moves. */
module Runs {

  function Fold<S, M>(step: (S, M) -> S, s: S, moves: seq<M>): S
    decreases |moves|
  {
    if moves == [] then s else Fold(step, step(s, moves[0]), moves[1..])
  }

  /** Every move is allowed in the state it finds. */
  predicate Along<S, M>(step: (S, M) -> S, allowed: (S, M) -> bool, s: S, moves: seq<M>)
    decreases |moves|
  {
    moves == [] || (allowed(s, moves[0]) && Along(step, allowed, step(s, moves[0]), moves[1..]))
  }

  function Total<M>(weight: M -> nat, moves: seq<M>): nat {
    if moves == [] then 0 else weight(moves[0]) + Total(weight, moves[1..])
  }
}
