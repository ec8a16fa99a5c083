/** The interface to the LP relaxation solver. The solver itself is foreign:
    it is a parameter of the search, a total function from subproblems to an
    optional result. */
module Relaxations {

  datatype Option<+T> = None | Some(value: T)

  /** The equality constraint `x[index] == value` that branching adds to a
      copy of the parent's model. */
  datatype Fixing = Fixing(index: nat, value: nat)

  /** A subproblem: the root relaxation with the fixings added along the
      path from the root, in order. */
  type Problem = seq<Fixing>

  /** What the solver reports for a feasible relaxation: the objective value
      and the value `x` of every variable, in variable order. */
  datatype Relaxation = Relaxation(objective: real, values: seq<real>)

  /** The relaxation solver; `None` stands for an infeasible relaxation. */
  type Oracle = Problem -> Option<Relaxation>

  /** `p` fixes the variables 0, 1, ..., |p| - 1 of an instance with
      `numVars` variables, in that order, each to 0 or 1. */
  ghost predicate IsSubproblem(p: Problem, numVars: nat) {
    |p| <= numVars &&
    forall j :: 0 <= j < |p| ==> p[j].index == j && p[j].value <= 1
  }
}
