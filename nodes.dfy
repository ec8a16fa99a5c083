/** One subproblem of the search tree: its model, its bound bookkeeping and
    the variable indices still open for branching. */
module Nodes {
  import opened Bounds
  import opened Relaxations

  /** The part of a node that the search reads: its model, its two bounds
      and its branching candidates. */
  datatype NodeVal = NodeVal(problem: Problem, upper: Bound, lower: real, candidates: seq<nat>)

  /** A value strictly between 0 and 1; the test is exact, with no tolerance. */
  predicate Fractional(x: real) {
    0.0 < x < 1.0
  }

  /** No value of the relaxation is fractional. Values outside [0, 1] count
      as integral. */
  predicate Integral(values: seq<real>) {
    forall i :: 0 <= i < |values| ==> !Fractional(values[i])
  }

  /** The upper bound after `update_upper_bound`: the smaller of the old
      bound and the relaxation's objective. */
  function Tighten(upper: Bound, objective: real): (r: Bound)
    ensures r == upper || r == Finite(objective)
    ensures r.AtMost(objective)
    ensures upper.Finite? ==> r.AtMost(upper.value)
  {
    if upper.AtMost(objective) then upper else Finite(objective)
  }

  /** The two children of a node: the first candidate is fixed to 0 on the
      left and to 1 on the right; both keep the parent's bounds and the
      remaining candidates. */
  function Branch(n: NodeVal): (children: seq<NodeVal>)
    requires n.candidates != []
    ensures |children| == 2
    ensures forall c :: c in children ==>
      c.upper == n.upper && c.lower == n.lower &&
      c.candidates == n.candidates[1..] && |c.problem| == |n.problem| + 1 &&
      c.problem[..|n.problem|] == n.problem && c.problem[|n.problem|].index == n.candidates[0]
    ensures children[0].problem[|n.problem|].value == 0
    ensures children[1].problem[|n.problem|].value == 1
  {
    var branchIndex := n.candidates[0];
    var rest := n.candidates[1..];
    [NodeVal(n.problem + [Fixing(branchIndex, 0)], n.upper, n.lower, rest),
     NodeVal(n.problem + [Fixing(branchIndex, 1)], n.upper, n.lower, rest)]
  }

  /** Every value-level integral relaxation whose values lie in [0, 1] is a
      0/1 assignment. */
  lemma IntegralInUnitIsBinary(values: seq<real>)
    requires Integral(values)
    requires forall i :: 0 <= i < |values| ==> 0.0 <= values[i] <= 1.0
    ensures forall i :: 0 <= i < |values| ==> values[i] == 0.0 || values[i] == 1.0
  {
  }

  datatype Status = Feasible | Infeasible

  class Node {
    /** The node's own model (`self.model`); never reassigned. */
    const problem: Problem
    /** The node's own copy of the branching candidates; never reassigned. */
    const candidateVars: seq<nat>
    var upperBound: Bound
    var lowerBound: real
    /** `obj_values` and `solution` together, as the solver returned them. */
    var relaxation: Option<Relaxation>
    /** `condidate_child_vars`, `child_left` and `child_right`: set while branching. */
    var childCandidates: seq<nat>
    var childLeft: Problem
    var childRight: Problem

    /** The invariant that `Node.__init__` and both bound updates assert:
        the upper bound is at least the lower bound. */
    ghost predicate Valid()
      reads this
    {
      upperBound.AtLeast(lowerBound)
    }

    ghost function Value(): NodeVal
      reads this
    {
      NodeVal(problem, upperBound, lowerBound, candidateVars)
    }

    constructor (problem: Problem, upperBound: Bound, lowerBound: real, candidateVars: seq<nat>)
      requires upperBound.AtLeast(lowerBound)
      ensures Valid()
      ensures Value() == NodeVal(problem, upperBound, lowerBound, candidateVars)
      ensures relaxation == None && childCandidates == [] && childLeft == [] && childRight == []
    {
      this.upperBound, this.lowerBound := upperBound, lowerBound;
      this.problem := problem;
      this.candidateVars := candidateVars;
      relaxation := None;
      childCandidates, childLeft, childRight := [], [], [];
    }

    /** Solves the node's relaxation and stores the solver's answer. */
    method Optimize(oracle: Oracle) returns (status: Status)
      modifies this`relaxation
      ensures relaxation == oracle(problem)
      ensures status == Infeasible <==> relaxation.None?
    {
      relaxation := oracle(problem);
      if relaxation.None? {
        return Infeasible;
      }
      return Feasible;
    }

    /** Lowers the upper bound to the relaxation's objective when that is
        smaller; `ok` reports whether the assertions of `update_upper_bound`
        hold. */
    method UpdateUpperBound() returns (ok: bool)
      requires Valid() && relaxation.Some?
      modifies this`upperBound
      ensures upperBound == Tighten(old(upperBound), relaxation.value.objective)
      ensures old(upperBound).AtMost(relaxation.value.objective) ==> ok
      ensures ok <==> Valid()
    {
      ok := true;
      var objValue := relaxation.value.objective;
      if !upperBound.AtMost(objValue) {
        upperBound := Finite(objValue);
        ok := lowerBound <= objValue && upperBound.AtLeast(lowerBound);
      }
    }

    /** Raises the lower bound to the objective of an integral relaxation;
        `ok` reports whether the assertions of `update_lower_bound` hold. */
    method UpdateLowerBound() returns (ok: bool)
      requires relaxation.Some?
      modifies this`lowerBound
      ensures lowerBound == relaxation.value.objective
      ensures ok <==> Valid()
    {
      lowerBound := relaxation.value.objective;
      ok := lowerBound <= relaxation.value.objective && upperBound.AtLeast(lowerBound);
    }

    /** Scans the solution for a fractional value. */
    method IsInteger() returns (integral: bool)
      requires relaxation.Some?
      ensures integral == Integral(relaxation.value.values)
    {
      var solution := relaxation.value.values;
      var i := 0;
      while i < |solution|
        invariant 0 <= i <= |solution|
        invariant forall k :: 0 <= k < i ==> !Fractional(solution[k])
      {
        if 0.0 < solution[i] && solution[i] < 1.0 {
          return false;
        }
        i := i + 1;
      }
      return true;
    }

    /** Whether any variable is left to branch on. */
    function IsChildProblem(): (b: bool)
      ensures b <==> |candidateVars| > 0
    {
      candidateVars != []
    }

    /** Takes the first candidate as the branching index; the parent's own
        candidates stay as they are. */
    method ChoiceBranch() returns (branchIndex: nat, childVars: seq<nat>)
      requires IsChildProblem()
      modifies this`childCandidates
      ensures [branchIndex] + childVars == candidateVars
      ensures childCandidates == childVars
    {
      childCandidates := candidateVars;
      branchIndex := childCandidates[0];
      childCandidates := childCandidates[1..];
      childVars := childCandidates;
    }

    /** Builds the two children of this node. */
    method GetChildProblem() returns (left: Node, right: Node)
      requires Valid() && IsChildProblem()
      modifies this`childLeft, this`childRight, this`childCandidates
      ensures fresh(left) && fresh(right) && left != right
      ensures [left.Value(), right.Value()] == Branch(Value())
      ensures left.Valid() && right.Valid()
      ensures left.relaxation == None && right.relaxation == None
      ensures childLeft == left.problem && childRight == right.problem
      ensures childCandidates == candidateVars[1..]
    {
      var branchIndex, childVars := ChoiceBranch();
      childLeft := problem + [Fixing(branchIndex, 0)];
      childRight := problem + [Fixing(branchIndex, 1)];
      left := new Node(childLeft, upperBound, lowerBound, childCandidates);
      right := new Node(childRight, upperBound, lowerBound, childCandidates);
    }
  }
}
