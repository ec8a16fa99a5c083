/** The top-level loop over `Node` objects: a FIFO frontier, the global
    `lower_bound` and `current_optimum`. */
module Driver {
  import opened Bounds
  import opened Relaxations
  import opened Nodes
  import opened Search
  import opened SearchProperties

  /** The values of the nodes of a frontier, in order. */
  ghost function Values(frontier: seq<Node>): (vs: seq<NodeVal>)
    reads frontier
    ensures |vs| == |frontier|
    ensures forall i {:trigger vs[i]} :: 0 <= i < |frontier| ==> vs[i] == frontier[i].Value()
  {
    if frontier == [] then [] else [frontier[0].Value()] + Values(frontier[1..])
  }

  /** One pass of the loop body on the selected node: the bound test, the
      solve, the second bound test, then recording an integral node or
      branching on a fractional one. */
  method ProcessNode(node: Node, lowerBound: real, currentOptimum: Option<seq<real>>, oracle: Oracle)
    returns (aborted: bool, children: seq<Node>, newLower: real, newOptimum: Option<seq<real>>)
    requires node.Valid()
    modifies node
    ensures Process(old(node.Value()), Incumbent(lowerBound, currentOptimum), oracle) ==
      if aborted then Abort else Next(Values(children), Incumbent(newLower, newOptimum))
    ensures forall i :: 0 <= i < |children| ==> fresh(children[i]) && children[i].Valid()
    ensures forall i, j :: 0 <= i < j < |children| ==> children[i] != children[j]
  {
    ghost var n := node.Value();
    ghost var inc := Incumbent(lowerBound, currentOptimum);
    aborted, children, newLower, newOptimum := false, [], lowerBound, currentOptimum;
    if node.upperBound.AtMost(lowerBound) {
      assert Process(n, inc, oracle) == Next([], inc);
      return;
    }
    var modelStatus := node.Optimize(oracle);
    if modelStatus == Infeasible {
      assert Process(n, inc, oracle) == Next([], inc);
      return;
    }
    ghost var r := node.relaxation.value;
    var ok := node.UpdateUpperBound();
    if !ok {
      aborted := true;
      assert Process(n, inc, oracle) == Abort;
      return;
    }
    ghost var solved := NodeVal(n.problem, Tighten(n.upper, r.objective), n.lower, n.candidates);
    assert node.Value() == solved;
    if node.upperBound.AtMost(lowerBound) {
      assert Process(n, inc, oracle) == Next([], inc);
      return;
    }
    var integral := node.IsInteger();
    if integral {
      ok := node.UpdateLowerBound();
      if !ok {
        aborted := true;
        assert Process(n, inc, oracle) == Abort;
        return;
      }
      if node.lowerBound > lowerBound {
        newLower := node.lowerBound;
        newOptimum := Some(node.relaxation.value.values);
        assert Process(n, inc, oracle) == Next([], Incumbent(r.objective, Some(r.values)));
      }
      return;
    }
    if node.IsChildProblem() {
      var childNode1, childNode2 := node.GetChildProblem();
      children := [childNode1, childNode2];
      assert Values(children) == Branch(solved);
      assert Process(n, inc, oracle) == Next(Branch(solved), inc);
    } else {
      assert Process(n, inc, oracle) == Next([], inc);
    }
  }

  /** One iteration of the loop: select the front node, process it and
      append its children at the back. */
  method Iterate(candidateNode: seq<Node>, lowerBound: real, currentOptimum: Option<seq<real>>, oracle: Oracle)
    returns (aborted: bool, frontier: seq<Node>, newLower: real, newOptimum: Option<seq<real>>)
    requires candidateNode != []
    requires forall i, j :: 0 <= i < j < |candidateNode| ==> candidateNode[i] != candidateNode[j]
    requires candidateNode[0].Valid()
    modifies candidateNode[0]
    ensures var step := Process(old(Values(candidateNode))[0], Incumbent(lowerBound, currentOptimum), oracle);
      aborted == step.Abort? &&
      (!aborted ==> Values(frontier) == old(Values(candidateNode))[1..] + step.children &&
                    step.incumbent == Incumbent(newLower, newOptimum))
    ensures !aborted ==>
      |frontier| >= |candidateNode| - 1 && frontier[..|candidateNode| - 1] == candidateNode[1..] &&
      forall i :: |candidateNode| - 1 <= i < |frontier| ==> fresh(frontier[i])
    ensures forall i, j :: 0 <= i < j < |frontier| ==> frontier[i] != frontier[j]
  {
    var node;
    node, frontier := ChoiceNode(candidateNode).0, ChoiceNode(candidateNode).1;
    ghost var rest := Values(frontier);
    assert node !in frontier;
    var children;
    aborted, children, newLower, newOptimum := ProcessNode(node, lowerBound, currentOptimum, oracle);
    if aborted {
      return;
    }
    assert Values(frontier) == rest;
    frontier := frontier + children;
    assert Values(frontier) == rest + Values(children);
  }

  /** Runs branch and bound on an instance with `numVars` binary variables
      whose relaxations `oracle` solves, starting from the bounds +infinity
      and 0. */
  method SolveBinaryProgram(oracle: Oracle, numVars: nat) returns (outcome: Outcome)
    ensures outcome == Solve(oracle, numVars)
    ensures outcome.Finished? ==>
      outcome.lowerBound >= InitialLower &&
      Recorded(Incumbent(outcome.lowerBound, outcome.optimum), InitialLower, oracle, numVars)
  {
    SearchSound(oracle, numVars);
    var upperBound, lowerBound := Infinity, InitialLower;
    var rootNode := new Node([], upperBound, lowerBound, Range(0, numVars));
    var candidateNode := [rootNode];
    var currentOptimum: Option<seq<real>> := None;
    ghost var goal := Solve(oracle, numVars);
    ghost var todo := [Root(numVars)];
    while candidateNode != []
      invariant forall i :: 0 <= i < |candidateNode| ==> fresh(candidateNode[i])
      invariant forall i, j :: 0 <= i < j < |candidateNode| ==> candidateNode[i] != candidateNode[j]
      invariant todo == Values(candidateNode)
      invariant forall v :: v in todo ==> v.upper.AtLeast(v.lower)
      invariant Run(todo, Incumbent(lowerBound, currentOptimum), oracle) == goal
      decreases Measure(todo)
    {
      ghost var inc := Incumbent(lowerBound, currentOptimum);
      StepShrinks(todo, inc, oracle);
      RunStep(todo, inc, oracle);
      ProcessKeepsBoundsOrdered(todo, inc, oracle);
      assert candidateNode[0].Value() == todo[0];
      ghost var previous := candidateNode;
      var aborted;
      aborted, candidateNode, lowerBound, currentOptimum := Iterate(candidateNode, lowerBound, currentOptimum, oracle);
      if aborted {
        return BoundViolation;
      }
      todo := Values(candidateNode);
      assert forall i :: 0 <= i < |previous| - 1 ==> candidateNode[i] == previous[i + 1];
    }
    return Finished(lowerBound, currentOptimum);
  }
}
