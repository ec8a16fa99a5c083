/** What the search guarantees: bounded work, FIFO (level-by-level) order,
    the pruning rules, and an incumbent that only grows and always comes
    from an integral relaxation of a genuine subproblem. */
module SearchProperties {
  import opened Bounds
  import opened Relaxations
  import opened Nodes
  import opened Search

  /** The shape every node of the tree has: consistent bounds, a model that
      fixes the first |problem| variables, and the remaining variables, in
      order, as candidates. */
  ghost predicate WellFormed(n: NodeVal, numVars: nat) {
    n.upper.AtLeast(n.lower) && n.lower == InitialLower &&
    IsSubproblem(n.problem, numVars) &&
    n.candidates == Range(|n.problem|, numVars)
  }

  /** The incumbent is either the initial one, or a strictly better value
      reached by an integral relaxation of some subproblem. */
  ghost predicate Recorded(inc: Incumbent, base: real, oracle: Oracle, numVars: nat) {
    (inc.optimum.None? ==> inc.lower == base) &&
    (inc.optimum.Some? ==>
      inc.lower > base && Integral(inc.optimum.value) &&
      exists p :: IsSubproblem(p, numVars) && oracle(p) == Some(Relaxation(inc.lower, inc.optimum.value)))
  }

  /** The nodes the loop selects, in order. */
  ghost function Selected(frontier: seq<NodeVal>, inc: Incumbent, oracle: Oracle): seq<NodeVal>
    decreases Measure(frontier)
  {
    if frontier == [] then []
    else match Process(frontier[0], inc, oracle)
      case Abort => [frontier[0]]
      case Next(children, inc') =>
        StepShrinks(frontier, inc, oracle);
        [frontier[0]] + Selected(frontier[1..] + children, inc', oracle)
  }

  function Depth(n: NodeVal): nat {
    |n.problem|
  }

  /** Along the frontier, depths never decrease and span at most one level. */
  ghost predicate Layered(frontier: seq<NodeVal>) {
    forall i, j :: 0 <= i <= j < |frontier| ==>
      Depth(frontier[i]) <= Depth(frontier[j]) <= Depth(frontier[i]) + 1
  }

  lemma RootWellFormed(numVars: nat)
    ensures WellFormed(Root(numVars), numVars)
  {
  }

  lemma BranchWellFormed(n: NodeVal, numVars: nat)
    requires WellFormed(n, numVars) && n.candidates != []
    ensures forall c :: c in Branch(n) ==> WellFormed(c, numVars)
  {
  }

  /** Processing a well-formed node keeps the incumbent recorded and never
      lowers it, and yields well-formed children. */
  lemma ProcessSound(n: NodeVal, inc: Incumbent, oracle: Oracle, numVars: nat, base: real)
    requires WellFormed(n, numVars) && Recorded(inc, base, oracle, numVars)
    ensures Process(n, inc, oracle).Next? ==>
      Process(n, inc, oracle).incumbent.lower >= inc.lower &&
      Recorded(Process(n, inc, oracle).incumbent, base, oracle, numVars) &&
      forall c :: c in Process(n, inc, oracle).children ==> WellFormed(c, numVars)
  {
  }

  lemma {:induction false} RunSound(frontier: seq<NodeVal>, inc: Incumbent, oracle: Oracle, numVars: nat, base: real)
    requires forall n :: n in frontier ==> WellFormed(n, numVars)
    requires Recorded(inc, base, oracle, numVars)
    ensures Run(frontier, inc, oracle).Finished? ==>
      Run(frontier, inc, oracle).lowerBound >= inc.lower &&
      Recorded(Incumbent(Run(frontier, inc, oracle).lowerBound, Run(frontier, inc, oracle).optimum), base, oracle, numVars)
    decreases Measure(frontier)
  {
    if frontier != [] {
      ProcessSound(frontier[0], inc, oracle, numVars, base);
      var step := Process(frontier[0], inc, oracle);
      if step.Next? {
        StepShrinks(frontier, inc, oracle);
        RunSound(frontier[1..] + step.children, step.incumbent, oracle, numVars, base);
      }
    }
  }

  /** A finished search reports at least the initial lower bound; it reports
      no solution exactly when it found nothing better; a reported solution
      is integral and is the relaxation's answer, with that objective, for a
      subproblem that fixes a prefix of the variables to 0/1. */
  lemma SearchSound(oracle: Oracle, numVars: nat)
    ensures Solve(oracle, numVars).Finished? ==>
      Solve(oracle, numVars).lowerBound >= InitialLower &&
      Recorded(Incumbent(Solve(oracle, numVars).lowerBound, Solve(oracle, numVars).optimum), InitialLower, oracle, numVars)
  {
    RootWellFormed(numVars);
    RunSound([Root(numVars)], Incumbent(InitialLower, None), oracle, numVars, InitialLower);
  }

  /** Children carry their parent's lower bound, and only a node that is
      then discarded raises its own: every node of the tree keeps the root's
      lower bound 0. */
  lemma ChildrenKeepInitialLower(n: NodeVal, inc: Incumbent, oracle: Oracle)
    requires n.lower == InitialLower
    ensures Process(n, inc, oracle).Next? ==>
      forall c :: c in Process(n, inc, oracle).children ==> c.lower == InitialLower
  {
  }

  /** Since every node's lower bound is 0, any node that passes the first
      bound test and whose relaxation has a negative objective fails the
      assertion of `update_upper_bound`. */
  lemma NegativeObjectiveAborts(n: NodeVal, inc: Incumbent, oracle: Oracle)
    requires n.lower == InitialLower && n.upper.AtLeast(n.lower)
    requires !n.upper.AtMost(inc.lower)
    requires oracle(n.problem).Some? && oracle(n.problem).value.objective < InitialLower
    ensures Process(n, inc, oracle) == Abort
  {
  }

  /** Every relaxation the solver returns has its values in [0, 1], as the
      relaxation of a 0/1 program does. */
  ghost predicate UnitValued(oracle: Oracle) {
    forall p, i :: oracle(p).Some? && 0 <= i < |oracle(p).value.values| ==>
      0.0 <= oracle(p).value.values[i] <= 1.0
  }

  /** With such a solver, a reported optimum is a 0/1 assignment. */
  lemma SearchOptimumBinary(oracle: Oracle, numVars: nat)
    requires UnitValued(oracle)
    ensures Solve(oracle, numVars).Finished? && Solve(oracle, numVars).optimum.Some? ==>
      forall i :: 0 <= i < |Solve(oracle, numVars).optimum.value| ==>
        Solve(oracle, numVars).optimum.value[i] == 0.0 || Solve(oracle, numVars).optimum.value[i] == 1.0
  {
    var outcome := Solve(oracle, numVars);
    if outcome.Finished? && outcome.optimum.Some? {
      SearchSound(oracle, numVars);
      var values := outcome.optimum.value;
      var p :| IsSubproblem(p, numVars) && oracle(p) == Some(Relaxation(outcome.lowerBound, values));
      assert forall i :: 0 <= i < |values| ==> values[i] == oracle(p).value.values[i];
      IntegralInUnitIsBinary(values);
    }
  }

  /** An infeasible root relaxation ends the search with no solution. */
  lemma RootInfeasible(oracle: Oracle, numVars: nat)
    requires oracle([]) == None
    ensures Solve(oracle, numVars) == Finished(InitialLower, None)
  {
    var inc := Incumbent(InitialLower, None);
    assert Process(Root(numVars), inc, oracle) == Next([], inc);
    assert [Root(numVars)][1..] + [] == [];
    assert Run([], inc, oracle) == Finished(InitialLower, None);
  }

  /** A root relaxation whose objective is below the initial lower bound
      fails the assertion of `update_upper_bound` instead of being pruned. */
  lemma NegativeRootAborts(oracle: Oracle, numVars: nat)
    requires oracle([]).Some? && oracle([]).value.objective < InitialLower
    ensures Solve(oracle, numVars) == BoundViolation
  {
  }

  /** A node whose bound is already beaten is discarded whatever the solver
      would say: the solver is not consulted. */
  lemma BoundPruneSkipsOracle(n: NodeVal, inc: Incumbent, oracle: Oracle, other: Oracle)
    requires n.upper.AtMost(inc.lower)
    ensures Process(n, inc, oracle) == Next([], inc)
    ensures Process(n, inc, other) == Process(n, inc, oracle)
  {
  }

  /** A node whose tightened bound no longer beats the incumbent is neither
      recorded nor branched. */
  lemma PrunedAfterSolve(n: NodeVal, inc: Incumbent, oracle: Oracle)
    requires oracle(n.problem).Some?
    requires Tighten(n.upper, oracle(n.problem).value.objective).AtMost(inc.lower)
    ensures Process(n, inc, oracle) == Abort || Process(n, inc, oracle) == Next([], inc)
  {
  }

  /** The incumbent changes only to the objective and values of an integral
      relaxation of the node, strictly above the old incumbent, and such a
      node is not branched. */
  lemma IncumbentReplacement(n: NodeVal, inc: Incumbent, oracle: Oracle)
    ensures Process(n, inc, oracle).Next? && Process(n, inc, oracle).incumbent != inc ==>
      oracle(n.problem).Some? &&
      Integral(oracle(n.problem).value.values) &&
      oracle(n.problem).value.objective > inc.lower &&
      Process(n, inc, oracle) == Next([], Incumbent(oracle(n.problem).value.objective, Some(oracle(n.problem).value.values)))
  {
  }

  /** An integral node that passes both bound tests and both assertions
      always beats the incumbent: its tightened bound equals its objective,
      so the strict comparison before recording never fails. */
  lemma IntegralSurvivorImproves(n: NodeVal, inc: Incumbent, oracle: Oracle)
    requires !n.upper.AtMost(inc.lower) && oracle(n.problem).Some?
    requires Integral(oracle(n.problem).value.values)
    requires !Tighten(n.upper, oracle(n.problem).value.objective).AtMost(inc.lower)
    requires Process(n, inc, oracle).Next?
    ensures oracle(n.problem).value.objective > inc.lower
    ensures Process(n, inc, oracle) ==
      Next([], Incumbent(oracle(n.problem).value.objective, Some(oracle(n.problem).value.values)))
  {
  }

  /** Branching happens exactly for a node that survives both bound tests,
      is feasible, is not integral and has a candidate left. */
  lemma BranchingCondition(n: NodeVal, inc: Incumbent, oracle: Oracle)
    ensures (Process(n, inc, oracle).Next? && Process(n, inc, oracle).children != []) <==>
      (!n.upper.AtMost(inc.lower) && oracle(n.problem).Some? &&
       (n.upper.AtMost(oracle(n.problem).value.objective) || n.lower <= oracle(n.problem).value.objective) &&
       !Tighten(n.upper, oracle(n.problem).value.objective).AtMost(inc.lower) &&
       !Integral(oracle(n.problem).value.values) && n.candidates != [])
  {
  }

  lemma {:induction false} SelectedAtMostMeasure(frontier: seq<NodeVal>, inc: Incumbent, oracle: Oracle)
    ensures |Selected(frontier, inc, oracle)| <= Measure(frontier)
    decreases Measure(frontier)
  {
    if frontier != [] {
      var step := Process(frontier[0], inc, oracle);
      assert Pow2(|frontier[0].candidates| + 1) >= 2;
      if step.Next? {
        StepShrinks(frontier, inc, oracle);
        SelectedAtMostMeasure(frontier[1..] + step.children, step.incumbent, oracle);
      }
    }
  }

  /** The search selects at most 2^(numVars + 1) - 1 nodes, the size of the
      complete binary tree over the variables, so it calls the solver at
      most that often. */
  lemma SearchVisitsAtMost(oracle: Oracle, numVars: nat)
    ensures |Selected([Root(numVars)], Incumbent(InitialLower, None), oracle)| <= Pow2(numVars + 1) - 1
  {
    SelectedAtMostMeasure([Root(numVars)], Incumbent(InitialLower, None), oracle);
    assert Measure([Root(numVars)]) == Size(Root(numVars)) + Measure([]);
  }

  /** Removing the front and appending its children keeps the frontier
      layered. */
  lemma StepKeepsLayers(frontier: seq<NodeVal>, inc: Incumbent, oracle: Oracle)
    requires frontier != [] && Layered(frontier)
    ensures Process(frontier[0], inc, oracle).Next? ==>
      Layered(frontier[1..] + Process(frontier[0], inc, oracle).children)
  {
  }

  lemma {:induction false} SelectedAtLeast(frontier: seq<NodeVal>, inc: Incumbent, oracle: Oracle, d: nat)
    requires forall n :: n in frontier ==> Depth(n) >= d
    ensures forall n :: n in Selected(frontier, inc, oracle) ==> Depth(n) >= d
    decreases Measure(frontier)
  {
    if frontier != [] {
      var step := Process(frontier[0], inc, oracle);
      if step.Next? {
        StepShrinks(frontier, inc, oracle);
        assert forall c :: c in step.children ==> Depth(c) == Depth(frontier[0]) + 1;
        assert forall n :: n in frontier[1..] + step.children ==> n in frontier[1..] || n in step.children;
        SelectedAtLeast(frontier[1..] + step.children, step.incumbent, oracle, d);
      }
    }
  }

  /** FIFO selection with children appended at the back explores the tree
      level by level: the selected nodes come in order of depth. */
  lemma {:induction false} SelectedByDepth(frontier: seq<NodeVal>, inc: Incumbent, oracle: Oracle)
    requires Layered(frontier)
    ensures forall i, j :: 0 <= i <= j < |Selected(frontier, inc, oracle)| ==>
      Depth(Selected(frontier, inc, oracle)[i]) <= Depth(Selected(frontier, inc, oracle)[j])
    decreases Measure(frontier)
  {
    if frontier != [] {
      var step := Process(frontier[0], inc, oracle);
      if step.Next? {
        var next := frontier[1..] + step.children;
        var d := Depth(frontier[0]);
        StepShrinks(frontier, inc, oracle);
        StepKeepsLayers(frontier, inc, oracle);
        SelectedByDepth(next, step.incumbent, oracle);
        assert forall c :: c in step.children ==> Depth(c) == d + 1;
        forall n | n in next
          ensures Depth(n) >= d
        {
          if n in frontier[1..] {
            var k :| 0 <= k < |frontier[1..]| && frontier[1..][k] == n;
            assert frontier[k + 1] == n;
          } else {
            assert n in step.children;
          }
        }
        SelectedAtLeast(next, step.incumbent, oracle, d);
        var s := Selected(frontier, inc, oracle);
        var t := Selected(next, step.incumbent, oracle);
        assert s == [frontier[0]] + t;
        forall i, j | 0 <= i <= j < |s|
          ensures Depth(s[i]) <= Depth(s[j])
        {
          if i > 0 {
            assert s[i] == t[i - 1] && s[j] == t[j - 1];
          } else if j > 0 {
            assert s[j] == t[j - 1] && s[j] in t;
          }
        }
      }
    }
  }

  /** The search from the root selects its nodes level by level. */
  lemma SearchBreadthFirst(oracle: Oracle, numVars: nat)
    ensures forall i, j :: 0 <= i <= j < |Selected([Root(numVars)], Incumbent(InitialLower, None), oracle)| ==>
      Depth(Selected([Root(numVars)], Incumbent(InitialLower, None), oracle)[i]) <=
      Depth(Selected([Root(numVars)], Incumbent(InitialLower, None), oracle)[j])
  {
    SelectedByDepth([Root(numVars)], Incumbent(InitialLower, None), oracle);
  }
}
