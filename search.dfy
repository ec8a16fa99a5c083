/** The search driver: FIFO node selection, pruning by bound and by
    infeasibility, incumbent tracking and branching. `Run` is the search as a
    function of the frontier and the incumbent; `SolveBinaryProgram` is the
    loop over `Node` objects, proved to compute it. */
module Search {
  import opened Bounds
  import opened Relaxations
  import opened Nodes

  /** The incumbent: the global `lower_bound` and `current_optimum`. */
  datatype Incumbent = Incumbent(lower: real, optimum: Option<seq<real>>)

  /** How a search ends: with the final incumbent, or stopped by a failed
      bound assertion. */
  datatype Outcome = Finished(lowerBound: real, optimum: Option<seq<real>>) | BoundViolation

  /** What processing one node produces: the children to append and the new
      incumbent, or a failed bound assertion. */
  datatype Step = Abort | Next(children: seq<NodeVal>, incumbent: Incumbent)

  /** The initial global lower bound. */
  const InitialLower: real := 0.0

  /** Removes the front of the frontier; the rest keeps its order. */
  function ChoiceNode<T>(frontier: seq<T>): (r: (T, seq<T>))
    requires frontier != []
    ensures [r.0] + r.1 == frontier
  {
    (frontier[0], frontier[1..])
  }

  /** The indices lo, lo + 1, ..., hi - 1. */
  function Range(lo: nat, hi: nat): (r: seq<nat>)
    requires lo <= hi
    ensures |r| == hi - lo
    ensures forall i :: 0 <= i < |r| ==> r[i] == lo + i
    decreases hi - lo
  {
    if lo == hi then [] else [lo] + Range(lo + 1, hi)
  }

  /** The root node: no fixings, bounds +infinity and 0, every variable a
      candidate. */
  function Root(numVars: nat): (root: NodeVal)
    ensures Size(root) == Pow2(numVars + 1) - 1
  {
    NodeVal([], Infinity, InitialLower, Range(0, numVars))
  }

  /** One pass of the loop body on the selected node `n`. Its behaviour is
      stated by the lemmas of `SearchProperties`; the contract records that
      the incumbent never drops, that a recorded node is not branched, and
      that branching yields two nodes. */
  function Process(n: NodeVal, inc: Incumbent, oracle: Oracle): (step: Step)
    ensures step.Next? ==> step.incumbent.lower >= inc.lower
    ensures step.Next? && step.incumbent != inc ==> step.children == []
    ensures step.Next? && step.children != [] ==> |step.children| == 2
  {
    if n.upper.AtMost(inc.lower) then Next([], inc)
    else match oracle(n.problem)
      case None => Next([], inc)
      case Some(r) =>
        if !(n.upper.AtMost(r.objective) || n.lower <= r.objective) then Abort
        else
          var solved := NodeVal(n.problem, Tighten(n.upper, r.objective), n.lower, n.candidates);
          if solved.upper.AtMost(inc.lower) then Next([], inc)
          else if Integral(r.values) then
            if !solved.upper.AtLeast(r.objective) then Abort
            else if r.objective > inc.lower then Next([], Incumbent(r.objective, Some(r.values)))
            else Next([], inc)
          else if solved.candidates != [] then Next(Branch(solved), inc)
          else Next([], inc)
  }

  function Pow2(k: nat): (p: nat)
    ensures p >= 1
  {
    if k == 0 then 1 else 2 * Pow2(k - 1)
  }

  /** The number of nodes of the complete binary tree below `n`. */
  function Size(n: NodeVal): nat {
    Pow2(|n.candidates| + 1) - 1
  }

  /** The termination measure: the most nodes the frontier can still yield. */
  function Measure(frontier: seq<NodeVal>): nat {
    if frontier == [] then 0 else Size(frontier[0]) + Measure(frontier[1..])
  }

  lemma {:induction false} MeasureAppend(a: seq<NodeVal>, b: seq<NodeVal>)
    ensures Measure(a + b) == Measure(a) + Measure(b)
  {
    if a == [] {
      assert a + b == b;
    } else {
      assert (a + b)[1..] == a[1..] + b;
      MeasureAppend(a[1..], b);
    }
  }

  /** A processed node yields children worth strictly less than itself. */
  lemma ProcessShrinks(n: NodeVal, inc: Incumbent, oracle: Oracle)
    ensures Process(n, inc, oracle).Next? ==> Measure(Process(n, inc, oracle).children) < Size(n)
  {
    var step := Process(n, inc, oracle);
    if step.Next? && step.children != [] {
      var c := step.children;
      assert |c| == 2 && |c[0].candidates| == |c[1].candidates| == |n.candidates| - 1;
      assert Measure(c[1..]) == Size(c[1]) + Measure(c[1..][1..]);
      assert c[1..][1..] == [];
    }
  }

  lemma StepShrinks(frontier: seq<NodeVal>, inc: Incumbent, oracle: Oracle)
    requires frontier != []
    ensures Process(frontier[0], inc, oracle).Next? ==>
      Measure(frontier[1..] + Process(frontier[0], inc, oracle).children) < Measure(frontier)
  {
    var step := Process(frontier[0], inc, oracle);
    if step.Next? {
      ProcessShrinks(frontier[0], inc, oracle);
      MeasureAppend(frontier[1..], step.children);
    }
  }

  /** The search from a frontier and an incumbent, until the frontier is
      empty: select the front node, process it, append its children. */
  function Run(frontier: seq<NodeVal>, inc: Incumbent, oracle: Oracle): (outcome: Outcome)
    ensures outcome.Finished? ==> outcome.lowerBound >= inc.lower
    decreases Measure(frontier)
  {
    if frontier == [] then Finished(inc.lower, inc.optimum)
    else
      var (n, rest) := ChoiceNode(frontier);
      match Process(n, inc, oracle)
      case Abort => BoundViolation
      case Next(children, inc') =>
        StepShrinks(frontier, inc, oracle);
        Run(rest + children, inc', oracle)
  }

  /** Children inherit consistent bounds from a consistent parent. */
  lemma ProcessKeepsBoundsOrdered(frontier: seq<NodeVal>, inc: Incumbent, oracle: Oracle)
    requires frontier != []
    requires forall v :: v in frontier ==> v.upper.AtLeast(v.lower)
    ensures Process(frontier[0], inc, oracle).Next? ==>
      forall v :: v in frontier[1..] + Process(frontier[0], inc, oracle).children ==> v.upper.AtLeast(v.lower)
  {
  }

  lemma RunStep(frontier: seq<NodeVal>, inc: Incumbent, oracle: Oracle)
    requires frontier != []
    ensures Process(frontier[0], inc, oracle).Abort? ==> Run(frontier, inc, oracle) == BoundViolation
    ensures Process(frontier[0], inc, oracle).Next? ==>
      Run(frontier, inc, oracle) ==
      Run(frontier[1..] + Process(frontier[0], inc, oracle).children, Process(frontier[0], inc, oracle).incumbent, oracle)
  {
  }

  /** The whole search on an instance with `numVars` variables. */
  function Solve(oracle: Oracle, numVars: nat): (outcome: Outcome)
    ensures outcome.Finished? ==> outcome.lowerBound >= InitialLower
  {
    Run([Root(numVars)], Incumbent(InitialLower, None), oracle)
  }
}
