# Branch and bound for 0/1 programs, in Dafny

This project models the search engine of `BranchBound/BranchAndBound.py`. The
engine solves 0/1 integer programs by branch and bound. It keeps a FIFO
frontier of `Node` objects. Each node holds a relaxed model, an upper and a
lower bound, and the variable indices still open for branching. The driver
loop takes the front node and discards it if its bound cannot beat the
incumbent. Otherwise it solves the node's relaxation, tightens the node's
upper bound and tests the bound again. An integral node is then recorded as
the incumbent; a fractional one is split on its first candidate into a
`x == 0` child and an `x == 1` child, which are appended to the back of the
frontier.

Files and modules:

- `bounds.dfy` (`Bounds`): a bound is a real number or +infinity. The root's
  upper bound is `float('inf')`.
- `relaxations.dfy` (`Relaxations`): the relaxation solver's interface. A
  subproblem is the sequence of fixings `x[i] == v` added on the way from the
  root. The solver is a function parameter `Oracle` from subproblems to
  `Option<Relaxation>`, where `None` means infeasible.
- `nodes.dfy` (`Nodes`): the `Node` class, with one method per method of the
  Python `Node` class. Each method's `ensures` gives the node's whole new state. The
  file also holds the value-level view `NodeVal`, the integrality test
  `Integral`, the tightened bound `Tighten` and the two children `Branch`.
- `search.dfy` (`Search`): the search as a pure function. `Process` is one
  pass of the loop body and `Run` is the whole loop. `Solve` runs the loop
  from the root. `Run` terminates on the measure `Measure`, the sum over the
  frontier of 2^(k+1) - 1 for a node with k candidates. Each branching
  strictly lowers that sum.
- `search_properties.dfy` (`SearchProperties`): what the search guarantees.
  These are the lemmas of the table below.
- `driver.dfy` (`Driver`): the loop itself, over a `seq<Node>` frontier and
  the variables `lowerBound` and `currentOptimum`. It is proved to return
  `Solve(oracle, numVars)`.

Behaviour worth knowing:

- Every node's lower bound remains the root's 0 (`WellFormed`,
  `ChildrenKeepInitialLower`). Only a node about to be discarded ever raises
  its own lower bound.
- Because of that, the assertion in `update_upper_bound` fails for every
  node that passes the first bound test and whose relaxation has a negative
  objective (`NegativeObjectiveAborts`; for the root, `NegativeRootAborts`).
  The search then stops with `BoundViolation` instead of pruning the node.
- The strict comparison at line 101 always succeeds when it is reached
  (`IntegralSurvivorImproves`).
- The integrality test at line 42 compares exactly, with no tolerance
  (`Nodes.Node.IsInteger`).
- A node that is neither integral nor branchable is dropped without error
  (`BranchingCondition`); the model does the same.

## Model

| member | source | states |
|---|---|---|
| `Nodes.Node.constructor` | BranchBound/BranchAndBound.py:17-21 | a new node holds the given model, bounds and its own copy of the candidates, has no relaxation yet, and satisfies `upper_bound >= lower_bound` |
| `Nodes.Node.Optimize` | BranchBound/BranchAndBound.py:23-27 | the node stores exactly what the solver returns for its model; the status is infeasible iff the solver returned nothing; only that field changes |
| `Nodes.Tighten` | BranchBound/BranchAndBound.py:29-31 | the new upper bound is the minimum of the old bound and the objective: one of the two, at most the objective, at most the old bound |
| `Nodes.Node.UpdateUpperBound` | BranchBound/BranchAndBound.py:29-33 | the upper bound becomes min(old bound, objective) and the lower bound is untouched; the assertions hold whenever the bound was not lowered, and they hold iff the node's bounds are still ordered |
| `Nodes.Node.UpdateLowerBound` | BranchBound/BranchAndBound.py:35-38 | the lower bound becomes the objective and the upper bound is untouched; the assertions hold iff `lower_bound <= upper_bound` afterwards |
| `Nodes.Node.IsInteger` | BranchBound/BranchAndBound.py:40-44 | the result is true iff no value of the solution lies strictly between 0 and 1 |
| `Nodes.IntegralInUnitIsBinary` | BranchBound/BranchAndBound.py:40-44 | an integral solution whose values lie in [0, 1] is a 0/1 assignment |
| `Nodes.Node.IsChildProblem` | BranchBound/BranchAndBound.py:46-48 | true iff the node has a candidate left |
| `Nodes.Node.ChoiceBranch` | BranchBound/BranchAndBound.py:59-62 | the branch index is the head of the candidates and the child candidates are the rest; the node's own candidates are unchanged |
| `Nodes.Branch` | BranchBound/BranchAndBound.py:50-57 | exactly two children, both with the parent's bounds and the tail of the parent's candidates; each model is the parent's plus one fixing of the head candidate, to 0 on the left and 1 on the right |
| `Nodes.Node.GetChildProblem` | BranchBound/BranchAndBound.py:50-57 | returns two fresh, distinct, unsolved nodes whose values are `Branch` of the parent's; records the children's models and candidates on the parent |
| `Search.ChoiceNode` | BranchBound/BranchAndBound.py:12-14 | the selected node followed by the remaining frontier is the old frontier: removes the front and keeps the rest in order |
| `Search.Range` | BranchBound/BranchAndBound.py:82 | the root's candidates are the indices 0 .. NumVars - 1 in order |
| `Search.Root` | BranchBound/BranchAndBound.py:80-82 | the root node, with bounds +infinity and 0 and candidates 0 .. NumVars - 1; its subtree measure is 2^(NumVars+1) - 1 |
| `Search.Process` | BranchBound/BranchAndBound.py:88-108 | one pass of the loop body on the selected node: both bound tests, the solve, the assertions, recording or branching. Its contract says only that the incumbent never drops, that a recorded node has no children, and that branching gives two; the lemmas of `SearchProperties` specify the rest |
| `Search.Run` | BranchBound/BranchAndBound.py:86-108 | the `while candidate_node` loop: select the front, `Process` it, append the children at the back, until the frontier is empty. Its contract says the final incumbent is at least the starting one; `RunSound` and the other lemmas specify the rest |
| `Search.Solve` | BranchBound/BranchAndBound.py:80-108 | the loop run from the root with incumbent 0 and no optimum; a finished run reports at least 0 (see `SearchSound`) |
| `Search.StepShrinks` | BranchBound/BranchAndBound.py:86-108 | one pass of the loop strictly lowers the termination measure of the frontier |
| `Search.ProcessKeepsBoundsOrdered` | BranchBound/BranchAndBound.py:55-56 | children of a node with ordered bounds have ordered bounds, so the constructor's assertion holds for them |
| `SearchProperties.RootWellFormed` | BranchBound/BranchAndBound.py:80-82 | the root fixes nothing, has ordered bounds, lower bound 0 and every variable as a candidate |
| `SearchProperties.BranchWellFormed` | BranchBound/BranchAndBound.py:50-62 | a node that fixes variables 0 .. k-1, has candidates k .. n-1 and lower bound 0 has children that fix 0 .. k, have candidates k+1 .. n-1 and keep lower bound 0 |
| `SearchProperties.ProcessSound` | BranchBound/BranchAndBound.py:99-104 | processing a node never lowers the incumbent, keeps it recorded from an integral relaxation of a subproblem, and yields well-formed children |
| `SearchProperties.RunSound` | BranchBound/BranchAndBound.py:86-108 | over a whole run from a well-formed frontier, the final incumbent is at least the initial one and stays recorded |
| `SearchProperties.SearchSound` | BranchBound/BranchAndBound.py:80-108 | a finished search reports at least 0; it reports no optimum iff the bound is still 0; a reported optimum is integral and is the solver's answer, with exactly that objective, for a subproblem that fixes a prefix of the variables to 0/1 |
| `SearchProperties.ChildrenKeepInitialLower` | BranchBound/BranchAndBound.py:55-56 | children of a node whose lower bound is 0 also have lower bound 0 |
| `SearchProperties.NegativeObjectiveAborts` | BranchBound/BranchAndBound.py:29-33 | a node with lower bound 0 that passes the first bound test and whose relaxation has a negative objective fails the assertion of `update_upper_bound` |
| `SearchProperties.SearchOptimumBinary` | BranchBound/BranchAndBound.py:99-104 | when every relaxation has values in [0, 1], a reported optimum is a 0/1 assignment |
| `SearchProperties.RootInfeasible` | BranchBound/BranchAndBound.py:91-94 | an infeasible root relaxation ends the search with lower bound 0 and no optimum |
| `SearchProperties.NegativeRootAborts` | BranchBound/BranchAndBound.py:29-33 | a root relaxation with a negative objective fails the assertion of `update_upper_bound` |
| `SearchProperties.BoundPruneSkipsOracle` | BranchBound/BranchAndBound.py:88-90 | a node with `upper_bound <= lower_bound` at selection is discarded, with the same outcome for every solver |
| `SearchProperties.PrunedAfterSolve` | BranchBound/BranchAndBound.py:95-98 | a node whose tightened bound does not beat the incumbent is neither recorded nor branched |
| `SearchProperties.IncumbentReplacement` | BranchBound/BranchAndBound.py:99-104 | the incumbent changes only to the objective and solution of an integral relaxation that is strictly better, and that node is not branched |
| `SearchProperties.IntegralSurvivorImproves` | BranchBound/BranchAndBound.py:99-104 | an integral node that passes both bound tests and both assertions always replaces the incumbent |
| `SearchProperties.BranchingCondition` | BranchBound/BranchAndBound.py:86-108 | a node is branched iff it passes both bound tests and the assertions, is feasible, is not integral and has a candidate |
| `SearchProperties.SelectedAtMostMeasure` | BranchBound/BranchAndBound.py:86-108 | the number of nodes a run selects is at most the frontier's measure |
| `SearchProperties.SearchVisitsAtMost` | BranchBound/BranchAndBound.py:86-108 | the search selects, and so solves, at most 2^(NumVars+1) - 1 nodes |
| `SearchProperties.StepKeepsLayers` | BranchBound/BranchAndBound.py:105-108 | popping the front and appending its two children at the back keeps the frontier ordered by depth, spanning at most two levels |
| `SearchProperties.SelectedByDepth` | BranchBound/BranchAndBound.py:86-108 | from a frontier ordered by depth, the nodes are selected in order of non-decreasing depth |
| `SearchProperties.SearchBreadthFirst` | BranchBound/BranchAndBound.py:86-108 | FIFO selection explores the tree level by level |
| `Driver.ProcessNode` | BranchBound/BranchAndBound.py:88-108 | one pass of the loop body on node objects gives exactly `Process` of the node's value: abort, or the appended children and the new incumbent |
| `Driver.Iterate` | BranchBound/BranchAndBound.py:87-108 | one iteration pops the front node, processes it and appends its children at the back, matching `Process` |
| `Driver.SolveBinaryProgram` | BranchBound/BranchAndBound.py:80-108 | the loop's outcome is `Solve(oracle, NumVars)`; a finished run satisfies what `SearchSound` states |

## Left out

- `heuristic_solve` (lines 5-10): a Gurobi call. It is the `Oracle` parameter and is given no semantics. Solver statuses other than infeasible are not modelled.
- Gurobi model operations (`model.relax()`, `model.copy()`, `addConstr`, `getVars()[i]`): a model is the sequence of fixings added to the relaxed root. Copying a model and adding a constraint to the copy becomes appending one fixing. The root instance itself lives inside the oracle.
- `Node.write` and `model.write` (file output), the construction of the example instance (lines 68-77) and the printing (lines 89, 93, 97, 110-111): I/O. The optimum 3 of the example depends on a real LP solver and is not stated.
- Floating point: objectives and values are Dafny `real`s. `float('inf')` is `Bound.Infinity`.
- Global optimality against brute-force enumeration: it would need the oracle to be a valid relaxation, which the code does not establish.
- Nodes.Node.constructor: the assertion at line 21 becomes a precondition, not a raised error. Every call in the model meets it.
- Nodes.Node.UpdateUpperBound: it requires the node's bounds to be ordered on entry. That is the class invariant, which every node in the frontier keeps.
- Nodes.Node.ChoiceBranch: the Python `choice_branch` takes a `candidate_vars` argument and ignores it, reading the node's own candidates instead. The model has no such argument.
- Python list aliasing: the frontier and the candidate lists are Dafny sequences, which are values. So "the node keeps its own copy" holds by construction, and `choice_node` returning the list it mutates becomes returning the rest of the frontier.
- Python's `AssertionError` is the outcome `BoundViolation`, with no further detail.
