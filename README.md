# Deadlock toolkit: safety check and resource-allocation graph, in Dafny

This project models `DeadlockToolkit`, a small analyser of resource-allocation
state for a fixed number N of processes and M of resource types. It keeps
three values:

- an N×M allocation matrix (units of each resource each process holds);
- an N×M maximum-demand matrix;
- an M-vector of available units.

It answers two questions about them:

- **Safety (Banker's algorithm).** Starting from `work = available`, passes
  over the processes in index order finish every unfinished process whose
  remaining need (`maxDemand[i] - allocation[i]`) fits in `work`, and add its
  allocation back to `work`. The passes stop when one finishes nobody. The
  state is safe when every process finished.
- **Deadlock (graph cycle).** The resource-allocation graph has nodes
  `P0..P(N-1)` and `R0..R(M-1)`. It has an assignment edge `R_r → P_p` when
  `allocation[p][r] > 0` and a request edge `P_p → R_r` when
  `maxDemand[p][r] - allocation[p][r] > 0`. A deadlock is reported when this
  graph has a directed cycle.

Files and modules:

- `Shapes.dfy` (`Shapes`): matrix shape, the setters' rejection test,
  componentwise vector sum, the zero matrix.
- `Seqs.dfy` (`Seqs`): element set, distinctness and first index of a sequence.
- `Banker.dfy` (`Banker`): what "safe" means, stated without the algorithm.
  A state is safe when some ordering of all processes exists in which each
  one's remaining need fits in `available` plus what the processes before it
  released. The module also holds the lemmas behind the greedy algorithm's
  correctness.
- `CycleSearch.dfy` (`CycleSearch`): closed walks and cycles of a directed
  graph, and a depth-first cycle search proved to return a simple cycle, or
  "none" only when the graph has no cycle.
- `AllocationGraph.dfy` (`AllocationGraph`): the `Node` type, the edge rule,
  the graph object (`DiGraph`: a node set and an edge set, changed in place by
  `Clear`, `AddNode`, `AddEdge`), and lemmas about the graph.
- `Toolkit.dfy` (`Deadlock`): the `DeadlockToolkit` class. Its setters, the
  safety check and the graph construction are imperative. Its fields are
  overwritten in place. The safety check works on arrays `work` and `finish`
  with nested loops.

Each setter either stores its argument or, when the shape is wrong, returns
`Fail(...)` and changes nothing. The source raises `ValueError` in that case.
`detect_deadlock` calls a library cycle finder and turns its "no cycle"
exception into `(False, [])`. Here that finder is replaced by our own
depth-first search. It returns `(false, [])` explicitly.

The code, and so the model, does not reject negative entries, does not
check `allocation ≤ maxDemand`, and accepts N = 0 and M = 0. The safety loop
makes at most N+1 passes; the last one finishes nobody.

## Model

| member | source | states |
|---|---|---|
| `Deadlock.DeadlockToolkit.constructor` | deadlock.py:6-12 | the counts are stored, both matrices are the N×M zero matrix, `available` is M zeros, the graph is a fresh empty graph, and the shape invariant holds |
| `Deadlock.DeadlockToolkit.SetResources` | deadlock.py:14-17 | fails exactly when the vector's length is not M, with that count in the error; on failure `available` is unchanged, on success it is the given vector; the matrices never change |
| `Deadlock.DeadlockToolkit.SetAllocation` | deadlock.py:19-22 | fails exactly when the row count is not N or some row is not M long; on success the allocation is exactly the input, on failure unchanged; the other fields never change |
| `Deadlock.DeadlockToolkit.SetMaxDemand` | deadlock.py:24-27 | the same shape contract for the maximum-demand matrix; allocation and available never change |
| `Shapes.WrongMatrixShape` | deadlock.py:20 | the setters' test "wrong row count, or some row of wrong length" holds exactly when the input is not an N×M matrix |
| `Shapes.Zeros` | deadlock.py:9-10 | the initial matrix has the declared shape, and every entry is zero |
| `Shapes.Plus` | deadlock.py:37 | componentwise sum: same length, each entry the sum of the two entries |
| `Deadlock.Release` | deadlock.py:37-38 | `work` becomes `work + allocation[i]` componentwise and only `finish[i]` changes, to true |
| `Deadlock.FinishOne` | deadlock.py:36-38 | finishing an unfinished process whose need fits in `work` keeps the loop's invariant: `finish` marks exactly the finished processes, each could finish in its turn, and `work` is `available` plus their released allocations |
| `Deadlock.TryFinish` | deadlock.py:36-39 | process `i` finishes exactly when it was unfinished and its need fitted in `work`; then `work` gains its allocation and only `finish[i]` changes; otherwise nothing changes; the invariant is kept either way |
| `Deadlock.PassFrom` | deadlock.py:35-39 | the state a pass leaves from a given turn on: lengths are kept and no finished process is unmarked; a process that fits the `work` of its turn finishes and its allocation is added before the next turn |
| `Deadlock.LaterTurnUsesEarlierRelease` | deadlock.py:35-39 | with nothing available, P0 holding the one unit it needs and P1 needing that unit, a single pass finishes both: P1 uses what P0 released in the same pass |
| `Deadlock.Sweep` | deadlock.py:34-40 | one pass: the new `work` and `finish` are exactly `PassFrom` of the old ones, so each process is tested against `work` as it stands at its turn; keeps the invariant; a finished process is never unmarked; with non-negative allocations no entry of `work` decreases, and every process whose need fitted the pass's starting `work` is finished by the end of the pass; if it reports progress, some process went from unfinished to finished; if not, `work` and `finish` are unchanged and every unfinished process's need does not fit in `work` |
| `Deadlock.PassedOver` | deadlock.py:35-36 | a process left unfinished at its turn, when `work` at that turn is at least the pass's starting `work`, did not fit the starting `work` either |
| `Deadlock.SafetyVerdict` | deadlock.py:40-42 | when a pass finished nobody, "all finished" implies a safe ordering exists and, with non-negative allocations, a safe ordering existing implies all finished |
| `Deadlock.DeadlockToolkit.IsSafeState` | deadlock.py:29-42 | "safe" implies a safe ordering of all processes exists; with non-negative allocations, a safe ordering existing implies "safe" (both directions of the Banker's correctness); the `while True` loop is proved to terminate, since every pass that finishes somebody shrinks the unfinished set |
| `Banker.ReleasedSubset` | deadlock.py:37 | with non-negative allocations, a group of processes releases no more than any group containing it, so `work` never decreases as processes finish |
| `Banker.StuckMeansUnsafe` | deadlock.py:33-42 | greedy-fixpoint correctness: if no unfinished process fits in what the finished ones released and some process is unfinished, then no safe ordering exists (non-negative allocations) |
| `Banker.AllNeedsFitIsSafe` | deadlock.py:36 | if every process's remaining need fits in `available` on its own, the state is safe (non-negative allocations) |
| `Banker.CrossHoldingIsUnsafe` | deadlock.py:29-42 | two processes, each holding one resource and wanting the other's, nothing available: no safe ordering exists |
| `Banker.SingleIdleProcessIsSafe` | deadlock.py:29-42 | one process and one resource, all zero: safe |
| `AllocationGraph.GraphEdges` | deadlock.py:59-64 | `R_r→P_p` is an edge exactly when `allocation[p][r] > 0`; `P_p→R_r` exactly when `maxDemand[p][r] - allocation[p][r] > 0`; every edge joins a process and a resource, both nodes of the graph |
| `AllocationGraph.DiGraph.constructor` | deadlock.py:12 | a new graph is empty and valid |
| `AllocationGraph.DiGraph.Clear` | deadlock.py:53 | no nodes and no edges remain |
| `AllocationGraph.DiGraph.AddNode` | deadlock.py:55 | adds the node, edges unchanged |
| `AllocationGraph.DiGraph.AddEdge` | deadlock.py:62 | adds the edge and its end nodes; every edge still joins two nodes |
| `Deadlock.AddNodes` | deadlock.py:54-57 | an empty graph gets exactly the nodes `P0..P(N-1)` and `R0..R(M-1)`, and no edge |
| `Deadlock.AddRowEdges` | deadlock.py:60-64 | row `p`'s pass adds exactly the assignment and request edges of process `p` to those of the earlier rows, and no node |
| `Deadlock.DeadlockToolkit.BuildResourceAllocationGraph` | deadlock.py:52-64 | afterwards the nodes are exactly `P0..P(N-1)`, `R0..R(M-1)` and the edges are exactly those of `GraphEdges`, whatever the graph held before |
| `CycleSearch.Visit` | deadlock.py:47 | a depth-first visit either returns a simple cycle of graph edges, or finishes the node in an order in which every edge goes from a later-finished node to an earlier one |
| `CycleSearch.GrayCycle` | deadlock.py:47 | an edge from the top of the gray path back to a gray node closes a simple cycle of graph edges |
| `CycleSearch.FinishLast` | deadlock.py:47 | once all successors of a node are finished, finishing it last keeps every edge pointing from a later-finished node to an earlier one |
| `CycleSearch.WalkDescends` | deadlock.py:47-50 | along a walk, positions in that finishing order strictly decrease |
| `CycleSearch.AcyclicWhenAllFinished` | deadlock.py:49-50 | once every node is finished in such an order, the graph has no closed walk |
| `CycleSearch.FindCycle` | deadlock.py:46-50 | returns `(true, c)` with `c` a non-empty simple cycle of consecutive graph edges, the last returning to the first edge's source; returns `(false, [])` exactly when the graph has no cycle |
| `Deadlock.DeadlockToolkit.DetectDeadlock` | deadlock.py:44-50 | rebuilds the graph; reports a simple cycle of it, or `(false, [])` only when the built graph has no cycle |
| `AllocationGraph.CycleHoldsAndWaits` | deadlock.py:59-64 | every closed walk of the graph has some step that is an assignment edge `R→P` and some step that is a request edge `P→R`; hence some allocation entry is positive and some remaining need is positive |
| `AllocationGraph.NoAllocationNoCycle` | deadlock.py:61-62 | when no allocation is positive there is no `R→P` edge, hence no cycle and no deadlock reported |
| `AllocationGraph.HoldAndWantSameResourceIsCycle` | deadlock.py:61-64 | a process that holds part of a resource and may request more of it makes `R_r→P_p→R_r` a closed walk of the graph, so the graph has a cycle |
| `AllocationGraph.CrossHoldingHasCycle` | deadlock.py:59-64 | with allocation `[[1,0],[0,1]]` and maximum demand `[[1,1],[1,1]]`, `R0→P0→R1→P1→R0` is a closed walk of the graph, so the graph has a cycle |
| `Deadlock.DeadlockToolkit.SimulateScenario` | deadlock.py:72-85 | the inputs are stored in the order allocation, maximum demand, available, stopping at the first refused one (earlier ones stay stored, the graph is untouched, the error is the first refusal's); when all are accepted, the graph is left holding exactly `GraphNodes` and the `GraphEdges` of the new matrices, "safe" implies a safe ordering exists (and the converse with non-negative allocations), and the deadlock flag and cycle carry `DetectDeadlock`'s guarantees on the new matrices |
| `Deadlock.CrossHoldingScenario` | deadlock.py:72-85 | the two-process cross-holding scenario is reported unsafe, with a deadlock and a non-empty cycle |
| `Deadlock.CrossHoldingReport` | deadlock.py:81-85 | any report carrying the scenario's guarantees for the cross-holding state says unsafe, deadlock, and a non-empty cycle |
| `Deadlock.SingleIdleScenario` | deadlock.py:72-85 | the one-process all-zero scenario is reported safe, with no deadlock and an empty cycle |

## Left out

- `visualize_graph` and the per-node `color` attribute: they only serve drawing.
- `get_user_input` and the `__main__` block: interactive terminal input, re-prompting and printing.
- The `print` calls and the `visualize_graph` call inside `simulate_scenario`: output only.
- The cycle finder's own traversal order, and the `'forward'` direction tag it attaches to each edge. The model's cycle is a list of `(from, to)` node pairs, and which cycle is found is not specified.
- Node names `'P<p>'` and `'R<r>'` are modelled as the constructors `P(p)` and `R(r)`. The names are distinct for distinct indices, so nothing is lost.
- Deadlock.DeadlockToolkit.constructor: a negative count makes `np.zeros` raise `ValueError` in the source (which the `__main__` block catches and prints); the model's counts are `nat`, so that error path is not modelled.
- numpy: `dtype=int` conversion of the inputs, and 64-bit integer overflow in `work += allocation[i]` and `max_demand - allocation`. The model uses unbounded integers.
- The nested loops of `is_safe_state` and `build_resource_allocation_graph` are split into separate methods so that each proof stays small. The safety check uses `Sweep` (one pass), `TryFinish` (one process's turn) and `Release` (`work += allocation[i]; finish[i] = True`). The graph build uses `AddNodes` and `AddRowEdges`. They take the matrices as arguments and do not read the toolkit object. Their loops and order of updates are the source's.
- Deadlock.DeadlockToolkit.IsSafeState: the "not safe means no safe ordering exists" direction is proved only for non-negative allocations. The source never checks the sign. With a negative allocation, finishing a process shrinks `work`, so the greedy passes can miss an ordering that exists.
- Banker.StuckMeansUnsafe: needs non-negative allocations, for the same reason.
- Banker.AllNeedsFitIsSafe: needs non-negative allocations. Otherwise an early finisher can shrink `work` below a later process's need.
