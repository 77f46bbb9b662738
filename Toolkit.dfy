/** The analyser object: it keeps the allocation matrix, the maximum-demand
    matrix and the available vector for a fixed number of processes and
    resource types, checks shapes when they are replaced, runs the Banker's
    safety check, and builds the resource-allocation graph and searches it
    for a cycle. */
module Deadlock {

  import opened Shapes
  import opened Seqs
  import opened Banker
  import opened CycleSearch
  import opened AllocationGraph

  /** Why a setter refused its argument. */
  datatype ShapeError =
    | ResourceCountMismatch(expected: nat, got: nat)
    | AllocationShapeMismatch(rows: nat, cols: nat)
    | MaxDemandShapeMismatch(rows: nat, cols: nat)

  datatype Outcome = Pass | Fail(error: ShapeError)

  /** What a scenario run reports. */
  datatype Report = Report(safe: bool, deadlockDetected: bool, cycle: seq<Edge>)

  datatype ScenarioResult = Completed(report: Report) | Raised(error: ShapeError)

  class DeadlockToolkit {
    const numProcesses: nat
    const numResources: nat
    var allocation: seq<seq<int>>
    var maxDemand: seq<seq<int>>
    var available: seq<int>
    const graph: DiGraph

    /** The stored matrices and vector have the declared dimensions. */
    ghost predicate Valid()
      reads this, graph
    {
      && IsMatrix(allocation, numProcesses, numResources)
      && IsMatrix(maxDemand, numProcesses, numResources)
      && |available| == numResources
      && graph.Valid()
    }

    constructor (numProcesses: nat, numResources: nat)
      ensures Valid() && fresh(graph)
      ensures this.numProcesses == numProcesses && this.numResources == numResources
      ensures allocation == Zeros(numProcesses, numResources)
      ensures maxDemand == Zeros(numProcesses, numResources)
      ensures available == seq(numResources, _ => 0)
      ensures graph.nodes == {} && graph.edges == {}
    {
      this.numProcesses := numProcesses;
      this.numResources := numResources;
      allocation := Zeros(numProcesses, numResources);
      maxDemand := Zeros(numProcesses, numResources);
      available := seq(numResources, _ => 0);
      graph := new DiGraph();
    }

    /** Replaces the available vector, which must hold one value per
        resource type; otherwise nothing changes. */
    method SetResources(newAvailable: seq<int>) returns (outcome: Outcome)
      requires Valid()
      modifies this
      ensures Valid()
      ensures outcome.Fail? <==> |newAvailable| != numResources
      ensures outcome.Fail? ==> outcome.error == ResourceCountMismatch(numResources, |newAvailable|)
      ensures available == if outcome.Pass? then newAvailable else old(available)
      ensures allocation == old(allocation) && maxDemand == old(maxDemand)
    {
      if |newAvailable| != numResources {
        return Fail(ResourceCountMismatch(numResources, |newAvailable|));
      }
      available := newAvailable;
      outcome := Pass;
    }

    /** Replaces the allocation matrix, which must be numProcesses x
        numResources; otherwise nothing changes. */
    method SetAllocation(newAllocation: seq<seq<int>>) returns (outcome: Outcome)
      requires Valid()
      modifies this
      ensures Valid()
      ensures outcome.Fail? <==> !IsMatrix(newAllocation, numProcesses, numResources)
      ensures outcome.Fail? ==> outcome.error == AllocationShapeMismatch(numProcesses, numResources)
      ensures allocation == if outcome.Pass? then newAllocation else old(allocation)
      ensures maxDemand == old(maxDemand) && available == old(available)
    {
      if WrongMatrixShape(newAllocation, numProcesses, numResources) {
        return Fail(AllocationShapeMismatch(numProcesses, numResources));
      }
      allocation := newAllocation;
      outcome := Pass;
    }

    /** Replaces the maximum-demand matrix, which must be numProcesses x
        numResources; otherwise nothing changes. */
    method SetMaxDemand(newMaxDemand: seq<seq<int>>) returns (outcome: Outcome)
      requires Valid()
      modifies this
      ensures Valid()
      ensures outcome.Fail? <==> !IsMatrix(newMaxDemand, numProcesses, numResources)
      ensures outcome.Fail? ==> outcome.error == MaxDemandShapeMismatch(numProcesses, numResources)
      ensures maxDemand == if outcome.Pass? then newMaxDemand else old(maxDemand)
      ensures allocation == old(allocation) && available == old(available)
    {
      if WrongMatrixShape(newMaxDemand, numProcesses, numResources) {
        return Fail(MaxDemandShapeMismatch(numProcesses, numResources));
      }
      maxDemand := newMaxDemand;
      outcome := Pass;
    }

    /** The Banker's safety check. `work` starts as a copy of `available`;
        passes over the processes in index order finish every unfinished
        process whose remaining need fits in `work` and add its allocation
        back to `work`, until a pass finishes nobody. The answer is whether
        everybody finished. A "yes" always comes with a safe ordering (the
        order in which processes finished); a "no" means that no safe
        ordering exists whenever allocations are non-negative. */
    method IsSafeState() returns (safe: bool)
      requires Valid()
      ensures safe ==> SafeState(allocation, maxDemand, available)
      ensures NonNegative(allocation) && SafeState(allocation, maxDemand, available) ==> safe
    {
      var n, m := numProcesses, numResources;
      var availableCopy := available;
      var work := new int[m](r requires 0 <= r < m => availableCopy[r]);
      var finish := new bool[n](_ => false);
      // the processes in the order they finished
      ghost var order: seq<nat> := [];
      // passes that finished somebody
      ghost var passes: nat := 0;
      UnfinishedAtMost(finish[..]);
      while true
        invariant fresh(work) && fresh(finish)
        invariant Progress(allocation, maxDemand, available, work[..], finish[..], order)
        invariant passes + |Unfinished(finish[..])| <= n
        decreases Unfinished(finish[..])
      {
        ghost var finishBefore := finish[..];
        var anyAllocated;
        anyAllocated, order := Sweep(allocation, maxDemand, available, work, finish, order);
        if !anyAllocated {
          break;
        }
        FewerUnfinished(finishBefore, finish[..]);
        passes := passes + 1;
      }
      safe := forall i :: 0 <= i < n ==> finish[i];
      SafetyVerdict(allocation, maxDemand, available, work[..], finish[..], order);
    }

    /** Rebuilds the resource-allocation graph from scratch: exactly the
        nodes P0..P(N-1), R0..R(M-1) and exactly the edges the two matrices
        call for, whatever the graph held before. */
    method BuildResourceAllocationGraph()
      requires Valid()
      modifies graph
      ensures Valid()
      ensures graph.nodes == GraphNodes(numProcesses, numResources)
      ensures graph.edges == GraphEdges(numProcesses, numResources, allocation, maxDemand)
    {
      var n, m := numProcesses, numResources;
      graph.Clear();
      AddNodes(graph, n, m);
      for p := 0 to n
        invariant graph.Valid() && graph.nodes == GraphNodes(n, m)
        invariant graph.edges == EdgesBefore(n, m, allocation, maxDemand, p, 0)
      {
        AddRowEdges(graph, n, m, allocation, maxDemand, p);
      }
      EdgesBeforeAll(n, m, allocation, maxDemand);
    }

    /** Rebuilds the graph and searches it for a cycle: a simple cycle of
        graph edges when there is one, and (false, []) only when the graph
        has no cycle at all. */
    method DetectDeadlock() returns (deadlock: bool, cycle: seq<Edge>)
      requires Valid()
      modifies graph
      ensures Valid()
      ensures graph.nodes == GraphNodes(numProcesses, numResources)
      ensures graph.edges == GraphEdges(numProcesses, numResources, allocation, maxDemand)
      ensures deadlock ==> IsSimpleCycle(cycle, GraphEdges(numProcesses, numResources, allocation, maxDemand))
      ensures !deadlock ==> cycle == [] && !HasCycle(GraphEdges(numProcesses, numResources, allocation, maxDemand))
    {
      BuildResourceAllocationGraph();
      deadlock, cycle := FindCycle(graph.nodes, graph.edges);
    }

    /** Stores the three inputs in the order allocation, maximum demand,
        available (stopping at the first that is refused, the earlier ones
        staying stored), then runs both analyses. */
    method SimulateScenario(newAllocation: seq<seq<int>>, newMaxDemand: seq<seq<int>>, newAvailable: seq<int>)
      returns (result: ScenarioResult)
      requires Valid()
      modifies this, graph
      ensures Valid()
      ensures allocation == if IsMatrix(newAllocation, numProcesses, numResources) then newAllocation else old(allocation)
      ensures maxDemand ==
        if IsMatrix(newAllocation, numProcesses, numResources) && IsMatrix(newMaxDemand, numProcesses, numResources)
        then newMaxDemand else old(maxDemand)
      ensures available == if result.Completed? then newAvailable else old(available)
      ensures result.Raised? <==>
        !IsMatrix(newAllocation, numProcesses, numResources) || !IsMatrix(newMaxDemand, numProcesses, numResources)
        || |newAvailable| != numResources
      ensures result.Raised? ==>
        result.error == (if !IsMatrix(newAllocation, numProcesses, numResources) then AllocationShapeMismatch(numProcesses, numResources)
        else if !IsMatrix(newMaxDemand, numProcesses, numResources) then MaxDemandShapeMismatch(numProcesses, numResources)
        else ResourceCountMismatch(numResources, |newAvailable|))
      ensures result.Raised? ==> graph.nodes == old(graph.nodes) && graph.edges == old(graph.edges)
      ensures result.Completed? ==>
        graph.nodes == GraphNodes(numProcesses, numResources)
        && graph.edges == GraphEdges(numProcesses, numResources, allocation, maxDemand)
      ensures result.Completed? ==>
        var report := result.report;
        && (report.safe ==> SafeState(newAllocation, newMaxDemand, newAvailable))
        && (NonNegative(newAllocation) && SafeState(newAllocation, newMaxDemand, newAvailable) ==> report.safe)
        && (report.deadlockDetected ==>
              IsSimpleCycle(report.cycle, GraphEdges(numProcesses, numResources, newAllocation, newMaxDemand)))
        && (!report.deadlockDetected ==>
              report.cycle == [] && !HasCycle(GraphEdges(numProcesses, numResources, newAllocation, newMaxDemand)))
    {
      var outcome := SetAllocation(newAllocation);
      if outcome.Fail? {
        return Raised(outcome.error);
      }
      outcome := SetMaxDemand(newMaxDemand);
      if outcome.Fail? {
        return Raised(outcome.error);
      }
      outcome := SetResources(newAvailable);
      if outcome.Fail? {
        return Raised(outcome.error);
      }
      var safe := IsSafeState();
      var deadlock, cycle := DetectDeadlock();
      result := Completed(Report(safe, deadlock, cycle));
    }
  }

  /** Two processes and two resources: P0 holds R0 and wants R1, P1 holds
      R1 and wants R0, nothing is available. The state is unsafe and the
      cycle R0 -> P0 -> R1 -> P1 -> R0 is reported. */
  method CrossHoldingScenario() returns (report: Report)
    ensures !report.safe && report.deadlockDetected && |report.cycle| > 0
  {
    var toolkit := new DeadlockToolkit(2, 2);
    var result := toolkit.SimulateScenario([[1, 0], [0, 1]], [[1, 1], [1, 1]], [0, 0]);
    report := result.report;
    CrossHoldingReport(report);
  }

  /** A report that carries the scenario's guarantees for the cross-holding
      state says unsafe, deadlock, and a non-empty cycle. */
  lemma CrossHoldingReport(report: Report)
    requires NonNegative([[1, 0], [0, 1]]) && SafeState([[1, 0], [0, 1]], [[1, 1], [1, 1]], [0, 0]) ==> report.safe
    requires report.safe ==> SafeState([[1, 0], [0, 1]], [[1, 1], [1, 1]], [0, 0])
    requires report.deadlockDetected ==> IsSimpleCycle(report.cycle, GraphEdges(2, 2, [[1, 0], [0, 1]], [[1, 1], [1, 1]]))
    requires !report.deadlockDetected ==> !HasCycle(GraphEdges(2, 2, [[1, 0], [0, 1]], [[1, 1], [1, 1]]))
    ensures !report.safe && report.deadlockDetected && |report.cycle| > 0
  {
    CrossHoldingIsUnsafe();
    CrossHoldingHasCycle();
  }

  /** One process, one resource, everything zero: safe, and no deadlock. */
  method SingleIdleScenario() returns (report: Report)
    ensures report.safe && !report.deadlockDetected && report.cycle == []
  {
    var toolkit := new DeadlockToolkit(1, 1);
    var result := toolkit.SimulateScenario([[0]], [[0]], [0]);
    report := result.report;
    SingleIdleProcessIsSafe();
    NoAllocationNoCycle(1, 1, [[0]], [[0]]);
  }

  /** What the safety check keeps true of `work`, `finish` and the order
      in which processes finished: `finish` marks exactly the processes of
      `order`, each of them could finish in its turn, and `work` is
      `available` plus everything they released. */
  ghost predicate Progress(allocation: seq<seq<int>>, maxDemand: seq<seq<int>>, available: seq<int>,
                           work: seq<int>, finish: seq<bool>, order: seq<nat>)
    requires Snapshot(allocation, maxDemand, available)
  {
    && |work| == |available| && |finish| == |allocation|
    && Indices(order, |allocation|) && Distinct(order)
    && (forall i :: 0 <= i < |finish| ==> (finish[i] <==> i in order))
    && (forall r :: 0 <= r < |work| ==> work[r] == available[r] + Released(allocation, order, r))
    && (forall k :: 0 <= k < |order| ==> CanFinish(allocation, maxDemand, available, order[..k], order[k]))
  }

  /** Finishing an unfinished process whose need fits keeps `Progress`. */
  lemma FinishOne(allocation: seq<seq<int>>, maxDemand: seq<seq<int>>, available: seq<int>,
                  work: seq<int>, finish: seq<bool>, order: seq<nat>, i: nat)
    requires Snapshot(allocation, maxDemand, available)
    requires Progress(allocation, maxDemand, available, work, finish, order)
    requires i < |allocation| && !finish[i] && NeedFits(maxDemand[i], allocation[i], work)
    ensures Progress(allocation, maxDemand, available, Plus(work, allocation[i]), finish[i := true], order + [i])
  {
    var order' := order + [i];
    assert CanFinish(allocation, maxDemand, available, order, i);
    assert Distinct(order');
    forall k | 0 <= k < |order'| ensures CanFinish(allocation, maxDemand, available, order'[..k], order'[k]) {
      if k < |order| {
        assert order'[..k] == order[..k];
      } else {
        assert order'[..k] == order;
      }
    }
    forall r | 0 <= r < |work|
      ensures Plus(work, allocation[i])[r] == available[r] + Released(allocation, order', r)
    {
      assert order'[..|order'| - 1] == order;
    }
  }

  /** `work += allocation[i]` and `finish[i] = True`, in place. */
  method Release(work: array<int>, finish: array<bool>, row: seq<int>, i: nat)
    requires |row| == work.Length && i < finish.Length
    modifies work, finish
    ensures work[..] == Plus(old(work[..]), row)
    ensures finish[..] == old(finish[..])[i := true]
  {
    for r := 0 to work.Length
      invariant forall s :: 0 <= s < r ==> work[s] == old(work[s]) + row[s]
      invariant forall s :: r <= s < work.Length ==> work[s] == old(work[s])
      invariant unchanged(finish)
    {
      work[r] := work[r] + row[r];
    }
    finish[i] := true;
  }

  /** None of the unfinished processes among the first `i` has a need that
      fits in `work`. */
  ghost predicate Blocked(allocation: seq<seq<int>>, maxDemand: seq<seq<int>>, work: seq<int>, finish: seq<bool>, i: nat)
    requires Snapshot(allocation, maxDemand, work) && i <= |finish| == |allocation|
  {
    forall j :: 0 <= j < i && !finish[j] ==> !NeedFits(maxDemand[j], allocation[j], work)
  }

  lemma BlockedStep(allocation: seq<seq<int>>, maxDemand: seq<seq<int>>, work: seq<int>, finish: seq<bool>, i: nat)
    requires Snapshot(allocation, maxDemand, work) && i < |finish| == |allocation|
    requires Blocked(allocation, maxDemand, work, finish, i)
    requires !finish[i] ==> !NeedFits(maxDemand[i], allocation[i], work)
    ensures Blocked(allocation, maxDemand, work, finish, i + 1)
  {
  }

  /** After process `i`'s turn, with `work` at least the pass's starting
      `work0`: if `i` is still unfinished, its need did not fit `work0`
      either, so `Blocked` over `work0` extends to `i`. */
  lemma PassedOver(allocation: seq<seq<int>>, maxDemand: seq<seq<int>>, work0: seq<int>, workAt: seq<int>,
                   before: seq<bool>, after: seq<bool>, i: nat)
    requires Snapshot(allocation, maxDemand, work0) && |workAt| == |work0|
    requires i < |before| == |after| == |allocation|
    requires Blocked(allocation, maxDemand, work0, before, i)
    requires after == before || after == before[i := true]
    requires forall r :: 0 <= r < |work0| ==> work0[r] <= workAt[r]
    requires !after[i] ==> !NeedFits(maxDemand[i], allocation[i], workAt)
    ensures Blocked(allocation, maxDemand, work0, after, i + 1)
  {
    // a resource that did not suffice at i's turn did not suffice at the start
  }

  /** When the passes stop, the answer "everybody finished" is right: it
      comes with a safe ordering, and (allocations being non-negative) when
      somebody is left over no safe ordering exists. */
  lemma SafetyVerdict(allocation: seq<seq<int>>, maxDemand: seq<seq<int>>, available: seq<int>,
                      work: seq<int>, finish: seq<bool>, order: seq<nat>)
    requires Snapshot(allocation, maxDemand, available)
    requires Progress(allocation, maxDemand, available, work, finish, order)
    requires Blocked(allocation, maxDemand, work, finish, |finish|)
    ensures (forall i :: 0 <= i < |finish| ==> finish[i]) ==> SafeState(allocation, maxDemand, available)
    ensures NonNegative(allocation) && SafeState(allocation, maxDemand, available) ==>
      forall i :: 0 <= i < |finish| ==> finish[i]
  {
    if forall i :: 0 <= i < |finish| ==> finish[i] {
      assert IsSafeSequence(allocation, maxDemand, available, order);
    } else if NonNegative(allocation) {
      var p :| 0 <= p < |finish| && !finish[p];
      forall q | 0 <= q < |allocation| && q !in order ensures !CanFinish(allocation, maxDemand, available, order, q) {
        assert !NeedFits(maxDemand[q], allocation[q], work);
      }
      StuckMeansUnsafe(allocation, maxDemand, available, order, p);
    }
  }

  /** Process `i`'s turn in a pass: when it is unfinished and its need fits
      in `work`, it finishes and releases its allocation; otherwise nothing
      changes. */
  method TryFinish(allocation: seq<seq<int>>, maxDemand: seq<seq<int>>, available: seq<int>,
                   work: array<int>, finish: array<bool>, ghost order: seq<nat>, i: nat)
    returns (finished: bool, ghost order': seq<nat>)
    requires Snapshot(allocation, maxDemand, available)
    requires Progress(allocation, maxDemand, available, work[..], finish[..], order)
    requires i < |allocation|
    modifies work, finish
    ensures Progress(allocation, maxDemand, available, work[..], finish[..], order')
    ensures finished <==> !old(finish[i]) && NeedFits(maxDemand[i], allocation[i], old(work[..]))
    ensures finished ==> work[..] == Plus(old(work[..]), allocation[i]) && finish[..] == old(finish[..])[i := true]
    ensures !finished ==> work[..] == old(work[..]) && finish[..] == old(finish[..])
  {
    order' := order;
    finished := false;
    if !finish[i] && NeedFits(maxDemand[i], allocation[i], work[..]) {
      FinishOne(allocation, maxDemand, available, work[..], finish[..], order, i);
      Release(work, finish, allocation[i], i);
      order' := order + [i];
      finished := true;
    }
  }

  /** The state a pass leaves, from process `i`'s turn on: each unfinished
      process whose need fits in `work` at its turn finishes, and its
      allocation is added to `work` before the next process's turn. */
  function PassFrom(allocation: seq<seq<int>>, maxDemand: seq<seq<int>>, work: seq<int>, finish: seq<bool>, i: nat)
    : (after: (seq<int>, seq<bool>))
    requires Snapshot(allocation, maxDemand, work) && |finish| == |allocation|
    ensures |after.0| == |work| && |after.1| == |finish|
    ensures forall j :: 0 <= j < |finish| && finish[j] ==> after.1[j]
    decreases |finish| - i
  {
    if i >= |finish| then (work, finish)
    else if !finish[i] && NeedFits(maxDemand[i], allocation[i], work) then
      PassFrom(allocation, maxDemand, Plus(work, allocation[i]), finish[i := true], i + 1)
    else
      PassFrom(allocation, maxDemand, work, finish, i + 1)
  }

  /** Within one pass a process can use what an earlier process released:
      P0 holds the one unit and needs nothing more, P1 needs that unit; with
      nothing available the first pass finishes P0, then P1. */
  lemma LaterTurnUsesEarlierRelease()
    ensures PassFrom([[1], [0]], [[1], [1]], [0], [false, false], 0) == ([1], [true, true])
  {
    var allocation, maxDemand := [[1], [0]], [[1], [1]];
    // P0's turn: its need 0 fits, work becomes [1]
    assert NeedFits(maxDemand[0], allocation[0], [0]);
    assert Plus([0], allocation[0]) == [1];
    // P1's turn: its need 1 fits the unit P0 released
    assert NeedFits(maxDemand[1], allocation[1], [1]);
    assert Plus([1], allocation[1]) == [1];
    calc {
      PassFrom(allocation, maxDemand, [0], [false, false], 0);
      { assert [false, false][0 := true] == [true, false]; }
      PassFrom(allocation, maxDemand, [1], [true, false], 1);
      { assert [true, false][1 := true] == [true, true]; }
      PassFrom(allocation, maxDemand, [1], [true, true], 2);
    }
  }

  /** One pass of the safety check over the processes in index order; the
      new `work` and `finish` are those `PassFrom` gives, so a process can
      use what an earlier one released in the same pass. Reports whether it
      finished anybody; when it did not, nothing changed and every
      unfinished process is blocked. Finished processes stay finished. With
      non-negative allocations no entry of `work` decreases, and every
      process whose need fitted the pass's starting `work` is finished by
      the end of the pass. */
  method Sweep(allocation: seq<seq<int>>, maxDemand: seq<seq<int>>, available: seq<int>,
               work: array<int>, finish: array<bool>, ghost order: seq<nat>)
    returns (anyAllocated: bool, ghost order': seq<nat>)
    requires Snapshot(allocation, maxDemand, available)
    requires Progress(allocation, maxDemand, available, work[..], finish[..], order)
    modifies work, finish
    ensures Progress(allocation, maxDemand, available, work[..], finish[..], order')
    ensures (work[..], finish[..]) == PassFrom(allocation, maxDemand, old(work[..]), old(finish[..]), 0)
    ensures forall j :: 0 <= j < finish.Length && old(finish[j]) ==> finish[j]
    ensures NonNegative(allocation) ==> forall r :: 0 <= r < work.Length ==> old(work[r]) <= work[r]
    ensures anyAllocated ==> exists j :: 0 <= j < finish.Length && !old(finish[j]) && finish[j]
    ensures !anyAllocated ==> work[..] == old(work[..]) && finish[..] == old(finish[..])
    ensures !anyAllocated ==> Blocked(allocation, maxDemand, work[..], finish[..], finish.Length)
    ensures NonNegative(allocation) ==> Blocked(allocation, maxDemand, old(work[..]), finish[..], finish.Length)
  {
    ghost var work0, finish0 := work[..], finish[..];
    order' := order;
    anyAllocated := false;
    for i := 0 to finish.Length
      invariant Progress(allocation, maxDemand, available, work[..], finish[..], order')
      invariant PassFrom(allocation, maxDemand, work[..], finish[..], i) == PassFrom(allocation, maxDemand, work0, finish0, 0)
      invariant forall j :: 0 <= j < finish.Length && finish0[j] ==> finish[j]
      invariant NonNegative(allocation) ==> forall r :: 0 <= r < work.Length ==> work0[r] <= work[r]
      invariant anyAllocated ==> exists j :: 0 <= j < finish.Length && !finish0[j] && finish[j]
      // while nobody finished in this pass, everybody looked at was blocked
      invariant !anyAllocated ==> work[..] == work0 && finish[..] == finish0
      invariant !anyAllocated ==> Blocked(allocation, maxDemand, work0, finish0, i)
      // everybody looked at who would have fitted the starting work finished
      invariant NonNegative(allocation) ==> Blocked(allocation, maxDemand, work0, finish[..], i)
    {
      ghost var workAt, finishAt := work[..], finish[..];
      var finished;
      finished, order' := TryFinish(allocation, maxDemand, available, work, finish, order', i);
      if finished {
        anyAllocated := true;
        if NonNegative(allocation) {
          forall r | 0 <= r < work.Length ensures work0[r] <= work[r] {
            assert work[r] == workAt[r] + allocation[i][r] && allocation[i][r] >= 0;
          }
        }
      } else if !anyAllocated {
        BlockedStep(allocation, maxDemand, work0, finish0, i);
      }
      if NonNegative(allocation) {
        PassedOver(allocation, maxDemand, work0, workAt, finishAt, finish[..], i);
      }
    }
  }

  /** Adds the nodes P0..P(n-1), then R0..R(m-1), to an empty graph. */
  method AddNodes(g: DiGraph, n: nat, m: nat)
    requires g.Valid() && g.nodes == {} && g.edges == {}
    modifies g
    ensures g.Valid() && g.nodes == GraphNodes(n, m) && g.edges == {}
  {
    for p := 0 to n
      invariant g.Valid() && g.nodes == ProcessNodes(p) && g.edges == {}
    {
      g.AddNode(P(p));
      assert ProcessNodes(p + 1) == ProcessNodes(p) + {P(p)};
    }
    for r := 0 to m
      invariant g.Valid() && g.nodes == ProcessNodes(n) + ResourceNodes(r) && g.edges == {}
    {
      g.AddNode(R(r));
      assert ResourceNodes(r + 1) == ResourceNodes(r) + {R(r)};
    }
  }

  /** The edges of process row `p`: R_r -> P_p for each resource it holds,
      P_p -> R_r for each resource it may still request. */
  method AddRowEdges(g: DiGraph, n: nat, m: nat, allocation: seq<seq<int>>, maxDemand: seq<seq<int>>, p: nat)
    requires IsMatrix(allocation, n, m) && IsMatrix(maxDemand, n, m) && p < n
    requires g.Valid() && g.nodes == GraphNodes(n, m) && g.edges == EdgesBefore(n, m, allocation, maxDemand, p, 0)
    modifies g
    ensures g.Valid() && g.nodes == GraphNodes(n, m) && g.edges == EdgesBefore(n, m, allocation, maxDemand, p + 1, 0)
  {
    for r := 0 to m
      invariant g.Valid() && g.nodes == GraphNodes(n, m)
      invariant g.edges == EdgesBefore(n, m, allocation, maxDemand, p, r)
    {
      if allocation[p][r] > 0 {
        g.AddEdge(R(r), P(p));
      }
      if maxDemand[p][r] - allocation[p][r] > 0 {
        g.AddEdge(P(p), R(r));
      }
      EdgesBeforeStep(n, m, allocation, maxDemand, p, r);
    }
    EdgesBeforeNextRow(n, m, allocation, maxDemand, p);
  }

  /** A process's remaining need (`maxRow - allocRow`) fits in `work`,
      resource by resource. */
  predicate NeedFits(maxRow: seq<int>, allocRow: seq<int>, work: seq<int>)
    requires |maxRow| == |work| && |allocRow| == |work|
  {
    forall r :: 0 <= r < |work| ==> maxRow[r] - allocRow[r] <= work[r]
  }

  /** The processes not yet finished. */
  ghost function Unfinished(finish: seq<bool>): set<nat> {
    set i: nat | i < |finish| && !finish[i]
  }

  /** A pass that finishes somebody and unmarks nobody shrinks the set of
      unfinished processes. */
  lemma FewerUnfinished(before: seq<bool>, after: seq<bool>)
    requires |before| == |after|
    requires forall j :: 0 <= j < |after| && before[j] ==> after[j]
    requires exists j :: 0 <= j < |after| && !before[j] && after[j]
    ensures Unfinished(after) < Unfinished(before)
    ensures |Unfinished(after)| < |Unfinished(before)|
  {
    var j :| 0 <= j < |after| && !before[j] && after[j];
    assert j in Unfinished(before) - Unfinished(after);
    StrictSubsetCard(Unfinished(after), Unfinished(before));
  }

  /** At most |finish| processes are unfinished. */
  lemma UnfinishedAtMost(finish: seq<bool>)
    ensures |Unfinished(finish)| <= |finish|
  {
    if finish != [] {
      var last := |finish| - 1;
      var rest := Unfinished(finish[..last]);
      UnfinishedAtMost(finish[..last]);
      assert Unfinished(finish) <= rest + {last};
      assert |rest + {last}| <= |rest| + 1;
      SubsetCard(Unfinished(finish), rest + {last});
    }
  }

  lemma SubsetCard<T>(a: set<T>, b: set<T>)
    requires a <= b
    ensures |a| <= |b|
  {
    assert b == a + (b - a);
  }

  lemma StrictSubsetCard<T>(a: set<T>, b: set<T>)
    requires a < b
    ensures |a| < |b|
  {
    assert !(b <= a);
    var x :| x in b && x !in a;
    SubsetCard(a, b - {x});
  }

  lemma EdgesBeforeStep(n: nat, m: nat, allocation: seq<seq<int>>, maxDemand: seq<seq<int>>, p: nat, r: nat)
    requires IsMatrix(allocation, n, m) && IsMatrix(maxDemand, n, m) && p < n && r < m
    ensures EdgesBefore(n, m, allocation, maxDemand, p, r + 1) ==
      EdgesBefore(n, m, allocation, maxDemand, p, r)
      + (if allocation[p][r] > 0 then {(R(r), P(p))} else {})
      + (if maxDemand[p][r] - allocation[p][r] > 0 then {(P(p), R(r))} else {})
  {
  }

  lemma EdgesBeforeNextRow(n: nat, m: nat, allocation: seq<seq<int>>, maxDemand: seq<seq<int>>, p: nat)
    requires IsMatrix(allocation, n, m) && IsMatrix(maxDemand, n, m) && p < n
    ensures EdgesBefore(n, m, allocation, maxDemand, p, m) == EdgesBefore(n, m, allocation, maxDemand, p + 1, 0)
  {
  }

  lemma EdgesBeforeAll(n: nat, m: nat, allocation: seq<seq<int>>, maxDemand: seq<seq<int>>)
    requires IsMatrix(allocation, n, m) && IsMatrix(maxDemand, n, m)
    ensures EdgesBefore(n, m, allocation, maxDemand, n, 0) == GraphEdges(n, m, allocation, maxDemand)
  {
  }
}
