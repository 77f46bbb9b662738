/** The resource-allocation graph: one node per process and one per
    resource type, an assignment edge R_r -> P_p for every resource a process
    holds, and a request edge P_p -> R_r for every resource it may still ask
    for. Also the small directed-graph object the toolkit keeps the graph in. */
module AllocationGraph {

  import opened Shapes
  import opened CycleSearch

  /** Process node `P<i>` or resource node `R<i>`. */
  datatype Node = P(index: nat) | R(index: nat)

  type Edge = (Node, Node)

  function ProcessNodes(n: nat): set<Node> {
    set p: nat | p < n :: P(p)
  }

  function ResourceNodes(m: nat): set<Node> {
    set r: nat | r < m :: R(r)
  }

  /** The nodes P0..P(n-1) and R0..R(m-1). */
  function GraphNodes(n: nat, m: nat): set<Node> {
    ProcessNodes(n) + ResourceNodes(m)
  }

  /** The edge rule: resource r is held by process p, or process p may
      still request more of resource r than it holds. */
  ghost predicate IsEdge(n: nat, m: nat, allocation: seq<seq<int>>, maxDemand: seq<seq<int>>, e: Edge)
    requires IsMatrix(allocation, n, m) && IsMatrix(maxDemand, n, m)
  {
    match e
    case (R(r), P(p)) => p < n && r < m && allocation[p][r] > 0
    case (P(p), R(r)) => p < n && r < m && maxDemand[p][r] - allocation[p][r] > 0
    case _ => false
  }

  /** The edge set of the graph built from `allocation` and `maxDemand`. */
  ghost function GraphEdges(n: nat, m: nat, allocation: seq<seq<int>>, maxDemand: seq<seq<int>>): (edges: set<Edge>)
    requires IsMatrix(allocation, n, m) && IsMatrix(maxDemand, n, m)
    ensures EdgesWithin(GraphNodes(n, m), edges)
    ensures forall p: nat, r: nat :: (R(r), P(p)) in edges <==> p < n && r < m && allocation[p][r] > 0
    ensures forall p: nat, r: nat :: (P(p), R(r)) in edges <==> p < n && r < m && maxDemand[p][r] - allocation[p][r] > 0
    ensures forall e :: e in edges ==> e.0.P? != e.1.P?
  {
    var nodes := GraphNodes(n, m);
    var edges := set u, v | u in nodes && v in nodes && IsEdge(n, m, allocation, maxDemand, (u, v)) :: (u, v);
    assert forall p: nat, r: nat :: p < n && r < m ==> P(p) in nodes && R(r) in nodes;
    edges
  }

  /** The process end and the resource end of an edge. */
  function ProcessOf(e: Edge): nat {
    if e.0.P? then e.0.index else e.1.index
  }

  function ResourceOf(e: Edge): nat {
    if e.0.R? then e.0.index else e.1.index
  }

  /** The edges contributed by process rows before `p`, and by the first `r`
      columns of row `p`. */
  ghost function EdgesBefore(n: nat, m: nat, allocation: seq<seq<int>>, maxDemand: seq<seq<int>>, p: nat, r: nat): set<Edge>
    requires IsMatrix(allocation, n, m) && IsMatrix(maxDemand, n, m)
  {
    set e | e in GraphEdges(n, m, allocation, maxDemand) && (ProcessOf(e) < p || (ProcessOf(e) == p && ResourceOf(e) < r))
  }

  /** Every cycle of the graph contains an assignment edge and a request
      edge, so some process holds a resource and some process still needs
      one. */
  lemma CycleHoldsAndWaits(n: nat, m: nat, allocation: seq<seq<int>>, maxDemand: seq<seq<int>>, w: seq<Edge>)
    requires IsMatrix(allocation, n, m) && IsMatrix(maxDemand, n, m)
    requires IsClosedWalk(w, GraphEdges(n, m, allocation, maxDemand))
    ensures exists k :: 0 <= k < |w| && w[k].0.R? && w[k].1.P?
    ensures exists k :: 0 <= k < |w| && w[k].0.P? && w[k].1.R?
    ensures exists p, r :: 0 <= p < n && 0 <= r < m && allocation[p][r] > 0
    ensures exists p, r :: 0 <= p < n && 0 <= r < m && maxDemand[p][r] - allocation[p][r] > 0
  {
    // an edge joins a process and a resource, so w[0] and w[1] are one of each
  }

  /** When no process holds anything there are no assignment edges, so the
      graph has no cycle and no deadlock is reported. */
  lemma NoAllocationNoCycle(n: nat, m: nat, allocation: seq<seq<int>>, maxDemand: seq<seq<int>>)
    requires IsMatrix(allocation, n, m) && IsMatrix(maxDemand, n, m)
    requires forall p, r :: 0 <= p < n && 0 <= r < m ==> allocation[p][r] <= 0
    ensures !HasCycle(GraphEdges(n, m, allocation, maxDemand))
  {
    if w :| IsClosedWalk(w, GraphEdges(n, m, allocation, maxDemand)) {
      CycleHoldsAndWaits(n, m, allocation, maxDemand, w);
    }
  }

  /** A process that holds some of a resource and may still request more of
      the same resource closes a two-edge cycle R_r -> P_p -> R_r. */
  lemma HoldAndWantSameResourceIsCycle(n: nat, m: nat, allocation: seq<seq<int>>, maxDemand: seq<seq<int>>, p: nat, r: nat)
    requires IsMatrix(allocation, n, m) && IsMatrix(maxDemand, n, m)
    requires p < n && r < m && allocation[p][r] > 0 && maxDemand[p][r] - allocation[p][r] > 0
    ensures IsClosedWalk([(R(r), P(p)), (P(p), R(r))], GraphEdges(n, m, allocation, maxDemand))
    ensures HasCycle(GraphEdges(n, m, allocation, maxDemand))
  {
  }

  /** P0 holds R0 and wants R1, P1 holds R1 and wants R0: the cycle
      R0 -> P0 -> R1 -> P1 -> R0. */
  lemma CrossHoldingHasCycle()
    ensures IsClosedWalk([(R(0), P(0)), (P(0), R(1)), (R(1), P(1)), (P(1), R(0))],
                         GraphEdges(2, 2, [[1, 0], [0, 1]], [[1, 1], [1, 1]]))
    ensures HasCycle(GraphEdges(2, 2, [[1, 0], [0, 1]], [[1, 1], [1, 1]]))
  {
    var w := [(R(0), P(0)), (P(0), R(1)), (R(1), P(1)), (P(1), R(0))];
    assert IsClosedWalk(w, GraphEdges(2, 2, [[1, 0], [0, 1]], [[1, 1], [1, 1]]));
  }

  /** A directed graph object: a node set and an edge set, updated in place. */
  class DiGraph {
    var nodes: set<Node>
    var edges: set<Edge>

    /** Every edge joins two nodes of the graph. */
    ghost predicate Valid()
      reads this
    {
      EdgesWithin(nodes, edges)
    }

    constructor ()
      ensures Valid() && nodes == {} && edges == {}
    {
      nodes, edges := {}, {};
    }

    /** Removes every node and every edge. */
    method Clear()
      modifies this
      ensures Valid() && nodes == {} && edges == {}
    {
      nodes, edges := {}, {};
    }

    method AddNode(v: Node)
      requires Valid()
      modifies this
      ensures Valid() && nodes == old(nodes) + {v} && edges == old(edges)
    {
      nodes := nodes + {v};
    }

    /** Adds the edge u -> v, adding its end nodes when they are missing. */
    method AddEdge(u: Node, v: Node)
      requires Valid()
      modifies this
      ensures Valid() && nodes == old(nodes) + {u, v} && edges == old(edges) + {(u, v)}
    {
      nodes := nodes + {u, v};
      edges := edges + {(u, v)};
    }
  }
}
