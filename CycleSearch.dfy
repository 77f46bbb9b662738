/** Directed-cycle search over a finite graph given by its node set and its
    edge set, by depth-first search with a stack of "gray" nodes (the current
    path) and a list of finished ("black") nodes.

    A found cycle is reported, like a cycle finder reports it, as the list of
    its directed edges in traversal order. When the search finishes without a
    cycle, the order in which nodes were finished is a topological order of
    the graph (every edge goes from a later-finished node to an earlier one),
    which is what makes the answer "acyclic" trustworthy. */
module CycleSearch {

  import opened Seqs

  /** Every edge of `edges` joins two nodes of `nodes` (a graph invariant). */
  ghost predicate EdgesWithin<T>(nodes: set<T>, edges: set<(T, T)>) {
    forall e :: e in edges ==> e.0 in nodes && e.1 in nodes
  }

  /** Consecutive nodes of `path` are joined by edges. */
  ghost predicate IsPath<T>(path: seq<T>, edges: set<(T, T)>) {
    forall k :: 0 <= k < |path| - 1 ==> (path[k], path[k + 1]) in edges
  }

  /** A non-empty sequence of graph edges, each ending where the next one
      begins, the last one ending where the first one begins. */
  ghost predicate IsClosedWalk<T>(w: seq<(T, T)>, edges: set<(T, T)>) {
    && |w| > 0
    && (forall k :: 0 <= k < |w| ==> w[k] in edges)
    && (forall k :: 0 <= k < |w| - 1 ==> w[k].1 == w[k + 1].0)
    && w[|w| - 1].1 == w[0].0
  }

  /** A closed walk that passes through no node twice. */
  ghost predicate IsSimpleCycle<T>(w: seq<(T, T)>, edges: set<(T, T)>) {
    IsClosedWalk(w, edges) && forall i, j :: 0 <= i < j < |w| ==> w[i].0 != w[j].0
  }

  ghost predicate HasCycle<T(!new)>(edges: set<(T, T)>) {
    exists w :: IsClosedWalk(w, edges)
  }

  /** The edges that go around `path` and back to its first node. */
  function CycleThrough<T>(path: seq<T>): (w: seq<(T, T)>)
    requires |path| > 0
    ensures |w| == |path|
    ensures forall k :: 0 <= k < |path| - 1 ==> w[k] == (path[k], path[k + 1])
    ensures w[|path| - 1] == (path[|path| - 1], path[0])
  {
    seq(|path|, k requires 0 <= k < |path| =>
      (path[k], if k + 1 < |path| then path[k + 1] else path[0]))
  }

  /** Closing a path by an edge from its last node back to its first node
      gives a cycle, a simple one when the path repeats no node. */
  lemma CloseCycle<T>(path: seq<T>, edges: set<(T, T)>)
    requires |path| > 0 && IsPath(path, edges) && Distinct(path)
    requires (path[|path| - 1], path[0]) in edges
    ensures IsSimpleCycle(CycleThrough(path), edges)
  {
  }

  /** `finished` is closed under successors, and every edge between two of
      its nodes goes from a later position to an earlier one. */
  ghost predicate FinishedInOrder<T>(finished: seq<T>, edges: set<(T, T)>) {
    && (forall e :: e in edges && e.0 in finished ==> e.1 in finished)
    && (forall i, j :: 0 <= i < |finished| && 0 <= j < |finished| && (finished[i], finished[j]) in edges ==> j < i)
  }

  /** Along a walk whose nodes are all finished, positions in the finishing
      order strictly decrease. */
  lemma {:induction false} WalkDescends<T>(w: seq<(T, T)>, edges: set<(T, T)>, finished: seq<T>, k: nat)
    requires FinishedInOrder(finished, edges)
    requires |w| > 0 && w[0].0 in finished
    requires forall i :: 0 <= i < |w| ==> w[i] in edges
    requires forall i :: 0 <= i < |w| - 1 ==> w[i].1 == w[i + 1].0
    requires k < |w|
    ensures w[k].1 in finished
    ensures IndexOf(finished, w[k].1) + k < IndexOf(finished, w[0].0)
  {
    var src := w[k].0;
    if k == 0 {
    } else {
      WalkDescends(w, edges, finished, k - 1);
      assert src == w[k - 1].1;
    }
    assert src in finished;
    var i := IndexOf(finished, src);
    assert w[k].0 in finished;
    var j := IndexOf(finished, w[k].1);
    assert (finished[i], finished[j]) in edges;
  }

  /** A graph all of whose nodes are finished in order has no cycle. */
  lemma AcyclicWhenAllFinished<T(!new)>(nodes: set<T>, edges: set<(T, T)>, finished: seq<T>)
    requires EdgesWithin(nodes, edges)
    requires nodes <= Elems(finished)
    requires FinishedInOrder(finished, edges)
    ensures !HasCycle(edges)
  {
    if w :| IsClosedWalk(w, edges) {
      assert w[0] in edges;
      WalkDescends(w, edges, finished, |w| - 1);
    }
  }

  /** An edge from the top `u` of a distinct gray path back to a gray node
      `v` closes the simple cycle through the path's part from `v` on. */
  lemma GrayCycle<T>(stack: seq<T>, u: T, v: T, edges: set<(T, T)>)
    requires IsPath(stack + [u], edges) && Distinct(stack) && u !in stack
    requires v in stack + [u] && (u, v) in edges
    ensures IsSimpleCycle(CycleThrough((stack + [u])[IndexOf(stack + [u], v)..]), edges)
  {
    var path := stack + [u];
    CloseCycle(path[IndexOf(path, v)..], edges);
  }

  /** Pushing `u` onto a distinct gray path and stepping along an edge to
      `v` gives a path again, and the pushed path is still distinct. */
  lemma ExtendPath<T>(stack: seq<T>, u: T, v: T, edges: set<(T, T)>)
    requires IsPath(stack + [u], edges) && Distinct(stack) && u !in stack
    requires (u, v) in edges
    ensures IsPath(stack + [u] + [v], edges) && Distinct(stack + [u])
  {
  }

  /** Once all successors of `u` are finished, finishing `u` last keeps the
      order. */
  lemma FinishLast<T>(finished: seq<T>, u: T, successors: set<T>, edges: set<(T, T)>)
    requires FinishedInOrder(finished, edges) && u !in finished
    requires forall e :: e in edges && e.0 == u ==> e.1 in successors
    requires forall v :: v in successors ==> v in finished
    ensures FinishedInOrder(finished + [u], edges)
  {
  }

  /** Depth-first visit of the unvisited node `u`, entered along the gray
      path `stack`; `finished` holds the black nodes. Either a simple cycle
      is returned, or `u` and everything reachable from it end up finished,
      in an order that keeps `FinishedInOrder`. */
  method Visit<T(==)>(nodes: set<T>, edges: set<(T, T)>, u: T, stack: seq<T>, finished: seq<T>)
    returns (found: bool, cycle: seq<(T, T)>, finished': seq<T>)
    requires EdgesWithin(nodes, edges)
    requires u in nodes && u !in stack && u !in finished
    requires Elems(stack) <= nodes && Elems(finished) <= nodes
    requires IsPath(stack + [u], edges) && Distinct(stack)
    requires Elems(stack) !! Elems(finished)
    requires FinishedInOrder(finished, edges)
    ensures found ==> IsSimpleCycle(cycle, edges)
    ensures !found ==> cycle == []
    ensures !found ==> FinishedInOrder(finished', edges)
    ensures !found ==> Elems(finished) <= Elems(finished') <= nodes
    ensures !found ==> u in finished' && Elems(stack) !! Elems(finished')
    decreases nodes - Elems(stack) - Elems(finished)
  {
    var path := stack + [u];
    var successors := set e | e in edges && e.0 == u :: e.1;
    var todo := successors;
    found, cycle, finished' := false, [], finished;
    while todo != {}
      invariant todo <= successors
      invariant FinishedInOrder(finished', edges)
      invariant Elems(finished) <= Elems(finished') <= nodes
      invariant Elems(path) !! Elems(finished')
      invariant forall v :: v in successors && v !in todo ==> v in finished'
      decreases todo
    {
      var v :| v in todo;
      todo := todo - {v};
      assert (u, v) in edges;
      if v in path {
        // v is gray: the path from v to u, closed by the edge u -> v
        var loop := path[IndexOf(path, v)..];
        GrayCycle(stack, u, v, edges);
        return true, CycleThrough(loop), finished';
      } else if v !in finished' {
        // v is white: visit it with u pushed onto the gray path
        ExtendPath(stack, u, v, edges);
        assert v in nodes;
        assert Elems(path) == Elems(stack) + {u};
        assert nodes - Elems(path) - Elems(finished') < nodes - Elems(stack) - Elems(finished) by {
          assert u in nodes - Elems(stack) - Elems(finished);
        }
        var found1, cycle1, finished1 := Visit(nodes, edges, v, path, finished');
        if found1 {
          return true, cycle1, finished1;
        }
        forall x | x in successors && x !in todo ensures x in finished1 {
          if x != v {
            assert x in Elems(finished');
          }
        }
        finished' := finished1;
      }
    }
    assert Elems(path) == Elems(stack) + {u};
    assert u !in finished';
    var last := finished' + [u];
    FinishLast(finished', u, successors, edges);
    finished' := last;
  }

  /** Searches the whole graph for a directed cycle. Returns a simple cycle
      when there is one, and reports "none" only when the graph has no
      cycle at all. */
  method FindCycle<T(==,!new)>(nodes: set<T>, edges: set<(T, T)>) returns (found: bool, cycle: seq<(T, T)>)
    requires EdgesWithin(nodes, edges)
    ensures found ==> IsSimpleCycle(cycle, edges)
    ensures !found ==> cycle == [] && !HasCycle(edges)
    ensures found <==> HasCycle(edges)
  {
    var finished: seq<T> := [];
    found, cycle := false, [];
    while !(nodes <= Elems(finished))
      invariant FinishedInOrder(finished, edges)
      invariant Elems(finished) <= nodes
      decreases nodes - Elems(finished)
    {
      var u :| u in nodes && u !in finished;
      var found1, cycle1, finished1 := Visit(nodes, edges, u, [], finished);
      if found1 {
        return true, cycle1;
      }
      assert u in Elems(finished1) - Elems(finished);
      finished := finished1;
    }
    AcyclicWhenAllFinished(nodes, edges, finished);
    return false, [];
  }
}
