/** The safety question of the Banker's algorithm, stated without the
    algorithm: a state is safe when the processes can be run to completion
    in some order, each one's remaining need (maximum demand minus current
    allocation) fitting in what is available plus what the processes before
    it have released on finishing.

    Processes are indexed 0..N-1 with N = |allocation|; resources 0..M-1 with
    M = |available|. */
module Banker {

  import opened Shapes
  import opened Seqs

  /** Allocation and maximum demand are both N x M. */
  predicate Snapshot(allocation: seq<seq<int>>, maxDemand: seq<seq<int>>, available: seq<int>) {
    IsMatrix(allocation, |allocation|, |available|) && IsMatrix(maxDemand, |allocation|, |available|)
  }

  ghost predicate Indices(s: seq<nat>, n: nat) {
    forall k :: 0 <= k < |s| ==> s[k] < n
  }

  /** A listing of the processes 0..n-1, each exactly once. */
  ghost predicate IsOrdering(order: seq<nat>, n: nat) {
    Indices(order, n) && Distinct(order) && forall p :: 0 <= p < n ==> p in order
  }

  /** The units of resource `r` handed back by the processes of `done`. */
  function Released(allocation: seq<seq<int>>, done: seq<nat>, r: nat): int
    requires forall k :: 0 <= k < |done| ==> done[k] < |allocation| && r < |allocation[done[k]]|
  {
    if done == [] then 0
    else Released(allocation, done[..|done| - 1], r) + allocation[done[|done| - 1]][r]
  }

  /** Process `p`'s remaining need fits in what is available once the
      processes of `done` have released their allocations. */
  ghost predicate CanFinish(allocation: seq<seq<int>>, maxDemand: seq<seq<int>>, available: seq<int>,
                            done: seq<nat>, p: nat)
    requires Snapshot(allocation, maxDemand, available)
    requires Indices(done, |allocation|) && p < |allocation|
  {
    forall r :: 0 <= r < |available| ==>
      maxDemand[p][r] - allocation[p][r] <= available[r] + Released(allocation, done, r)
  }

  /** `order` runs every process, each one able to finish in its turn. */
  ghost predicate IsSafeSequence(allocation: seq<seq<int>>, maxDemand: seq<seq<int>>, available: seq<int>,
                                 order: seq<nat>)
    requires Snapshot(allocation, maxDemand, available)
  {
    && IsOrdering(order, |allocation|)
    && forall k :: 0 <= k < |order| ==> CanFinish(allocation, maxDemand, available, order[..k], order[k])
  }

  ghost predicate SafeState(allocation: seq<seq<int>>, maxDemand: seq<seq<int>>, available: seq<int>)
    requires Snapshot(allocation, maxDemand, available)
  {
    exists order :: IsSafeSequence(allocation, maxDemand, available, order)
  }

  lemma {:induction false} ReleasedConcat(allocation: seq<seq<int>>, a: seq<nat>, b: seq<nat>, r: nat)
    requires forall k :: 0 <= k < |a| ==> a[k] < |allocation| && r < |allocation[a[k]]|
    requires forall k :: 0 <= k < |b| ==> b[k] < |allocation| && r < |allocation[b[k]]|
    ensures Released(allocation, a + b, r) == Released(allocation, a, r) + Released(allocation, b, r)
  {
    if b == [] {
      assert a + b == a;
    } else {
      var b' := b[..|b| - 1];
      ReleasedConcat(allocation, a, b', r);
      assert (a + b)[..|a + b| - 1] == a + b';
    }
  }

  /** With non-negative allocations nothing released is negative. */
  lemma {:induction false} ReleasedNonNegative(allocation: seq<seq<int>>, done: seq<nat>, r: nat)
    requires NonNegative(allocation)
    requires forall k :: 0 <= k < |done| ==> done[k] < |allocation| && r < |allocation[done[k]]|
    ensures Released(allocation, done, r) >= 0
  {
    if done != [] {
      ReleasedNonNegative(allocation, done[..|done| - 1], r);
    }
  }

  /** Taking the process at position `i` out of `b` takes out exactly its
      allocation. */
  lemma ReleasedRemove(allocation: seq<seq<int>>, b: seq<nat>, i: nat, r: nat)
    requires forall k :: 0 <= k < |b| ==> b[k] < |allocation| && r < |allocation[b[k]]|
    requires i < |b|
    ensures Released(allocation, b, r) == Released(allocation, b[..i] + b[i + 1..], r) + allocation[b[i]][r]
  {
    var x := b[i];
    assert b == b[..i] + [x] + b[i + 1..];
    ReleasedConcat(allocation, b[..i] + [x], b[i + 1..], r);
    ReleasedConcat(allocation, b[..i], [x], r);
    ReleasedConcat(allocation, b[..i], b[i + 1..], r);
    assert [x][..0] == [];
  }

  /** Removing position `i` from a distinct sequence leaves it distinct and
      keeps every other element. */
  lemma RemoveAt<T>(b: seq<T>, i: nat)
    requires Distinct(b) && i < |b|
    ensures Distinct(b[..i] + b[i + 1..])
    ensures Elems(b[..i] + b[i + 1..]) == Elems(b) - {b[i]}
  {
  }

  /** With non-negative allocations, a group of processes releases at most
      what any larger group releases. In particular the work vector of the
      safety check never shrinks as processes finish. */
  lemma {:induction false} ReleasedSubset(allocation: seq<seq<int>>, a: seq<nat>, b: seq<nat>, r: nat)
    requires NonNegative(allocation)
    requires forall k :: 0 <= k < |a| ==> a[k] < |allocation| && r < |allocation[a[k]]|
    requires forall k :: 0 <= k < |b| ==> b[k] < |allocation| && r < |allocation[b[k]]|
    requires Distinct(a) && Distinct(b) && Elems(a) <= Elems(b)
    ensures Released(allocation, a, r) <= Released(allocation, b, r)
    decreases |a|
  {
    if a == [] {
      ReleasedNonNegative(allocation, b, r);
    } else {
      var a' := a[..|a| - 1];
      var x := a[|a| - 1];
      assert x in Elems(b);
      var i := IndexOf(b, x);
      var b' := b[..i] + b[i + 1..];
      ReleasedRemove(allocation, b, i, r);
      RemoveAt(b, i);
      assert Elems(a') <= Elems(a) - {x} by {
        forall y | y in Elems(a') ensures y in Elems(a) - {x} {
          var s :| 0 <= s < |a'| && a'[s] == y;
          assert a[s] == y;
        }
      }
      assert forall k :: 0 <= k < |b'| ==> b'[k] in Elems(b);
      ReleasedSubset(allocation, a', b', r);
    }
  }

  /** The correctness of the greedy fixpoint: when the processes of `done`
      have finished and no other process can finish with what they released,
      then (allocations being non-negative) no safe ordering exists, unless
      every process is already in `done`. */
  lemma StuckMeansUnsafe(allocation: seq<seq<int>>, maxDemand: seq<seq<int>>, available: seq<int>,
                         done: seq<nat>, p: nat)
    requires Snapshot(allocation, maxDemand, available) && NonNegative(allocation)
    requires Indices(done, |allocation|) && Distinct(done)
    requires forall q :: 0 <= q < |allocation| && q !in done ==> !CanFinish(allocation, maxDemand, available, done, q)
    requires p < |allocation| && p !in done
    ensures !SafeState(allocation, maxDemand, available)
  {
    if order :| IsSafeSequence(allocation, maxDemand, available, order) {
      var k := FirstNotDone(order, done, p);
      var before := order[..k];
      assert Elems(before) <= Elems(done);
      var q := order[k];
      assert CanFinish(allocation, maxDemand, available, before, q);
      forall r | 0 <= r < |available|
        ensures maxDemand[q][r] - allocation[q][r] <= available[r] + Released(allocation, done, r)
      {
        ReleasedSubset(allocation, before, done, r);
      }
      assert CanFinish(allocation, maxDemand, available, done, q);
    }
  }

  /** The first position of `order` whose process is not in `done`. */
  lemma FirstNotDone(order: seq<nat>, done: seq<nat>, p: nat) returns (k: nat)
    requires p in order && p !in done
    ensures k < |order| && order[k] !in done
    ensures forall j :: 0 <= j < k ==> order[j] in done
  {
    k := 0;
    while order[k] in done
      invariant 0 <= k <= IndexOf(order, p)
      invariant forall j :: 0 <= j < k ==> order[j] in done
      decreases IndexOf(order, p) - k
    {
      k := k + 1;
    }
  }

  /** The processes 0..n-1 in index order. */
  function IndexOrder(n: nat): (s: seq<nat>)
    ensures IsOrdering(s, n) && |s| == n
    ensures forall i :: 0 <= i < n ==> s[i] == i
  {
    if n == 0 then [] else IndexOrder(n - 1) + [n - 1]
  }

  /** If every process's remaining need fits in `available` at once, the
      state is safe: running the processes in index order works. */
  lemma AllNeedsFitIsSafe(allocation: seq<seq<int>>, maxDemand: seq<seq<int>>, available: seq<int>)
    requires Snapshot(allocation, maxDemand, available) && NonNegative(allocation)
    requires forall p, r :: 0 <= p < |allocation| && 0 <= r < |available| ==>
               maxDemand[p][r] - allocation[p][r] <= available[r]
    ensures SafeState(allocation, maxDemand, available)
  {
    var order := IndexOrder(|allocation|);
    forall k | 0 <= k < |order| ensures CanFinish(allocation, maxDemand, available, order[..k], order[k]) {
      forall r | 0 <= r < |available|
        ensures maxDemand[order[k]][r] - allocation[order[k]][r] <= available[r] + Released(allocation, order[..k], r)
      {
        ReleasedNonNegative(allocation, order[..k], r);
      }
    }
    assert IsSafeSequence(allocation, maxDemand, available, order);
  }

  /** Two processes, each holding one unit of one resource and wanting one
      unit of the other, with nothing available: no process can go first. */
  lemma CrossHoldingIsUnsafe()
    ensures !SafeState([[1, 0], [0, 1]], [[1, 1], [1, 1]], [0, 0])
  {
    var allocation, maxDemand, available := [[1, 0], [0, 1]], [[1, 1], [1, 1]], [0, 0];
    if order :| IsSafeSequence(allocation, maxDemand, available, order) {
      assert 0 in order;
      assert CanFinish(allocation, maxDemand, available, order[..0], order[0]);
      assert order[..0] == [];
      if order[0] == 0 {
        assert maxDemand[0][1] - allocation[0][1] > available[1] + Released(allocation, [], 1);
      } else {
        assert maxDemand[1][0] - allocation[1][0] > available[0] + Released(allocation, [], 0);
      }
    }
  }

  /** One process, one resource, all zero: safe. */
  lemma SingleIdleProcessIsSafe()
    ensures SafeState([[0]], [[0]], [0])
  {
    var order: seq<nat> := [0];
    assert order[..0] == [];
    assert CanFinish([[0]], [[0]], [0], [], 0);
    assert IsSafeSequence([[0]], [[0]], [0], order);
  }
}
