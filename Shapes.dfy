/** Integer vectors and matrices as sequences, and the shape conditions the
    toolkit checks before it stores one. */
module Shapes {

  /** A matrix of `rows` rows, each `cols` entries long. */
  predicate IsMatrix(a: seq<seq<int>>, rows: nat, cols: nat) {
    |a| == rows && forall i :: 0 <= i < |a| ==> |a[i]| == cols
  }

  /** The rejection test of the matrix setters, in the source's own form:
      the row count is wrong, or some row has the wrong length. */
  function WrongMatrixShape(a: seq<seq<int>>, rows: nat, cols: nat): (bad: bool)
    ensures bad <==> !IsMatrix(a, rows, cols)
  {
    var bad := |a| != rows || exists row :: row in a && |row| != cols;
    assert !bad ==> forall i :: 0 <= i < |a| ==> a[i] in a;
    bad
  }

  /** Componentwise sum of two vectors of the same length. */
  function Plus(a: seq<int>, b: seq<int>): (c: seq<int>)
    requires |a| == |b|
    ensures |c| == |a| && forall i :: 0 <= i < |a| ==> c[i] == a[i] + b[i]
  {
    seq(|a|, i requires 0 <= i < |a| => a[i] + b[i])
  }

  ghost predicate NonNegative(a: seq<seq<int>>) {
    forall i, j :: 0 <= i < |a| && 0 <= j < |a[i]| ==> a[i][j] >= 0
  }

  /** The all-zero matrix the toolkit starts from. */
  function Zeros(rows: nat, cols: nat): (z: seq<seq<int>>)
    ensures IsMatrix(z, rows, cols) && NonNegative(z)
    ensures forall i, j :: 0 <= i < rows && 0 <= j < cols ==> z[i][j] == 0
  {
    seq(rows, _ => seq(cols, _ => 0))
  }
}
