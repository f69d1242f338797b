/** Pheromone intensification of the ant-colony solver (ex3/Intensifier.py).
    `intensify` deposits `delta * ratio` on every consecutive edge of a
    solution path and returns a fresh matrix; the input matrix is left as it is.
    Matrix entries are exact reals. Indices follow numpy: an index i into an
    axis of length n is accepted when -n <= i < n, a negative one counts from
    the end, and any other raises IndexError. */
module Intensifier {

  /** The deposit strength per unit of ratio when none is given. */
  const DefaultDelta: real := 0.1

  /** What `intensify` hands back: the new matrix, or the IndexError numpy raises. */
  datatype IntensifyResult = Intensified(matrix: array2<real>) | IndexError

  // ---------------------------------------------------------------------------
  // Matrices and numpy indexing
  // ---------------------------------------------------------------------------

  /** m has |m| rows of `cols` entries each. */
  predicate IsMatrix(m: seq<seq<real>>, cols: nat)
  {
    forall i :: 0 <= i < |m| ==> |m[i]| == cols
  }

  /** The entries of a two-dimensional array, row by row. */
  function Entries(a: array2<real>): (m: seq<seq<real>>)
    reads a
    ensures |m| == a.Length0 && IsMatrix(m, a.Length1)
    ensures forall i, j :: 0 <= i < a.Length0 && 0 <= j < a.Length1 ==> m[i][j] == a[i, j]
  {
    seq(a.Length0, i requires 0 <= i < a.Length0 reads a =>
      seq(a.Length1, j requires 0 <= j < a.Length1 reads a => a[i, j]))
  }

  /** numpy accepts index i into an axis of length n. */
  predicate InBounds(i: int, n: nat)
  {
    -(n as int) <= i < n
  }

  /** The position numpy reads for an accepted index. */
  function Wrap(i: int, n: nat): (p: nat)
    requires InBounds(i, n)
    ensures p < n
    ensures 0 <= i ==> p == i
    ensures i < 0 ==> p == n + i
  {
    if i < 0 then i + n else i
  }

  /** Every index of `solution[0:-1]` fits the rows and every index of
      `solution[1:]` fits the columns. */
  predicate ValidPath(solution: seq<int>, rows: nat, cols: nat)
  {
    && (forall k :: 0 <= k < |solution| - 1 ==> InBounds(solution[k], rows))
    && (forall k :: 1 <= k < |solution| ==> InBounds(solution[k], cols))
  }

  /** Entry (i, j) is one of the first n consecutive edges of the solution. */
  predicate EdgeAmong(solution: seq<int>, rows: nat, cols: nat, n: nat, i: int, j: int)
    requires ValidPath(solution, rows, cols)
  {
    exists k :: 0 <= k < n && k + 1 < |solution| &&
      Wrap(solution[k], rows) == i && Wrap(solution[k + 1], cols) == j
  }

  /** Entry (i, j) is an edge (solution[k], solution[k+1]) of the solution. */
  predicate IsEdge(solution: seq<int>, rows: nat, cols: nat, i: int, j: int)
    requires ValidPath(solution, rows, cols)
  {
    EdgeAmong(solution, rows, cols, |solution|, i, j)
  }

  // ---------------------------------------------------------------------------
  // The specification of intensify
  // ---------------------------------------------------------------------------

  /** The update matrix: `amount` on every edge of the solution, zero elsewhere. */
  function Deposits(rows: nat, cols: nat, solution: seq<int>, amount: real): (u: seq<seq<real>>)
    requires ValidPath(solution, rows, cols)
    ensures |u| == rows && IsMatrix(u, cols)
  {
    seq(rows, i requires 0 <= i < rows =>
      seq(cols, j requires 0 <= j < cols =>
        if IsEdge(solution, rows, cols, i, j) then amount else 0.0))
  }

  /** The entrywise sum of two matrices of the same shape. */
  function Add(p: seq<seq<real>>, u: seq<seq<real>>, cols: nat): (m: seq<seq<real>>)
    requires IsMatrix(p, cols) && IsMatrix(u, cols) && |u| == |p|
    ensures |m| == |p| && IsMatrix(m, cols)
    ensures forall i, j :: 0 <= i < |p| && 0 <= j < cols ==> m[i][j] == p[i][j] + u[i][j]
  {
    seq(|p|, i requires 0 <= i < |p| =>
      seq(cols, j requires 0 <= j < cols => p[i][j] + u[i][j]))
  }

  /** The matrix intensify returns: the input plus the update matrix. */
  function IntensifiedMatrix(p: seq<seq<real>>, cols: nat, solution: seq<int>, amount: real): (m: seq<seq<real>>)
    requires IsMatrix(p, cols) && ValidPath(solution, |p|, cols)
    ensures |m| == |p| && IsMatrix(m, cols)
  {
    Add(p, Deposits(|p|, cols, solution, amount), cols)
  }

  /** Each entry of the result: one deposit on an edge, the input elsewhere. */
  lemma IntensifiedAt(p: seq<seq<real>>, cols: nat, solution: seq<int>, amount: real, i: nat, j: nat)
    requires IsMatrix(p, cols) && ValidPath(solution, |p|, cols)
    requires i < |p| && j < cols
    ensures IsEdge(solution, |p|, cols, i, j) ==>
      IntensifiedMatrix(p, cols, solution, amount)[i][j] == p[i][j] + amount
    ensures !IsEdge(solution, |p|, cols, i, j) ==>
      IntensifiedMatrix(p, cols, solution, amount)[i][j] == p[i][j]
  {
  }

  /** Every consecutive pair (solution[k], solution[k+1]) receives delta * ratio. */
  lemma EdgeReceivesDeposit(p: seq<seq<real>>, cols: nat, solution: seq<int>, amount: real, k: nat)
    requires IsMatrix(p, cols) && ValidPath(solution, |p|, cols)
    requires k + 1 < |solution|
    ensures var i, j := Wrap(solution[k], |p|), Wrap(solution[k + 1], cols);
      IntensifiedMatrix(p, cols, solution, amount)[i][j] == p[i][j] + amount
  {
    var i, j := Wrap(solution[k], |p|), Wrap(solution[k + 1], cols);
    assert IsEdge(solution, |p|, cols, i, j);
    IntensifiedAt(p, cols, solution, amount, i, j);
  }

  /** With non-negative indices the edge is addressed directly. */
  lemma DirectEdgeReceivesDeposit(p: seq<seq<real>>, cols: nat, solution: seq<int>, amount: real, k: nat)
    requires IsMatrix(p, cols) && ValidPath(solution, |p|, cols)
    requires k + 1 < |solution| && 0 <= solution[k] && 0 <= solution[k + 1]
    ensures IntensifiedMatrix(p, cols, solution, amount)[solution[k]][solution[k + 1]] ==
            p[solution[k]][solution[k + 1]] + amount
  {
    EdgeReceivesDeposit(p, cols, solution, amount, k);
  }

  /** An edge that occurs at two places in the solution still gets a single
      deposit: the update is an assignment, not an accumulation. */
  lemma RepeatedEdgeDepositedOnce(p: seq<seq<real>>, cols: nat, solution: seq<int>, amount: real, k1: nat, k2: nat)
    requires IsMatrix(p, cols) && ValidPath(solution, |p|, cols)
    requires k1 < k2 && k2 + 1 < |solution|
    requires solution[k1] == solution[k2] && solution[k1 + 1] == solution[k2 + 1]
    ensures var i, j := Wrap(solution[k2], |p|), Wrap(solution[k2 + 1], cols);
      IntensifiedMatrix(p, cols, solution, amount)[i][j] == p[i][j] + amount
  {
    EdgeReceivesDeposit(p, cols, solution, amount, k2);
  }

  /** Entries that are no consecutive pair of the solution keep their value. */
  lemma NonEdgeUnchanged(p: seq<seq<real>>, cols: nat, solution: seq<int>, amount: real, i: nat, j: nat)
    requires IsMatrix(p, cols) && ValidPath(solution, |p|, cols)
    requires i < |p| && j < cols
    requires forall k :: 0 <= k < |solution| - 1 ==>
      Wrap(solution[k], |p|) != i || Wrap(solution[k + 1], cols) != j
    ensures IntensifiedMatrix(p, cols, solution, amount)[i][j] == p[i][j]
  {
    IntensifiedAt(p, cols, solution, amount, i, j);
  }

  /** A zero deposit leaves the matrix as it was. */
  lemma ZeroAmountIsIdentity(p: seq<seq<real>>, cols: nat, solution: seq<int>)
    requires IsMatrix(p, cols) && ValidPath(solution, |p|, cols)
    ensures IntensifiedMatrix(p, cols, solution, 0.0) == p
  {
    var m := IntensifiedMatrix(p, cols, solution, 0.0);
    forall i | 0 <= i < |p|
      ensures m[i] == p[i]
    {
      forall j | 0 <= j < cols
        ensures m[i][j] == p[i][j]
      {
        IntensifiedAt(p, cols, solution, 0.0, i, j);
      }
    }
  }

  /** A solution with fewer than two nodes has no edge, so nothing changes. */
  lemma ShortSolutionIsIdentity(p: seq<seq<real>>, cols: nat, solution: seq<int>, amount: real)
    requires IsMatrix(p, cols) && |solution| <= 1
    ensures ValidPath(solution, |p|, cols)
    ensures IntensifiedMatrix(p, cols, solution, amount) == p
  {
    var m := IntensifiedMatrix(p, cols, solution, amount);
    forall i | 0 <= i < |p|
      ensures m[i] == p[i]
    {
      forall j | 0 <= j < cols
        ensures m[i][j] == p[i][j]
      {
        IntensifiedAt(p, cols, solution, amount, i, j);
      }
    }
  }

  /** A non-negative deposit never lowers an entry. */
  lemma NonNegativeAmountIsMonotone(p: seq<seq<real>>, cols: nat, solution: seq<int>, amount: real)
    requires IsMatrix(p, cols) && ValidPath(solution, |p|, cols) && amount >= 0.0
    ensures forall i, j :: 0 <= i < |p| && 0 <= j < cols ==>
      p[i][j] <= IntensifiedMatrix(p, cols, solution, amount)[i][j]
  {
    forall i, j | 0 <= i < |p| && 0 <= j < cols
      ensures p[i][j] <= IntensifiedMatrix(p, cols, solution, amount)[i][j]
    {
      IntensifiedAt(p, cols, solution, amount, i, j);
    }
  }

  /** The path 0 -> 1 -> 2 on a zero 3x3 matrix with delta 0.1 and ratio 1.0
      deposits 0.1 on (0, 1) and (1, 2) and nothing elsewhere. */
  lemma ThreeNodeExample()
    ensures var zero := [[0.0, 0.0, 0.0], [0.0, 0.0, 0.0], [0.0, 0.0, 0.0]];
      ValidPath([0, 1, 2], 3, 3) &&
      IntensifiedMatrix(zero, 3, [0, 1, 2], DefaultDelta * 1.0) ==
        [[0.0, 0.1, 0.0], [0.0, 0.0, 0.1], [0.0, 0.0, 0.0]]
  {
    var zero := [[0.0, 0.0, 0.0], [0.0, 0.0, 0.0], [0.0, 0.0, 0.0]];
    var expected := [[0.0, 0.1, 0.0], [0.0, 0.0, 0.1], [0.0, 0.0, 0.0]];
    var solution := [0, 1, 2];
    var m := IntensifiedMatrix(zero, 3, solution, 0.1);
    forall i, j | 0 <= i < 3 && 0 <= j < 3
      ensures m[i][j] == expected[i][j]
    {
      IntensifiedAt(zero, 3, solution, 0.1, i, j);
      if (i, j) == (0, 1) || (i, j) == (1, 2) {
        var k := i;
        assert Wrap(solution[k], 3) == i && Wrap(solution[k + 1], 3) == j;
      }
    }
    assert m == expected by {
      forall i | 0 <= i < 3
        ensures m[i] == expected[i]
      {
      }
    }
  }

  // ---------------------------------------------------------------------------
  // The intensifier
  // ---------------------------------------------------------------------------

  class Intensifier {
    const delta: real

    constructor (delta: real := DefaultDelta)
      ensures this.delta == delta
    {
      this.delta := delta;
    }

    /** Builds the update matrix by scattering `delta * ratio` onto the edges
        and returns the input plus the update as a new matrix. No input is
        modified: the method has no modifies clause. */
    method Intensify(pheromoneMatrix: array2<real>, solution: seq<int>, ratio: real) returns (r: IntensifyResult)
      ensures r == IndexError <==> !ValidPath(solution, pheromoneMatrix.Length0, pheromoneMatrix.Length1)
      ensures r.Intensified? ==>
        && fresh(r.matrix)
        && r.matrix.Length0 == pheromoneMatrix.Length0
        && r.matrix.Length1 == pheromoneMatrix.Length1
        && Entries(r.matrix) ==
           IntensifiedMatrix(Entries(pheromoneMatrix), pheromoneMatrix.Length1, solution, delta * ratio)
    {
      var rows, cols := pheromoneMatrix.Length0, pheromoneMatrix.Length1;
      if !ValidPath(solution, rows, cols) {
        return IndexError;
      }
      var amount := delta * ratio;
      var update := new real[rows, cols]((i, j) => 0.0);
      var k := 0;
      while k + 1 < |solution|
        invariant k <= |solution|
        invariant forall i, j :: 0 <= i < rows && 0 <= j < cols ==>
          update[i, j] == if EdgeAmong(solution, rows, cols, k, i, j) then amount else 0.0
      {
        var i, j := Wrap(solution[k], rows), Wrap(solution[k + 1], cols);
        update[i, j] := amount;
        k := k + 1;
      }
      var result := new real[rows, cols]((i, j) reads pheromoneMatrix, update =>
        if 0 <= i < rows && 0 <= j < cols then pheromoneMatrix[i, j] + update[i, j] else 0.0);
      ghost var p := Entries(pheromoneMatrix);
      ghost var expected := IntensifiedMatrix(p, cols, solution, amount);
      forall i, j | 0 <= i < rows && 0 <= j < cols
        ensures result[i, j] == expected[i][j]
      {
        IntensifiedAt(p, cols, solution, amount, i, j);
        assert EdgeAmong(solution, rows, cols, k, i, j) == IsEdge(solution, rows, cols, i, j);
      }
      assert Entries(result) == expected by {
        forall i | 0 <= i < rows
          ensures Entries(result)[i] == expected[i]
        {
        }
      }
      r := Intensified(result);
    }
  }
}
