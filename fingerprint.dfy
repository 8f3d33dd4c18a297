/**
 * The fingerprint distance engine (`fp_distance` and `_costmatrix`).
 *
 * The numerical pieces are oracles: `norm` is `np.linalg.norm` of a vector, `sqrt`
 * is `np.sqrt`, `ln` is `np.log`, and `assign` is the column vector returned by
 * `scipy.optimize.linear_sum_assignment` for a square cost matrix (its row vector is
 * always 0, 1, ..., n-1 there).
 */
module Fingerprint {
  import opened Results
  import opened Structures

  datatype Numerics = Numerics(
    norm: seq<real> -> real,
    sqrt: real -> real,
    ln: real -> real,
    assign: seq<seq<real>> -> seq<nat>)

  /** Why `fp_distance` fails: its three assertions, the scalar case and numpy's broadcasting error. */
  datatype ShapeError = DimensionMismatch | RankTooHigh | NoRows | RowCountMismatch | BroadcastMismatch

  /** numpy accepts `a - b` on 1-D arrays of equal length or when one of them has length 1. */
  predicate Broadcastable(a: seq<real>, b: seq<real>)
  {
    |a| == |b| || |a| == 1 || |b| == 1
  }

  /** `a - b` with numpy broadcasting. */
  function Sub(a: seq<real>, b: seq<real>): (r: seq<real>)
    requires Broadcastable(a, b)
    ensures |r| == (if |a| == |b| then |a| else if |a| == 1 then |b| else |a|)
    ensures forall k :: 0 <= k < |r| ==>
      r[k] == (if |a| == 1 then a[0] else a[k]) - (if |b| == 1 then b[0] else b[k])
  {
    if |a| == |b| then seq(|a|, k requires 0 <= k < |a| => a[k] - b[k])
    else if |a| == 1 then seq(|b|, k requires 0 <= k < |b| => a[0] - b[k])
    else seq(|a|, k requires 0 <= k < |a| => a[k] - b[0])
  }

  /** `np.dot(v, v)` */
  function SqNorm(v: seq<real>): real
  {
    if v == [] then 0.0 else SqNorm(v[..|v| - 1]) + v[|v| - 1] * v[|v| - 1]
  }

  predicate IsZero(v: seq<real>)
  {
    forall k :: 0 <= k < |v| ==> v[k] == 0.0
  }

  predicate RowsBroadcast(a: seq<seq<real>>, b: seq<seq<real>>)
  {
    forall i, j :: 0 <= i < |a| && 0 <= j < |b| ==> Broadcastable(a[i], b[j])
  }

  /** The cost matrix: entry (i, j) is the distance between row i of `a` and row j of `b`. */
  function CostEntries(num: Numerics, a: seq<seq<real>>, b: seq<seq<real>>): (c: seq<seq<real>>)
    requires RowsBroadcast(a, b)
  {
    seq(|a|, i requires 0 <= i < |a| => seq(|b|, j requires 0 <= j < |b| => num.norm(Sub(a[i], b[j]))))
  }

  predicate IsSquare(c: seq<seq<real>>)
  {
    forall i :: 0 <= i < |c| ==> |c[i]| == |c|
  }

  predicate IsPermutation(p: seq<nat>, n: nat)
  {
    |p| == n &&
    (forall i :: 0 <= i < n ==> p[i] < n) &&
    (forall i, j :: 0 <= i < j < n ==> p[i] != p[j])
  }

  /** The assignment oracle answers every square cost matrix with a permutation. */
  ghost predicate AssignsPermutations(num: Numerics)
  {
    forall c: seq<seq<real>> :: IsSquare(c) ==> IsPermutation(num.assign(c), |c|)
  }

  /** The (unsquared) total cost of matching row i to column p[i], for the first n rows. */
  function Cost(c: seq<seq<real>>, p: seq<nat>, n: nat): real
    requires n <= |c| && n <= |p|
    requires forall i :: 0 <= i < n ==> p[i] < |c[i]|
  {
    if n == 0 then 0.0 else Cost(c, p, n - 1) + c[n - 1][p[n - 1]]
  }

  /** The assignment oracle returns a permutation of least total cost. */
  ghost predicate OptimalAssignment(num: Numerics)
  {
    AssignsPermutations(num) &&
    forall c: seq<seq<real>>, q: seq<nat> :: IsSquare(c) && IsPermutation(q, |c|) ==>
      Cost(c, num.assign(c), |c|) <= Cost(c, q, |c|)
  }

  /** The norm oracle is non-negative and zero exactly on zero vectors. */
  ghost predicate NormLaws(num: Numerics)
  {
    forall v: seq<real> :: num.norm(v) >= 0.0 && (num.norm(v) == 0.0 <==> IsZero(v))
  }

  /** Sum of squared row differences over the matched pairs (i, p[i]), for the first n rows. */
  function MatchedSquares(a: seq<seq<real>>, b: seq<seq<real>>, p: seq<nat>, n: nat): real
    requires n <= |a| && n <= |p| && RowsBroadcast(a, b)
    requires forall i :: 0 <= i < n ==> p[i] < |b|
  {
    if n == 0 then 0.0 else MatchedSquares(a, b, p, n - 1) + SqNorm(Sub(a[n - 1], b[p[n - 1]]))
  }

  /** Two descriptors `fp_distance` accepts. */
  predicate Compatible(d1: Descriptor, d2: Descriptor)
  {
    (d1.Vector? && d2.Vector? && Broadcastable(d1.v, d2.v)) ||
    (d1.Matrix? && d2.Matrix? && |d1.rows| == |d2.rows| && RowsBroadcast(d1.rows, d2.rows))
  }

  /**
   * `fp_distance`: the Euclidean norm of the difference for two vectors; for two
   * matrices, the root of the summed squared row differences over the assignment
   * that the oracle computes from the matrix of unsquared row distances.
   */
  function FpDistance(num: Numerics, d1: Descriptor, d2: Descriptor): (r: Result<real, ShapeError>)
    requires AssignsPermutations(num)
    ensures r.Ok? <==> Compatible(d1, d2)
    ensures Ndim(d1) != Ndim(d2) ==> r == Err(DimensionMismatch)
    ensures Ndim(d1) == Ndim(d2) >= 3 ==> r == Err(RankTooHigh)
    ensures d1.Matrix? && d2.Matrix? && |d1.rows| != |d2.rows| ==> r == Err(RowCountMismatch)
    ensures r.Ok? && d1.Vector? ==> r.value == num.norm(Sub(d1.v, d2.v))
  {
    if Ndim(d1) != Ndim(d2) then Err(DimensionMismatch)
    else if Ndim(d1) >= 3 then Err(RankTooHigh)
    else if d1.Vector? then
      if Broadcastable(d1.v, d2.v) then Ok(num.norm(Sub(d1.v, d2.v))) else Err(BroadcastMismatch)
    else if d1.Scalar? then Err(NoRows)
    else if |d1.rows| != |d2.rows| then Err(RowCountMismatch)
    else if !RowsBroadcast(d1.rows, d2.rows) then Err(BroadcastMismatch)
    else
      var c := CostEntries(num, d1.rows, d2.rows);
      assert IsSquare(c);
      var p := num.assign(c);
      Ok(num.sqrt(MatchedSquares(d1.rows, d2.rows, p, |d1.rows|)))
  }

  /** Two descriptors of the run's shape can always be compared. */
  lemma {:induction false} SameShapeCompatible(d1: Descriptor, d2: Descriptor, s: Shape)
    requires HasShape(d1, s) && HasShape(d2, s)
    ensures Compatible(d1, d2)
  {
    if s.MatrixShape? {
      forall i, j | 0 <= i < |d1.rows| && 0 <= j < |d2.rows|
        ensures Broadcastable(d1.rows[i], d2.rows[j])
      {
        assert |d1.rows[i]| == s.width == |d2.rows[j]|;
      }
    }
  }

  /** `_costmatrix`, filling a fresh `np.zeros((n, n))` array row by row. */
  method CostMatrix(num: Numerics, a: seq<seq<real>>, b: seq<seq<real>>) returns (ok: bool, c: array2<real>)
    ensures ok <==> |a| == |b| && RowsBroadcast(a, b)
    ensures ok ==> c.Length0 == |a| && c.Length1 == |a|
    ensures ok ==> forall i, j :: 0 <= i < |a| && 0 <= j < |b| ==> c[i, j] == CostEntries(num, a, b)[i][j]
    ensures fresh(c)
  {
    if |a| != |b| {
      ok, c := false, new real[0, 0];
      return;
    }
    c := new real[|a|, |b|]((_, _) => 0.0);
    var i := 0;
    while i < |a|
      invariant 0 <= i <= |a|
      invariant forall k, j :: 0 <= k < i && 0 <= j < |b| ==>
        Broadcastable(a[k], b[j]) && c[k, j] == num.norm(Sub(a[k], b[j]))
    {
      var j := 0;
      while j < |b|
        invariant 0 <= j <= |b|
        invariant forall k, l :: 0 <= k < i && 0 <= l < |b| ==>
          Broadcastable(a[k], b[l]) && c[k, l] == num.norm(Sub(a[k], b[l]))
        invariant forall l :: 0 <= l < j ==> Broadcastable(a[i], b[l]) && c[i, l] == num.norm(Sub(a[i], b[l]))
      {
        if !Broadcastable(a[i], b[j]) {
          ok := false;
          return;
        }
        c[i, j] := num.norm(Sub(a[i], b[j]));
        j := j + 1;
      }
      i := i + 1;
    }
    ok := true;
  }

  lemma {:induction false} CostNonNegative(c: seq<seq<real>>, p: seq<nat>, n: nat)
    requires n <= |c| && n <= |p|
    requires forall i :: 0 <= i < n ==> p[i] < |c[i]|
    requires forall i :: 0 <= i < n ==> c[i][p[i]] >= 0.0
    ensures Cost(c, p, n) >= 0.0
  {
    if n > 0 {
      CostNonNegative(c, p, n - 1);
    }
  }

  lemma {:induction false} SqNormZero(v: seq<real>)
    requires IsZero(v)
    ensures SqNorm(v) == 0.0
  {
    if v != [] {
      SqNormZero(v[..|v| - 1]);
    }
  }

  /** Matching every row with itself costs nothing. */
  lemma {:induction false} IdentityCostZero(num: Numerics, a: seq<seq<real>>, n: nat)
    requires NormLaws(num) && RowsBroadcast(a, a) && n <= |a|
    ensures var id := seq(|a|, i requires 0 <= i < |a| => i as nat);
      Cost(CostEntries(num, a, a), id, n) == 0.0
  {
    var id := seq(|a|, i requires 0 <= i < |a| => i as nat);
    if n > 0 {
      IdentityCostZero(num, a, n - 1);
      var v := Sub(a[n - 1], a[n - 1]);
      assert IsZero(v);
      assert CostEntries(num, a, a)[n - 1][id[n - 1]] == num.norm(v);
    }
  }

  /** A matching of zero total cost pairs identical rows, so its squared sum is zero too. */
  lemma {:induction false} ZeroCostMatchesEqualRows(num: Numerics, a: seq<seq<real>>, p: seq<nat>, n: nat)
    requires NormLaws(num) && RowsBroadcast(a, a)
    requires n <= |a| && n <= |p| && forall i :: 0 <= i < n ==> p[i] < |a|
    requires Cost(CostEntries(num, a, a), p, n) <= 0.0
    ensures MatchedSquares(a, a, p, n) == 0.0
  {
    var c := CostEntries(num, a, a);
    if n > 0 {
      forall i | 0 <= i < n - 1 ensures c[i][p[i]] >= 0.0 {
        assert c[i][p[i]] == num.norm(Sub(a[i], a[p[i]]));
      }
      CostNonNegative(c, p, n - 1);
      var v := Sub(a[n - 1], a[p[n - 1]]);
      assert c[n - 1][p[n - 1]] == num.norm(v);
      assert num.norm(v) >= 0.0;
      ZeroCostMatchesEqualRows(num, a, p, n - 1);
      assert num.norm(v) == 0.0;
      SqNormZero(v);
    }
  }

  /**
   * Identity: under the oracles' own laws (a norm, an optimal assignment, a root with
   * sqrt(0) = 0) a descriptor is at distance zero from itself.
   */
  lemma {:induction false} DistanceToSelf(num: Numerics, d: Descriptor)
    requires NormLaws(num) && OptimalAssignment(num) && num.sqrt(0.0) == 0.0
    requires Compatible(d, d)
    ensures FpDistance(num, d, d) == Ok(0.0)
  {
    if d.Vector? {
      assert IsZero(Sub(d.v, d.v));
    } else {
      var a := d.rows;
      var c := CostEntries(num, a, a);
      assert IsSquare(c);
      var id := seq(|a|, i requires 0 <= i < |a| => i as nat);
      assert IsPermutation(id, |c|);
      IdentityCostZero(num, a, |a|);
      var p := num.assign(c);
      assert Cost(c, p, |c|) <= Cost(c, id, |c|);
      ZeroCostMatchesEqualRows(num, a, p, |a|);
    }
  }

  /** `-v`, elementwise. */
  function Neg(v: seq<real>): seq<real>
  {
    seq(|v|, k requires 0 <= k < |v| => -v[k])
  }

  /** The norm oracle does not see the sign of its argument, as every norm does not. */
  ghost predicate NormEven(num: Numerics)
  {
    forall v: seq<real> :: num.norm(Neg(v)) == num.norm(v)
  }

  /** The root oracle is non-negative on non-negative arguments. */
  ghost predicate RootLaws(num: Numerics)
  {
    forall x: real :: x >= 0.0 ==> num.sqrt(x) >= 0.0 && num.sqrt(x) * num.sqrt(x) == x
  }

  lemma {:induction false} SqNormNonNegative(v: seq<real>)
    ensures SqNorm(v) >= 0.0
  {
    if v != [] {
      SqNormNonNegative(v[..|v| - 1]);
    }
  }

  lemma {:induction false} MatchedSquaresNonNegative(a: seq<seq<real>>, b: seq<seq<real>>, p: seq<nat>, n: nat)
    requires n <= |a| && n <= |p| && RowsBroadcast(a, b)
    requires forall i :: 0 <= i < n ==> p[i] < |b|
    ensures MatchedSquares(a, b, p, n) >= 0.0
  {
    if n > 0 {
      MatchedSquaresNonNegative(a, b, p, n - 1);
      SqNormNonNegative(Sub(a[n - 1], b[p[n - 1]]));
    }
  }

  /** A distance, when there is one, is never negative. */
  lemma FpDistanceNonNegative(num: Numerics, d1: Descriptor, d2: Descriptor)
    requires AssignsPermutations(num) && NormLaws(num) && RootLaws(num)
    ensures FpDistance(num, d1, d2).Ok? ==> FpDistance(num, d1, d2).value >= 0.0
  {
    if FpDistance(num, d1, d2).Ok? && d1.Matrix? {
      var c := CostEntries(num, d1.rows, d2.rows);
      assert IsSquare(c);
      MatchedSquaresNonNegative(d1.rows, d2.rows, num.assign(c), |d1.rows|);
    }
  }

  /** Two vectors are as far apart in either order, and fail alike. */
  lemma FpDistanceSymmetricVectors(num: Numerics, d1: Descriptor, d2: Descriptor)
    requires AssignsPermutations(num) && NormEven(num)
    requires d1.Vector? && d2.Vector?
    ensures FpDistance(num, d1, d2) == FpDistance(num, d2, d1)
  {
    if Broadcastable(d1.v, d2.v) {
      SubSwapped(d1.v, d2.v);
    }
  }

  lemma SubSwapped(a: seq<real>, b: seq<real>)
    requires Broadcastable(a, b)
    ensures Sub(b, a) == Neg(Sub(a, b))
  {
  }

  /** The distance of two matrices of equal row count whose rows can be compared. */
  lemma MatrixDistance(num: Numerics, a: seq<seq<real>>, b: seq<seq<real>>)
    requires AssignsPermutations(num) && |a| == |b| && RowsBroadcast(a, b)
    ensures var c := CostEntries(num, a, b);
            IsSquare(c) && IsPermutation(num.assign(c), |a|) &&
            FpDistance(num, Matrix(a), Matrix(b)) == Ok(num.sqrt(MatchedSquares(a, b, num.assign(c), |a|)))
  {
    assert IsSquare(CostEntries(num, a, b));
  }

  /** Unsquared row distances of 1-wide rows under a norm that is the absolute value there. */
  lemma TieCosts(num: Numerics)
    requires forall v: seq<real> :: |v| == 1 ==> num.norm(v) == (if v[0] >= 0.0 then v[0] else -v[0])
    ensures CostEntries(num, [[0.0], [1.0]], [[2.0], [3.0]]) == [[2.0, 3.0], [1.0, 2.0]]
    ensures CostEntries(num, [[2.0], [3.0]], [[0.0], [1.0]]) == [[2.0, 1.0], [3.0, 2.0]]
  {
    var a, b := [[0.0], [1.0]], [[2.0], [3.0]];
    assert Sub(a[0], b[0]) == [-2.0] && Sub(a[0], b[1]) == [-3.0];
    assert Sub(a[1], b[0]) == [-1.0] && Sub(a[1], b[1]) == [-2.0];
    assert Sub(b[0], a[0]) == [2.0] && Sub(b[0], a[1]) == [1.0];
    assert Sub(b[1], a[0]) == [3.0] && Sub(b[1], a[1]) == [2.0];
    var c, d := CostEntries(num, a, b), CostEntries(num, b, a);
    assert c[0] == [2.0, 3.0] && c[1] == [1.0, 2.0];
    assert d[0] == [2.0, 1.0] && d[1] == [3.0, 2.0];
  }

  lemma TieForward(num: Numerics)
    requires AssignsPermutations(num)
    requires forall v: seq<real> :: |v| == 1 ==> num.norm(v) == (if v[0] >= 0.0 then v[0] else -v[0])
    requires num.assign([[2.0, 3.0], [1.0, 2.0]]) == [0, 1]
    ensures FpDistance(num, Matrix([[0.0], [1.0]]), Matrix([[2.0], [3.0]])) == Ok(num.sqrt(8.0))
  {
    var a, b := [[0.0], [1.0]], [[2.0], [3.0]];
    TieCosts(num);
    MatrixDistance(num, a, b);
    TieSquares();
  }

  lemma TieBackward(num: Numerics)
    requires AssignsPermutations(num)
    requires forall v: seq<real> :: |v| == 1 ==> num.norm(v) == (if v[0] >= 0.0 then v[0] else -v[0])
    requires num.assign([[2.0, 1.0], [3.0, 2.0]]) == [1, 0]
    ensures FpDistance(num, Matrix([[2.0], [3.0]]), Matrix([[0.0], [1.0]])) == Ok(num.sqrt(10.0))
  {
    var a, b := [[0.0], [1.0]], [[2.0], [3.0]];
    TieCosts(num);
    MatrixDistance(num, b, a);
    TieSquares();
  }

  /** The squared sums of the example's two matchings. */
  lemma TieSquares()
    ensures MatchedSquares([[0.0], [1.0]], [[2.0], [3.0]], [0, 1], 2) == 8.0
    ensures MatchedSquares([[2.0], [3.0]], [[0.0], [1.0]], [1, 0], 2) == 10.0
  {
    var a, b := [[0.0], [1.0]], [[2.0], [3.0]];
    assert Sub(a[0], b[0]) == [-2.0] && Sub(a[1], b[1]) == [-2.0];
    assert SqNorm([-2.0]) == SqNorm([]) + 4.0;
    assert MatchedSquares(a, b, [0, 1], 1) == 4.0;
    assert Sub(b[0], a[1]) == [1.0] && Sub(b[1], a[0]) == [3.0];
    assert SqNorm([1.0]) == SqNorm([]) + 1.0 && SqNorm([3.0]) == SqNorm([]) + 9.0;
    assert MatchedSquares(b, a, [1, 0], 1) == 1.0;
  }

  /**
   * Matrices are not symmetric in general: the assignment minimises the unsquared row
   * distances while the squares are reported, so on a tie the oracle may match the
   * rows of (a, b) and of (b, a) differently. Rows [0], [1] against rows [2], [3] cost 4
   * under both matchings in both orders, so each of the oracle's two answers is of least
   * cost (the only two permutations of two rows); their squared sums are 8 and 10.
   */
  lemma MatrixTieExample(num: Numerics)
    requires AssignsPermutations(num) && RootLaws(num)
    requires forall v: seq<real> :: |v| == 1 ==> num.norm(v) == (if v[0] >= 0.0 then v[0] else -v[0])
    requires num.assign([[2.0, 3.0], [1.0, 2.0]]) == [0, 1]
    requires num.assign([[2.0, 1.0], [3.0, 2.0]]) == [1, 0]
    ensures Cost([[2.0, 3.0], [1.0, 2.0]], [0, 1], 2) == Cost([[2.0, 3.0], [1.0, 2.0]], [1, 0], 2)
    ensures Cost([[2.0, 1.0], [3.0, 2.0]], [1, 0], 2) == Cost([[2.0, 1.0], [3.0, 2.0]], [0, 1], 2)
    ensures var a, b := Matrix([[0.0], [1.0]]), Matrix([[2.0], [3.0]]);
            FpDistance(num, a, b).Ok? && FpDistance(num, b, a).Ok? &&
            FpDistance(num, a, b) != FpDistance(num, b, a)
  {
    TieExampleCosts();
    TieForward(num);
    TieBackward(num);
    RootInjective(num, 8.0, 10.0);
  }

  /** Both matchings of the example cost 4 in either order, so either answer is of least cost. */
  lemma TieExampleCosts()
    ensures Cost([[2.0, 3.0], [1.0, 2.0]], [0, 1], 2) == Cost([[2.0, 3.0], [1.0, 2.0]], [1, 0], 2) == 4.0
    ensures Cost([[2.0, 1.0], [3.0, 2.0]], [1, 0], 2) == Cost([[2.0, 1.0], [3.0, 2.0]], [0, 1], 2) == 4.0
  {
  }

  lemma RootInjective(num: Numerics, x: real, y: real)
    requires RootLaws(num) && x >= 0.0 && y >= 0.0 && x != y
    ensures num.sqrt(x) != num.sqrt(y)
  {
    assert num.sqrt(x) * num.sqrt(x) == x && num.sqrt(y) * num.sqrt(y) == y;
  }
}
