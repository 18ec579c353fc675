/**
 * The cross-distance kernel (utilities/findListDistances.c): given two point
 * tables A (npoints x L) and B (npoints2 x L2), both column-major, it fails
 * when L != L2 and otherwise fills a fresh npoints x npoints2 column-major
 * buffer whose cell (k, j) is the Euclidean distance between row k of A and
 * row j of B.
 */
module ListDistances {
  import opened ColumnMajor
  import opened Distance

  /** The one error the kernel raises: the two point sets have different dimensions. */
  datatype Error = DimensionMismatch

  datatype Result<T> = Ok(value: T) | Err(error: Error)

  /** Distance between point k of `a` (an n x l table) and point j of `b` (an n2 x l table). */
  function CrossEntry(a: seq<int>, n: nat, b: seq<int>, n2: nat, l: nat, sqrt: real -> real, k: nat, j: nat): real
    requires |a| == n * l && |b| == n2 * l && k < n && j < n2
  {
    sqrt(SqDist(Row(a, n, l, k), Row(b, n2, l, j)) as real)
  }

  /**
   * `out` is the n x n2 column-major distance matrix between the points of
   * `a` and those of `b`.
   */
  ghost predicate IsCrossMatrix(out: seq<real>, a: seq<int>, n: nat, b: seq<int>, n2: nat, l: nat, sqrt: real -> real)
    requires |a| == n * l && |b| == n2 * l
  {
    |out| == n * n2 &&
    forall k, j :: 0 <= k < n && 0 <= j < n2 ==>
      Offset(k, j, n) < |out| && out[Offset(k, j, n)] == CrossEntry(a, n, b, n2, l, sqrt, k, j)
  }

  /**
   * The kernel. `data` and `data2` are the two input buffers and their
   * dimensions the row and column counts the host reports for them; `sqrt`
   * is the C library's square root. The inputs are only read (the method
   * modifies nothing), and on a dimension mismatch no buffer is allocated.
   */
  method FindListDistances(data: array<int>, npoints: nat, l: nat,
                           data2: array<int>, npoints2: nat, l2: nat,
                           sqrt: real -> real)
    returns (r: Result<array<real>>)
    requires data.Length == npoints * l && data2.Length == npoints2 * l2
    ensures r.Err? <==> l != l2
    ensures r.Ok? ==> fresh(r.value) && IsCrossMatrix(r.value[..], data[..], npoints, data2[..], npoints2, l, sqrt)
  {
    if l != l2 {
      return Err(DimensionMismatch);
    }
    var dist := new real[npoints * npoints2](_ => 0.0);
    AllOffsetsInBounds(npoints, npoints2);
    ghost var a, b := data[..], data2[..];
    for k := 0 to npoints
      invariant forall r, c :: 0 <= r < k && 0 <= c < npoints2 ==>
        dist[Offset(r, c, npoints)] == CrossEntry(a, npoints, b, npoints2, l, sqrt, r, c)
    {
      for j := 0 to npoints2
        invariant forall r, c :: 0 <= r < k && 0 <= c < npoints2 ==>
          dist[Offset(r, c, npoints)] == CrossEntry(a, npoints, b, npoints2, l, sqrt, r, c)
        invariant forall c :: 0 <= c < j ==>
          dist[Offset(k, c, npoints)] == CrossEntry(a, npoints, b, npoints2, l, sqrt, k, c)
      {
        // the cell j * npoints + k
        var cell := Offset(k, j, npoints);
        AccumulateSqDist(dist, cell, data, npoints, k, data2, npoints2, j, l);
        dist[cell] := sqrt(dist[cell]);
        OffsetsDistinct(k, j, npoints);
      }
    }
    return Ok(dist);
  }

  /** The matrix is determined by its inputs: every one of its cells is written. */
  lemma CrossMatrixUnique(out1: seq<real>, out2: seq<real>, a: seq<int>, n: nat, b: seq<int>, n2: nat, l: nat, sqrt: real -> real)
    requires |a| == n * l && |b| == n2 * l
    requires IsCrossMatrix(out1, a, n, b, n2, l, sqrt) && IsCrossMatrix(out2, a, n, b, n2, l, sqrt)
    ensures out1 == out2
  {
    forall idx | 0 <= idx < |out1|
      ensures out1[idx] == out2[idx]
    {
      var k, j := CellOf(idx, n, n2);
    }
  }

  /** Every entry of a cross matrix is non-negative. */
  lemma CrossMatrixNonNegative(out: seq<real>, a: seq<int>, n: nat, b: seq<int>, n2: nat, l: nat, sqrt: real -> real)
    requires |a| == n * l && |b| == n2 * l
    requires IsCrossMatrix(out, a, n, b, n2, l, sqrt) && IsSqrt(sqrt)
    ensures forall idx :: 0 <= idx < |out| ==> 0.0 <= out[idx]
  {
    forall idx | 0 <= idx < |out|
      ensures 0.0 <= out[idx]
    {
      var k, j := CellOf(idx, n, n2);
      DistanceZeroIff(sqrt, Row(a, n, l, k), Row(b, n2, l, j));
    }
  }

  /** Cell (k, j) is zero exactly when point k of A and point j of B coincide. */
  lemma CrossMatrixZeroIff(out: seq<real>, a: seq<int>, n: nat, b: seq<int>, n2: nat, l: nat, sqrt: real -> real, k: nat, j: nat)
    requires |a| == n * l && |b| == n2 * l
    requires IsCrossMatrix(out, a, n, b, n2, l, sqrt) && IsSqrt(sqrt)
    requires k < n && j < n2
    ensures Offset(k, j, n) < |out|
    ensures out[Offset(k, j, n)] == 0.0 <==> Row(a, n, l, k) == Row(b, n2, l, j)
  {
    DistanceZeroIff(sqrt, Row(a, n, l, k), Row(b, n2, l, j));
  }

  /**
   * A = [[0, 0]] against B = [[3, 4], [0, 0]] gives the 1 x 2 matrix
   * [[sqrt(25), sqrt(0)]], that is [[5, 0]].
   */
  lemma CrossScenario(out: seq<real>, sqrt: real -> real)
    requires IsCrossMatrix(out, [0, 0], 1, [3, 0, 4, 0], 2, 2, sqrt) && IsSqrt(sqrt)
    ensures out == [sqrt(25.0), 0.0]
  {
    ScenarioSqDists();
    assert out[Offset(0, 0, 1)] == CrossEntry([0, 0], 1, [3, 0, 4, 0], 2, 2, sqrt, 0, 0);
    assert out[Offset(0, 1, 1)] == CrossEntry([0, 0], 1, [3, 0, 4, 0], 2, 2, sqrt, 0, 1);
  }

  lemma ScenarioSqDists()
    ensures SqDist(Row([0, 0], 1, 2, 0), Row([3, 0, 4, 0], 2, 2, 0)) == 25
    ensures SqDist(Row([0, 0], 1, 2, 0), Row([3, 0, 4, 0], 2, 2, 1)) == 0
  {
    assert Row([0, 0], 1, 2, 0) == [0, 0];
    assert Row([3, 0, 4, 0], 2, 2, 0) == [3, 4];
    assert Row([3, 0, 4, 0], 2, 2, 1) == [0, 0];
    assert [0, 0][..1] == [0] && [3, 4][..1] == [3] && [0][..0] == [];
    assert SqDist([0, 0], [3, 4]) == 25;
    assert SqDist([0, 0], [0, 0]) == 0;
  }
}
