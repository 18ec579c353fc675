/**
 * The self-distance kernel (utilities/findAllDistances.c): given one
 * column-major point table (npoints x L) it fills a fresh, zero-filled
 * npoints x npoints column-major buffer. It visits each pair k < j once,
 * writes the distance between points j and k into cell (k, j), copies it to
 * cell (j, k), and never writes the diagonal, which keeps the zero of the
 * allocation.
 */
module AllDistances {
  import opened ColumnMajor
  import opened Distance

  /**
   * The value the kernel computes for the pair k < j: the coordinate
   * differences are taken as point j minus point k.
   */
  function PairEntry(a: seq<int>, n: nat, l: nat, sqrt: real -> real, k: nat, j: nat): real
    requires |a| == n * l && k < n && j < n
  {
    sqrt(SqDist(Row(a, n, l, j), Row(a, n, l, k)) as real)
  }

  /**
   * `out` is the buffer the kernel leaves for the n x l table `a`: n x n,
   * zero on the diagonal, and for each pair k < j the pair's distance in
   * both cell (k, j) and its mirror (j, k).
   */
  ghost predicate IsSelfMatrix(out: seq<real>, a: seq<int>, n: nat, l: nat, sqrt: real -> real)
    requires |a| == n * l
  {
    |out| == n * n &&
    (forall k :: 0 <= k < n ==> Offset(k, k, n) < |out| && out[Offset(k, k, n)] == 0.0) &&
    (forall k, j :: 0 <= k < j < n ==>
       Offset(k, j, n) < |out| && out[Offset(k, j, n)] == PairEntry(a, n, l, sqrt, k, j) &&
       Offset(j, k, n) < |out| && out[Offset(j, k, n)] == PairEntry(a, n, l, sqrt, k, j))
  }

  /** The pairs (k, lo), (k, lo + 1), ..., (k, hi - 1), in that order. */
  function RowPairs(k: nat, lo: nat, hi: nat): seq<(nat, nat)>
    decreases hi
  {
    if hi <= lo then [] else RowPairs(k, lo, hi - 1) + [(k, hi - 1)]
  }

  /** The pairs the nested loop visits for the rows 0, ..., k - 1 of an n-point table, in visiting order. */
  function Triangle(k: nat, n: nat): seq<(nat, nat)>
  {
    if k == 0 then [] else Triangle(k - 1, n) + RowPairs(k - 1, k, n)
  }

  /** Every pair the nested loop of an n-point table visits, in visiting order. */
  function UpperTriangle(n: nat): seq<(nat, nat)>
  {
    Triangle(n, n)
  }

  /**
   * Progress of the nested loop over `d`: the diagonal is still zero, and
   * every pair (r, c) with r < c visited before the pair (k, j) holds its
   * distance in cell (r, c) and in the mirror cell (c, r).
   */
  ghost predicate Done(d: seq<real>, a: seq<int>, n: nat, l: nat, sqrt: real -> real, k: nat, j: nat)
    requires |a| == n * l && |d| == n * n
  {
    (forall r :: 0 <= r < n ==> Offset(r, r, n) < |d| && d[Offset(r, r, n)] == 0.0) &&
    (forall r, c :: 0 <= r < c < n && (r < k || (r == k && c < j)) ==>
       Offset(r, c, n) < |d| && d[Offset(r, c, n)] == PairEntry(a, n, l, sqrt, r, c) &&
       Offset(c, r, n) < |d| && d[Offset(c, r, n)] == PairEntry(a, n, l, sqrt, r, c))
  }

  /** The zero-filled buffer is where the loop starts. */
  lemma DoneStart(d: seq<real>, a: seq<int>, n: nat, l: nat, sqrt: real -> real)
    requires |a| == n * l && |d| == n * n
    requires forall x :: 0 <= x < |d| ==> d[x] == 0.0
    ensures Done(d, a, n, l, sqrt, 0, 1)
  {
    AllOffsetsInBounds(n, n);
  }

  /** Writing the value of the pair (k, j) into its cell and the mirror cell advances the loop by one pair. */
  lemma DoneStep(d: seq<real>, a: seq<int>, n: nat, l: nat, sqrt: real -> real, k: nat, j: nat)
    requires |a| == n * l && |d| == n * n && k < j < n
    requires Done(d, a, n, l, sqrt, k, j)
    ensures Offset(k, j, n) < |d| && Offset(j, k, n) < |d|
    ensures
      var v := PairEntry(a, n, l, sqrt, k, j);
      Done(d[Offset(k, j, n) := v][Offset(j, k, n) := v], a, n, l, sqrt, k, j + 1)
  {
    AllOffsetsInBounds(n, n);
    OffsetsDistinct(k, j, n);
    OffsetsDistinct(j, k, n);
  }

  /** Finishing row k is starting row k + 1. */
  lemma DoneNextRow(d: seq<real>, a: seq<int>, n: nat, l: nat, sqrt: real -> real, k: nat)
    requires |a| == n * l && |d| == n * n && k < n
    requires Done(d, a, n, l, sqrt, k, n)
    ensures Done(d, a, n, l, sqrt, k + 1, k + 2)
  {
  }

  /** When every row is finished the buffer is the self-distance matrix. */
  lemma DoneAll(d: seq<real>, a: seq<int>, n: nat, l: nat, sqrt: real -> real)
    requires |a| == n * l && |d| == n * n
    requires Done(d, a, n, l, sqrt, n, n + 1)
    ensures IsSelfMatrix(d, a, n, l, sqrt)
  {
  }

  /**
   * One step of the nested loop: the distance of the pair k < j is
   * accumulated and rooted in cell (k, j), at offset j * npoints + k, and
   * then copied to the mirror cell (j, k), at offset k * npoints + j.
   */
  method WritePair(dist: array<real>, data: array<int>, npoints: nat, l: nat, sqrt: real -> real, k: nat, j: nat)
    requires data.Length == npoints * l && dist.Length == npoints * npoints && k < j < npoints
    modifies dist
    ensures Offset(k, j, npoints) < dist.Length && Offset(j, k, npoints) < dist.Length
    ensures
      var v := PairEntry(data[..], npoints, l, sqrt, k, j);
      dist[..] == old(dist[..])[Offset(k, j, npoints) := v][Offset(j, k, npoints) := v]
  {
    OffsetInBounds(k, j, npoints, npoints);
    OffsetInBounds(j, k, npoints, npoints);
    var cell, mirror := Offset(k, j, npoints), Offset(j, k, npoints);
    AccumulateSqDist(dist, cell, data, npoints, j, data, npoints, k, l);
    dist[cell] := sqrt(dist[cell]);
    dist[mirror] := dist[cell];
  }

  /**
   * The inner loop of the kernel for row k: the pairs (k, k + 1), ...,
   * (k, npoints - 1), in that order, each written with WritePair. No cell
   * outside row k and column k changes. `visits` records the pairs visited.
   */
  method FillRow(dist: array<real>, data: array<int>, npoints: nat, l: nat, sqrt: real -> real, k: nat)
    returns (ghost visits: seq<(nat, nat)>)
    requires data.Length == npoints * l && dist.Length == npoints * npoints && k < npoints
    requires Done(dist[..], data[..], npoints, l, sqrt, k, k + 1)
    modifies dist
    ensures Done(dist[..], data[..], npoints, l, sqrt, k + 1, k + 2)
    ensures forall r, c :: 0 <= r < npoints && 0 <= c < npoints && r != k && c != k ==>
      Offset(r, c, npoints) < dist.Length && dist[Offset(r, c, npoints)] == old(dist[Offset(r, c, npoints)])
    ensures visits == RowPairs(k, k + 1, npoints)
  {
    AllOffsetsInBounds(npoints, npoints);
    visits := [];
    for j: nat := k + 1 to npoints
      invariant Done(dist[..], data[..], npoints, l, sqrt, k, j)
      invariant forall r, c :: 0 <= r < npoints && 0 <= c < npoints && r != k && c != k ==>
        dist[Offset(r, c, npoints)] == old(dist[Offset(r, c, npoints)])
      invariant visits == RowPairs(k, k + 1, j)
    {
      DoneStep(dist[..], data[..], npoints, l, sqrt, k, j);
      OffsetsDistinct(k, j, npoints);
      OffsetsDistinct(j, k, npoints);
      WritePair(dist, data, npoints, l, sqrt, k, j);
      visits := visits + [(k, j)];
    }
    DoneNextRow(dist[..], data[..], npoints, l, sqrt, k);
  }

  /**
   * The kernel. `data` is the input buffer, `npoints` and `l` the row and
   * column counts the host reports for it, `sqrt` the C library's square
   * root. The input is only read (the method modifies nothing), and the
   * ghost `visits` records the pairs (k, j) in the order the loop visits them.
   */
  method FindAllDistances(data: array<int>, npoints: nat, l: nat, sqrt: real -> real)
    returns (dist: array<real>, ghost visits: seq<(nat, nat)>)
    requires data.Length == npoints * l
    ensures fresh(dist)
    ensures IsSelfMatrix(dist[..], data[..], npoints, l, sqrt)
    ensures visits == UpperTriangle(npoints)
  {
    // the host allocates the output zero-filled
    dist := new real[npoints * npoints](_ => 0.0);
    visits := [];
    DoneStart(dist[..], data[..], npoints, l, sqrt);
    for k: nat := 0 to npoints
      invariant Done(dist[..], data[..], npoints, l, sqrt, k, k + 1)
      invariant visits == Triangle(k, npoints)
    {
      ghost var row := FillRow(dist, data, npoints, l, sqrt, k);
      visits := visits + row;
    }
    DoneAll(dist[..], data[..], npoints, l, sqrt);
  }

  /** How many times the pair p occurs in s. */
  function Count(s: seq<(nat, nat)>, p: (nat, nat)): nat
  {
    if |s| == 0 then 0 else Count(s[..|s| - 1], p) + (if s[|s| - 1] == p then 1 else 0)
  }

  /** Occurrences in a concatenation add up. */
  lemma {:induction false} CountAppend(s: seq<(nat, nat)>, t: seq<(nat, nat)>, p: (nat, nat))
    ensures Count(s + t, p) == Count(s, p) + Count(t, p)
    decreases |t|
  {
    if |t| == 0 {
      assert s + t == s;
    } else {
      var t' := t[..|t| - 1];
      CountAppend(s, t', p);
      assert (s + t)[..|s + t| - 1] == s + t';
      assert (s + t)[|s + t| - 1] == t[|t| - 1];
    }
  }

  /** Count is the multiplicity of p in the multiset of the elements of s. */
  lemma {:induction false} CountIsMultiplicity(s: seq<(nat, nat)>, p: (nat, nat))
    ensures Count(s, p) == multiset(s)[p]
  {
    if |s| > 0 {
      CountIsMultiplicity(s[..|s| - 1], p);
      assert s == s[..|s| - 1] + [s[|s| - 1]];
    }
  }

  /** Row k of the loop, over the columns lo, ..., hi - 1, visits (k, c) once for each such c and no other pair. */
  lemma {:induction false} RowPairsCount(k: nat, lo: nat, hi: nat, r: nat, c: nat)
    ensures Count(RowPairs(k, lo, hi), (r, c)) == if r == k && lo <= c < hi then 1 else 0
    decreases hi
  {
    if hi > lo {
      RowPairsCount(k, lo, hi - 1, r, c);
      var s := RowPairs(k, lo, hi);
      assert s[..|s| - 1] == RowPairs(k, lo, hi - 1);
    }
  }

  /** Row k of the loop, over the columns lo, ..., hi - 1, visits hi - lo pairs (none when hi <= lo). */
  lemma {:induction false} RowPairsLength(k: nat, lo: nat, hi: nat)
    ensures |RowPairs(k, lo, hi)| == if hi <= lo then 0 else hi - lo
    decreases hi
  {
    if hi > lo {
      RowPairsLength(k, lo, hi - 1);
    }
  }

  /** Rows 0, ..., k - 1 visit each pair (r, c) with r < k and r < c < n once, and no other pair. */
  lemma {:induction false} TriangleCount(k: nat, n: nat, r: nat, c: nat)
    ensures Count(Triangle(k, n), (r, c)) == if r < k && r < c < n then 1 else 0
  {
    if k > 0 {
      TriangleCount(k - 1, n, r, c);
      RowPairsCount(k - 1, k, n, r, c);
      CountAppend(Triangle(k - 1, n), RowPairs(k - 1, k, n), (r, c));
    }
  }

  /**
   * The nested loop over an n-point table visits each pair (k, j) with
   * k < j < n exactly once and no other pair; in particular it never visits
   * both (k, j) and (j, k), so every unordered pair of distinct points is
   * visited exactly once.
   */
  lemma UpperTriangleExactlyOnce(n: nat)
    ensures forall k: nat, j: nat :: multiset(UpperTriangle(n))[(k, j)] == if k < j < n then 1 else 0
  {
    forall k: nat, j: nat
      ensures multiset(UpperTriangle(n))[(k, j)] == if k < j < n then 1 else 0
    {
      TriangleCount(n, n, k, j);
      CountIsMultiplicity(UpperTriangle(n), (k, j));
    }
  }

  /** Rows 0, ..., k - 1 of an n-point table visit k * (2 * n - k - 1) / 2 pairs. */
  lemma {:induction false} TriangleLength(k: nat, n: nat)
    requires k <= n
    ensures 2 * |Triangle(k, n)| == k * (2 * n - k - 1)
  {
    if k > 0 {
      TriangleLength(k - 1, n);
      RowPairsLength(k - 1, k, n);
      assert |Triangle(k, n)| == |Triangle(k - 1, n)| + (n - k);
      TriangleStep(k, n, |Triangle(k - 1, n)|);
    }
  }

  lemma TriangleStep(k: nat, n: nat, m: nat)
    requires 0 < k <= n && 2 * m == (k - 1) * (2 * n - k)
    ensures 2 * (m + (n - k)) == k * (2 * n - k - 1)
  {
    assert (k - 1) * (2 * n - k) == k * (2 * n - k) - (2 * n - k);
    assert k * (2 * n - k) - k == k * (2 * n - k - 1);
  }

  /** The kernel does the arithmetic for n * (n - 1) / 2 pairs, half of the n * n ordered ones less the diagonal. */
  lemma UpperTriangleLength(n: nat)
    ensures 2 * |UpperTriangle(n)| == n * (n - 1)
  {
    TriangleLength(n, n);
    assert 2 * n - n - 1 == n - 1;
  }

  /**
   * Cell (r, c) of a self matrix is 0 on the diagonal and otherwise the
   * distance between points r and c, whichever of the two is the smaller.
   */
  lemma SelfMatrixEntry(out: seq<real>, a: seq<int>, n: nat, l: nat, sqrt: real -> real, r: nat, c: nat)
    requires |a| == n * l && IsSelfMatrix(out, a, n, l, sqrt) && r < n && c < n
    ensures Offset(r, c, n) < |out|
    ensures out[Offset(r, c, n)] ==
      if r == c then 0.0 else sqrt(SqDist(Row(a, n, l, r), Row(a, n, l, c)) as real)
  {
    if r < c {
      SqDistSymmetric(Row(a, n, l, c), Row(a, n, l, r));
    }
  }

  /** A self matrix is symmetric. */
  lemma SelfMatrixSymmetric(out: seq<real>, a: seq<int>, n: nat, l: nat, sqrt: real -> real)
    requires |a| == n * l && IsSelfMatrix(out, a, n, l, sqrt)
    ensures forall r, c :: 0 <= r < n && 0 <= c < n ==>
      Offset(r, c, n) < |out| && Offset(c, r, n) < |out| && out[Offset(r, c, n)] == out[Offset(c, r, n)]
  {
    forall r, c | 0 <= r < n && 0 <= c < n
      ensures Offset(r, c, n) < |out| && Offset(c, r, n) < |out| && out[Offset(r, c, n)] == out[Offset(c, r, n)]
    {
      SelfMatrixEntry(out, a, n, l, sqrt, r, c);
      SelfMatrixEntry(out, a, n, l, sqrt, c, r);
      SqDistSymmetric(Row(a, n, l, r), Row(a, n, l, c));
    }
  }

  /** The matrix is determined by its input: every one of its cells is written or is the zero diagonal. */
  lemma SelfMatrixUnique(out1: seq<real>, out2: seq<real>, a: seq<int>, n: nat, l: nat, sqrt: real -> real)
    requires |a| == n * l && IsSelfMatrix(out1, a, n, l, sqrt) && IsSelfMatrix(out2, a, n, l, sqrt)
    ensures out1 == out2
  {
    forall idx | 0 <= idx < |out1|
      ensures out1[idx] == out2[idx]
    {
      var r, c := CellOf(idx, n, n);
      SelfMatrixEntry(out1, a, n, l, sqrt, r, c);
      SelfMatrixEntry(out2, a, n, l, sqrt, r, c);
    }
  }

  /** Every entry of a self matrix is non-negative. */
  lemma SelfMatrixNonNegative(out: seq<real>, a: seq<int>, n: nat, l: nat, sqrt: real -> real)
    requires |a| == n * l && IsSelfMatrix(out, a, n, l, sqrt) && IsSqrt(sqrt)
    ensures forall idx :: 0 <= idx < |out| ==> 0.0 <= out[idx]
  {
    forall idx | 0 <= idx < |out|
      ensures 0.0 <= out[idx]
    {
      var r, c := CellOf(idx, n, n);
      SelfMatrixEntry(out, a, n, l, sqrt, r, c);
      DistanceZeroIff(sqrt, Row(a, n, l, r), Row(a, n, l, c));
    }
  }

  /** Cell (r, c) is zero exactly when points r and c coincide. */
  lemma SelfMatrixZeroIff(out: seq<real>, a: seq<int>, n: nat, l: nat, sqrt: real -> real, r: nat, c: nat)
    requires |a| == n * l && IsSelfMatrix(out, a, n, l, sqrt) && IsSqrt(sqrt) && r < n && c < n
    ensures Offset(r, c, n) < |out|
    ensures out[Offset(r, c, n)] == 0.0 <==> Row(a, n, l, r) == Row(a, n, l, c)
  {
    SelfMatrixEntry(out, a, n, l, sqrt, r, c);
    DistanceZeroIff(sqrt, Row(a, n, l, r), Row(a, n, l, c));
  }

  /** Points [[0, 0], [3, 4]] give [[0, sqrt(25)], [sqrt(25), 0]], that is [[0, 5], [5, 0]]. */
  lemma SelfScenarioTwoPoints(out: seq<real>, sqrt: real -> real)
    requires IsSelfMatrix(out, [0, 3, 0, 4], 2, 2, sqrt)
    ensures out == [0.0, sqrt(25.0), sqrt(25.0), 0.0]
  {
    TwoPointsSqDist();
    assert out[Offset(0, 1, 2)] == PairEntry([0, 3, 0, 4], 2, 2, sqrt, 0, 1);
    assert out[Offset(1, 0, 2)] == PairEntry([0, 3, 0, 4], 2, 2, sqrt, 0, 1);
    assert out[Offset(0, 0, 2)] == 0.0 && out[Offset(1, 1, 2)] == 0.0;
  }

  lemma TwoPointsSqDist()
    ensures SqDist(Row([0, 3, 0, 4], 2, 2, 1), Row([0, 3, 0, 4], 2, 2, 0)) == 25
  {
    assert Row([0, 3, 0, 4], 2, 2, 0) == [0, 0];
    assert Row([0, 3, 0, 4], 2, 2, 1) == [3, 4];
    assert [3, 4][..1] == [3] && [0, 0][..1] == [0] && [3][..0] == [];
    assert SqDist([3, 4], [0, 0]) == 25;
  }

  /** A single point [[1, 2, 3]] gives the 1 x 1 matrix [[0]]. */
  lemma SelfScenarioOnePoint(out: seq<real>, sqrt: real -> real)
    requires IsSelfMatrix(out, [1, 2, 3], 1, 3, sqrt)
    ensures out == [0.0]
  {
    assert out[Offset(0, 0, 1)] == 0.0;
  }

  /** An empty point set gives the empty 0 x 0 matrix. */
  lemma SelfScenarioEmpty(out: seq<real>, l: nat, sqrt: real -> real)
    requires IsSelfMatrix(out, [], 0, l, sqrt)
    ensures out == []
  {
  }
}
