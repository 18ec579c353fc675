/**
 * Euclidean distance between two points of the same dimension, over exact
 * integer coordinates. Both kernels accumulate the squared coordinate
 * differences in dimension order 0, 1, ..., L - 1 and then apply `sqrt`
 * once; SqDist is defined in that same order, so that a loop's partial sum
 * is SqDist of a prefix of the two points.
 */
module Distance {
  import opened ColumnMajor

  /** Sum over the coordinates of (u[i] - v[i])^2, accumulated from the first coordinate on. */
  function SqDist(u: seq<int>, v: seq<int>): int
    requires |u| == |v|
  {
    if |u| == 0 then 0
    else
      var d := u[|u| - 1] - v[|v| - 1];
      SqDist(u[..|u| - 1], v[..|v| - 1]) + d * d
  }

  /** A sum of squares is never negative. */
  lemma {:induction false} SqDistNonNegative(u: seq<int>, v: seq<int>)
    requires |u| == |v|
    ensures SqDist(u, v) >= 0
  {
    if |u| > 0 {
      SqDistNonNegative(u[..|u| - 1], v[..|v| - 1]);
    }
  }

  /** The squared distance does not depend on the order of the two points. */
  lemma {:induction false} SqDistSymmetric(u: seq<int>, v: seq<int>)
    requires |u| == |v|
    ensures SqDist(u, v) == SqDist(v, u)
  {
    if |u| > 0 {
      SqDistSymmetric(u[..|u| - 1], v[..|v| - 1]);
      var d := u[|u| - 1] - v[|v| - 1];
      assert d * d == (-d) * (-d);
    }
  }

  /** Identity of indiscernibles: the squared distance is zero exactly when the points coincide. */
  lemma {:induction false} SqDistZeroIff(u: seq<int>, v: seq<int>)
    requires |u| == |v|
    ensures SqDist(u, v) == 0 <==> u == v
  {
    if |u| > 0 {
      var n := |u| - 1;
      SqDistZeroIff(u[..n], v[..n]);
      SqDistNonNegative(u[..n], v[..n]);
      assert u == u[..n] + [u[n]] && v == v[..n] + [v[n]];
      var d := u[n] - v[n];
      assert SqDist(u, v) == SqDist(u[..n], v[..n]) + d * d;
      SquareZeroIff(d);
    }
  }

  lemma SquareZeroIff(d: int)
    ensures d * d >= 0
    ensures d * d == 0 <==> d == 0
  {
    if d != 0 {
      assert d * d > 0;
    }
  }

  /**
   * The two facts about the C library's `sqrt` that the distance matrix
   * properties rest on: on a non-negative argument the result is
   * non-negative, and it is zero exactly when the argument is.
   */
  ghost predicate IsSqrt(sqrt: real -> real)
  {
    forall x :: 0.0 <= x ==> 0.0 <= sqrt(x) && (sqrt(x) == 0.0 <==> x == 0.0)
  }

  /** Euclidean distance: non-negative, and zero exactly when the points coincide. */
  lemma DistanceZeroIff(sqrt: real -> real, u: seq<int>, v: seq<int>)
    requires IsSqrt(sqrt) && |u| == |v|
    ensures 0.0 <= sqrt(SqDist(u, v) as real)
    ensures sqrt(SqDist(u, v) as real) == 0.0 <==> u == v
  {
    SqDistNonNegative(u, v);
    SqDistZeroIff(u, v);
  }

  /**
   * The accumulation both kernels run for one output cell: reset the cell
   * to 0, then add (a[point p, i] - b[point q, i])^2 for i = 0, ..., l - 1.
   * Afterwards the cell holds the squared distance between point p of `a`
   * and point q of `b`, and no other cell has changed. `a` and `b` may be
   * the same buffer.
   */
  method AccumulateSqDist(dist: array<real>, cell: nat,
                          a: array<int>, n: nat, p: nat,
                          b: array<int>, n2: nat, q: nat, l: nat)
    requires cell < dist.Length
    requires a.Length == n * l && b.Length == n2 * l && p < n && q < n2
    modifies dist
    ensures dist[cell] == SqDist(Row(a[..], n, l, p), Row(b[..], n2, l, q)) as real
    ensures forall x :: 0 <= x < dist.Length && x != cell ==> dist[x] == old(dist[x])
  {
    AllOffsetsInBounds(n, l);
    AllOffsetsInBounds(n2, l);
    ghost var u, v := Row(a[..], n, l, p), Row(b[..], n2, l, q);
    dist[cell] := 0.0;
    for i := 0 to l
      invariant dist[cell] == SqDist(u[..i], v[..i]) as real
      invariant forall x :: 0 <= x < dist.Length && x != cell ==> dist[x] == old(dist[x])
    {
      var d := a[Offset(p, i, n)] - b[Offset(q, i, n2)];
      assert u[..i + 1][..i] == u[..i] && v[..i + 1][..i] == v[..i];
      dist[cell] := dist[cell] + (d * d) as real;
    }
    assert u[..l] == u && v[..l] == v;
  }
}
