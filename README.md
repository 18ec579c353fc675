# MotionMapper distance kernels

A Dafny model of the two distance-matrix kernels of MotionMapper. Both are
MEX entry points that fill a flat, column-major output buffer in place:

- `findListDistances` (module `ListDistances`) takes two point tables, A
  (`Npoints` x `L`) and B (`Npoints2` x `L2`). It fails when `L != L2`.
  Otherwise it fills an `Npoints` x `Npoints2` buffer whose cell
  `j*Npoints + k` is the Euclidean distance between point `k` of A and
  point `j` of B.
- `findAllDistances` (module `AllDistances`) takes one `Npoints` x `L`
  table. It visits each pair `k < j` once and writes the distance between
  points `j` and `k` at offset `j*Npoints + k`. It then copies that value to
  `k*Npoints + j`. It never writes the diagonal, which keeps the zero of the
  zero-filled allocation.

Module `ColumnMajor` holds the offset arithmetic `col * rows + row` and
`Row`, the point stored in one row of a table. Module `Distance` holds the
squared distance and the inner accumulation loop that both kernels share.

The kernels are methods over Dafny arrays.
- The input buffers are `array<int>`. The methods have no `modifies` clause for them, so they are only read.
- The output is a fresh `array<real>`, allocated zero-filled as the host's allocator does.
- The loops are the source's loops: `k` outer, `j` inner, and `i` over the dimensions innermost.
- Each cell is reset to 0, accumulated with `+=`, and then overwritten with `sqrt`.

Each method is proved against a specification predicate:
- `IsCrossMatrix` for the cross-distance kernel;
- `IsSelfMatrix` for the self-distance kernel.

The lemmas state what those matrices satisfy. The C library's `sqrt` is a
parameter. The lemmas that need its behaviour assume only `IsSqrt`: the
result is non-negative, and zero exactly for a zero argument.

## Model

| member | source | states |
|---|---|---|
| ColumnMajor.OffsetInBounds | utilities/findListDistances.c:29-33 | the offset `col*rows + row` of a cell of a `rows` x `cols` table is below `rows*cols`, so every read of a data buffer and every write of the output buffer is in bounds |
| ColumnMajor.OffsetInjective | utilities/findAllDistances.c:23-28 | two cells share an offset exactly when they are the same cell, so writing one output cell never disturbs another |
| ColumnMajor.OffsetCovers | utilities/findListDistances.c:24-35 | every offset of a `rows` x `cols` buffer is the offset of the cell `(idx % rows, idx / rows)` of the table |
| ColumnMajor.CellOf | utilities/findListDistances.c:24-35 | every offset below `rows*cols` belongs to some cell `(row, col)` with `row < rows` and `col < cols` |
| Distance.SqDistNonNegative | utilities/findListDistances.c:31 | the accumulated sum of squared differences is never negative |
| Distance.SqDistSymmetric | utilities/findAllDistances.c:25 | the squared distance does not depend on which point is subtracted from which |
| Distance.SqDistZeroIff | utilities/findListDistances.c:29-31 | the squared distance is zero if and only if the two points are equal |
| Distance.DistanceZeroIff | utilities/findListDistances.c:33 | for a `sqrt` with `IsSqrt`, the distance is non-negative, and it is zero if and only if the two points coincide |
| Distance.AccumulateSqDist | utilities/findListDistances.c:29-31 | reading coordinate i of point p at offset `i*n + p` (and of point q at `i*n2 + q`), resetting the cell to 0 and adding the squared coordinate differences in dimension order leaves in the cell the squared distance between point p of one table and point q of the other, whatever it held before; no other cell changes |
| ListDistances.FindListDistances | utilities/findListDistances.c:20-35 | the call fails with `DimensionMismatch` exactly when `L != L2`, and no buffer is produced then; otherwise it returns a fresh `Npoints*Npoints2` buffer whose cell `j*Npoints + k` is the distance between point k of A and point j of B |
| ListDistances.CrossMatrixUnique | utilities/findListDistances.c:27-35 | the loops write every cell of the output, so the result is determined by the inputs alone |
| ListDistances.CrossMatrixNonNegative | utilities/findListDistances.c:31-33 | every cell of the cross matrix is non-negative |
| ListDistances.CrossMatrixZeroIff | utilities/findListDistances.c:29-33 | cell (k, j) is zero if and only if point k of A equals point j of B |
| ListDistances.CrossScenario | utilities/findListDistances.c:20-35 | A = [[0, 0]] against B = [[3, 4], [0, 0]] yields exactly [sqrt(25), 0] |
| AllDistances.WritePair | utilities/findAllDistances.c:23-28 | one step of the pair loop changes exactly two cells, (k, j) and its mirror (j, k), and both receive the distance of the pair |
| AllDistances.DoneStep | utilities/findAllDistances.c:22-28 | writing the pair (k, j) and its mirror extends the loop's progress invariant by one pair: the diagonal stays zero and the earlier pairs keep their values |
| AllDistances.FillRow | utilities/findAllDistances.c:22-29 | the inner loop of row k writes the pairs (k, k+1), ..., (k, Npoints-1) in that order and leaves the progress invariant at the start of row k+1; no cell outside row k and column k changes |
| AllDistances.FindAllDistances | utilities/findAllDistances.c:18-31 | returns a fresh `Npoints*Npoints` buffer with a zero diagonal, in which both (k, j) and (j, k) hold the distance of each pair k < j; the pairs are visited in the order `UpperTriangle(Npoints)` |
| AllDistances.UpperTriangleExactlyOnce | utilities/findAllDistances.c:21-22 | the nested loop visits each pair (k, j) with k < j < Npoints exactly once and no other pair, so each unordered pair of distinct points is handled once |
| AllDistances.TriangleCount | utilities/findAllDistances.c:21-22 | the first k rows of the loop visit each pair (r, c) with r < k and r < c once and no other pair |
| AllDistances.RowPairsCount | utilities/findAllDistances.c:22 | one row of the inner loop visits (k, c) once for each c in its range and no other pair |
| AllDistances.CountIsMultiplicity | utilities/findAllDistances.c:21-22 | helper of UpperTriangleExactlyOnce, true of any sequence: `Count` of a pair equals its multiplicity in the multiset of the sequence, which carries the visit counts of TriangleCount over to the multiset statement |
| AllDistances.UpperTriangleLength | utilities/findAllDistances.c:21-22 | the loop handles n*(n-1)/2 pairs and so does the distance arithmetic for n*(n-1)/2 cells |
| AllDistances.TriangleLength | utilities/findAllDistances.c:21-22 | the first k rows of the loop visit k*(2n-k-1)/2 pairs |
| AllDistances.SelfMatrixEntry | utilities/findAllDistances.c:18-28 | cell (r, c) is 0 on the diagonal, and otherwise the distance between points r and c, for either order of r and c |
| AllDistances.SelfMatrixSymmetric | utilities/findAllDistances.c:28 | the output is symmetric: cell (r, c) equals cell (c, r) for all r and c |
| AllDistances.SelfMatrixUnique | utilities/findAllDistances.c:18-31 | every cell is either written by the loop or the zero diagonal, so the result is determined by the input alone |
| AllDistances.SelfMatrixNonNegative | utilities/findAllDistances.c:18-27 | every cell is non-negative: it is either the zero diagonal or a square root of a sum of squares |
| AllDistances.SelfMatrixZeroIff | utilities/findAllDistances.c:18-27 | cell (r, c) is zero if and only if points r and c coincide, so the diagonal is zero and off-diagonal zeros mean duplicate points |
| AllDistances.SelfScenarioTwoPoints | utilities/findAllDistances.c:18-31 | the points [[0, 0], [3, 4]] yield exactly [[0, sqrt(25)], [sqrt(25), 0]] |
| AllDistances.SelfScenarioOnePoint | utilities/findAllDistances.c:18-31 | a single point yields the 1 x 1 matrix [[0]] |
| AllDistances.SelfScenarioEmpty | utilities/findAllDistances.c:18-31 | an empty point table yields the empty matrix |

## Left out

- MEX marshaling is not modelled. `mxGetPr`, `mxGetM`, `mxGetN`, `mxCreateDoubleMatrix`, `plhs` and `prhs` become plain parameters: an array and its row and column counts.
- `mexErrMsgTxt` aborts the call. It is modelled as an `Err(DimensionMismatch)` result returned before any buffer is allocated.
- Floating point is not modelled. Coordinates are exact integers and cells are exact reals. IEEE rounding, overflow, underflow and NaN are out of scope. "Zero if and only if the points coincide" holds only under this exact arithmetic.
- Coordinates are exact integers rather than doubles. This is a modelling choice: over integers the verifier proves the square facts the distance lemmas need (a square is non-negative, and zero only for zero) with one small hint in `SquareZeroIff`. The loop structure, the indexing and the write pattern do not depend on the coordinate type.
- `sqrt` is a parameter. The model does not define it. The properties that need it assume only that it is non-negative and zero exactly at zero (`IsSqrt`).
- Index products are computed as unbounded integers. The source uses `int` in findListDistances and `long int` in findAllDistances, and the model does not capture their overflow.
- The unused variables `N` and `temp` have no behaviour and are not modelled.
- The source does not check the number of arguments, and the model adds no such check.
