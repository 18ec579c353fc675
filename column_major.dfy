/**
 * Column-major layout of a dense numeric table in one flat buffer, the
 * layout MATLAB uses for every matrix it hands to and receives from the
 * two MEX distance kernels: the cell in row `row` and
 * column `col` of a table with `rows` rows lives at offset `col * rows + row`.
 */
module ColumnMajor {

  /** Flat offset of the cell (row, col) in a column-major table with `rows` rows. */
  function Offset(row: nat, col: nat, rows: nat): nat
  {
    col * rows + row
  }

  /** Every cell of a `rows` x `cols` table lies inside its buffer of `rows * cols` cells. */
  lemma OffsetInBounds(row: nat, col: nat, rows: nat, cols: nat)
    requires row < rows && col < cols
    ensures Offset(row, col, rows) < rows * cols
  {
    calc {
      Offset(row, col, rows);
      col * rows + row;
    <  col * rows + rows;
    == (col + 1) * rows;
    <= { MulMonotone(col + 1, cols, rows); }
      cols * rows;
    }
  }

  /** Distinct cells of a table have distinct offsets: no two cells share storage. */
  lemma OffsetInjective(r1: nat, c1: nat, r2: nat, c2: nat, rows: nat)
    requires r1 < rows && r2 < rows
    ensures Offset(r1, c1, rows) == Offset(r2, c2, rows) <==> r1 == r2 && c1 == c2
  {
    if c1 < c2 {
      OffsetBelowNextColumn(r1, c1, c2, rows);
    } else if c2 < c1 {
      OffsetBelowNextColumn(r2, c2, c1, rows);
    }
  }

  /** The quantified form of OffsetInjective: no other cell of the table shares the offset of (row, col). */
  lemma OffsetsDistinct(row: nat, col: nat, rows: nat)
    requires row < rows
    ensures forall r, c :: 0 <= r < rows && 0 <= c && (r != row || c != col) ==>
      Offset(r, c, rows) != Offset(row, col, rows)
  {
    forall r, c | 0 <= r < rows && 0 <= c && (r != row || c != col)
      ensures Offset(r, c, rows) != Offset(row, col, rows)
    {
      OffsetInjective(r, c, row, col, rows);
    }
  }

  /** A cell of an earlier column lies strictly before every cell of a later column. */
  lemma OffsetBelowNextColumn(r: nat, c: nat, later: nat, rows: nat)
    requires r < rows && c < later
    ensures forall r' :: 0 <= r' ==> Offset(r, c, rows) < Offset(r', later, rows)
  {
    MulMonotone(c + 1, later, rows);
  }

  /** Every offset of a `rows` x `cols` buffer is the offset of exactly the cell (idx % rows, idx / rows). */
  lemma OffsetCovers(idx: nat, rows: nat, cols: nat)
    requires idx < rows * cols
    ensures rows > 0
    ensures idx % rows < rows && idx / rows < cols
    ensures Offset(idx % rows, idx / rows, rows) == idx
  {
    assert idx == (idx / rows) * rows + idx % rows;
    if idx / rows >= cols {
      MulMonotone(cols, idx / rows, rows);
      assert false;
    }
  }

  /** The cell that a given offset of a `rows` x `cols` buffer belongs to. */
  lemma CellOf(idx: nat, rows: nat, cols: nat) returns (row: nat, col: nat)
    requires idx < rows * cols
    ensures row < rows && col < cols && Offset(row, col, rows) == idx
  {
    OffsetCovers(idx, rows, cols);
    row, col := idx % rows, idx / rows;
  }

  lemma MulMonotone(a: nat, b: nat, m: nat)
    requires a <= b
    ensures a * m <= b * m
  {
  }

  /** The quantified form of OffsetInBounds, for every cell of a `rows` x `cols` table at once. */
  lemma AllOffsetsInBounds(rows: nat, cols: nat)
    ensures forall r, c :: 0 <= r < rows && 0 <= c < cols ==> Offset(r, c, rows) < rows * cols
  {
    forall r, c | 0 <= r < rows && 0 <= c < cols
      ensures Offset(r, c, rows) < rows * cols
    {
      OffsetInBounds(r, c, rows, cols);
    }
  }

  /**
   * Row `r` of a column-major `rows` x `cols` table: the point whose
   * coordinates are the cells (r, 0), ..., (r, cols - 1).
   */
  function Row(cells: seq<int>, rows: nat, cols: nat, r: nat): (p: seq<int>)
    requires |cells| == rows * cols && r < rows
    ensures |p| == cols
    ensures forall c :: 0 <= c < cols ==> Offset(r, c, rows) < |cells| && p[c] == cells[Offset(r, c, rows)]
  {
    AllOffsetsInBounds(rows, cols);
    seq(cols, c requires 0 <= c < cols => cells[Offset(r, c, rows)])
  }
}
