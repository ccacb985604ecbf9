/**
 * The playing field of a falling-block game, as values.
 *
 * A grid is a sequence of rows of cell values; a cell is occupied when its
 * value is positive (the value is the block type) and free otherwise. A
 * shape is the footprint of a piece in the same encoding, and a position is
 * the offset of the shape's top-left corner in the grid (y rows down,
 * x columns right). This module states what `canMove` decides (Legal) and
 * what `update` produces (Merge), and proves the properties the game relies on.
 */
module FieldSpec {

  type Grid = seq<seq<int>>
  type Shape = seq<seq<int>>

  datatype Position = Position(x: int, y: int)

  /** Row and column counts of a freshly constructed field. */
  const DefaultRows: nat := 20
  const DefaultColumns: nat := 10

  /** A value marks a placed block exactly when it is positive. */
  predicate Occupied(v: int) {
    v > 0
  }

  /** Every row of `g` has `cols` cells. */
  predicate Rectangular(g: Grid, cols: nat) {
    forall r :: 0 <= r < |g| ==> |g[r]| == cols
  }

  /** The grid shape `canMove` relies on: at least one row, all rows as long as the first. */
  predicate IsGrid(g: Grid) {
    |g| > 0 && Rectangular(g, |g[0]|)
  }

  /** A `rows` by `cols` grid of free cells. */
  function EmptyGrid(rows: nat, cols: nat): (g: Grid)
    ensures |g| == rows && Rectangular(g, cols)
    ensures forall r, c :: 0 <= r < rows && 0 <= c < cols ==> g[r][c] == 0
  {
    seq(rows, _ => seq(cols, _ => 0))
  }

  /** Cell (i, j) of the shape exists and is part of the piece. */
  predicate IsBlock(s: Shape, i: int, j: int) {
    0 <= i < |s| && 0 <= j < |s[i]| && s[i][j] > 0
  }

  /** Grid cell (r, c) lies under a block of `s` placed at `p`. */
  predicate Covers(s: Shape, p: Position, r: int, c: int) {
    IsBlock(s, r - p.y, c - p.x)
  }

  /** No block of `s` placed at `p` lands above the top row. */
  ghost predicate RowsNonNegative(s: Shape, p: Position) {
    forall i, j :: IsBlock(s, i, j) ==> i + p.y >= 0
  }

  /** Every block of `s` placed at `p` lands inside a `rows` by `cols` grid. */
  ghost predicate InBounds(rows: int, cols: int, s: Shape, p: Position) {
    forall i, j :: IsBlock(s, i, j) ==> 0 <= i + p.y < rows && 0 <= j + p.x < cols
  }

  /**
   * A block may go to grid cell (r, c): not below the bottom row, not left of
   * the first column, not right of the last column (the width is that of the
   * first row), and not on an occupied cell. `0 <= r` only keeps the cell
   * access defined; callers of `canMove` guarantee it (RowsNonNegative).
   */
  predicate Fits(g: Grid, r: int, c: int)
    requires IsGrid(g)
  {
    0 <= r && r <= |g| - 1 && 0 <= c && c <= |g[0]| - 1 && !Occupied(g[r][c])
  }

  /**
   * The decision of `canMove`: the origin row is above the bottom edge, and
   * every block of the shape fits. Cells of the shape that are not blocks
   * play no part.
   */
  ghost predicate Legal(g: Grid, s: Shape, p: Position)
    requires IsGrid(g)
  {
    p.y < |g| && forall i, j :: IsBlock(s, i, j) ==> Fits(g, i + p.y, j + p.x)
  }

  /** The value of grid cell (r, c) after stamping `s` at `p` over `v`. */
  function Stamp(v: int, s: Shape, p: Position, r: int, c: int): (w: int) {
    if Covers(s, p, r, c) then s[r - p.y][c - p.x] else v
  }

  /**
   * The grid after `update`: each block of the shape is written into the cell
   * under it, every other cell keeps its value, and the dimensions do not
   * change. Blocks that would land outside the grid are dropped; `update`
   * itself is only called when none does.
   */
  function Merge(g: Grid, s: Shape, p: Position): (m: Grid)
    ensures |m| == |g|
    ensures forall r :: 0 <= r < |g| ==> |m[r]| == |g[r]|
    ensures forall i, j :: IsBlock(s, i, j) && 0 <= i + p.y < |g| && 0 <= j + p.x < |g[i + p.y]| ==>
              m[i + p.y][j + p.x] == s[i][j]
    ensures forall r, c :: 0 <= r < |g| && 0 <= c < |g[r]| && !Covers(s, p, r, c) ==> m[r][c] == g[r][c]
  {
    seq(|g|, r requires 0 <= r < |g| => seq(|g[r]|, c requires 0 <= c < |g[r]| => Stamp(g[r][c], s, p, r, c)))
  }

  /** Two grids with the same rows lengths and the same cells are the same grid. */
  lemma SameCells(g: Grid, h: Grid)
    requires |g| == |h| && forall r :: 0 <= r < |g| ==> |g[r]| == |h[r]|
    requires forall r, c :: 0 <= r < |g| && 0 <= c < |g[r]| ==> g[r][c] == h[r][c]
    ensures g == h
  {
    forall r | 0 <= r < |g|
      ensures g[r] == h[r]
    {
    }
  }

  /**
   * Merge is the only grid of the same dimensions that carries every block of
   * the shape and keeps every cell no block covers.
   */
  lemma MergeUnique(g: Grid, h: Grid, s: Shape, p: Position)
    requires |h| == |g| && forall r :: 0 <= r < |g| ==> |h[r]| == |g[r]|
    requires forall i, j :: IsBlock(s, i, j) ==> 0 <= i + p.y < |g| && 0 <= j + p.x < |g[i + p.y]| && h[i + p.y][j + p.x] == s[i][j]
    requires forall r, c :: 0 <= r < |g| && 0 <= c < |g[r]| && !Covers(s, p, r, c) ==> h[r][c] == g[r][c]
    ensures h == Merge(g, s, p)
  {
    var m := Merge(g, s, p);
    forall r, c | 0 <= r < |g| && 0 <= c < |g[r]|
      ensures h[r][c] == m[r][c]
    {
      if Covers(s, p, r, c) {
        var i, j := r - p.y, c - p.x;
        assert IsBlock(s, i, j) && i + p.y == r && j + p.x == c;
      }
    }
    SameCells(h, m);
  }

  /** Every shape whose blocks pass `canMove` can be passed to `update`. */
  lemma LegalImpliesInBounds(g: Grid, s: Shape, p: Position)
    requires IsGrid(g) && Legal(g, s, p)
    ensures InBounds(|g|, |g[0]|, s, p)
  {
  }

  /** Only the blocks of a shape matter to `canMove`: shapes with the same blocks get the same answer. */
  lemma LegalIgnoresEmptyShapeCells(g: Grid, s: Shape, t: Shape, p: Position)
    requires IsGrid(g)
    requires forall i, j :: IsBlock(s, i, j) <==> IsBlock(t, i, j)
    ensures Legal(g, s, p) <==> Legal(g, t, p)
  {
  }

  /** Once a piece is merged, the same piece at the same place collides with itself. */
  lemma MergedPieceIsNotLegal(g: Grid, s: Shape, p: Position, i: int, j: int)
    requires IsGrid(g) && InBounds(|g|, |g[0]|, s, p)
    requires IsBlock(s, i, j)
    ensures IsGrid(Merge(g, s, p))
    ensures !Legal(Merge(g, s, p), s, p)
  {
  }

  /** Merging adds blocks and never removes one. */
  lemma MergeKeepsOccupied(g: Grid, s: Shape, p: Position, r: int, c: int)
    requires 0 <= r < |g| && 0 <= c < |g[r]| && Occupied(g[r][c])
    ensures Occupied(Merge(g, s, p)[r][c])
  {
  }

  /** Merging the same piece at the same place twice changes nothing more. */
  lemma MergeIdempotent(g: Grid, s: Shape, p: Position)
    ensures Merge(Merge(g, s, p), s, p) == Merge(g, s, p)
  {
    var m := Merge(g, s, p);
    var mm := Merge(m, s, p);
    forall r | 0 <= r < |g|
      ensures mm[r] == m[r]
    {
      forall c | 0 <= c < |g[r]|
        ensures mm[r][c] == m[r][c]
      {
        if Covers(s, p, r, c) {
          assert IsBlock(s, r - p.y, c - p.x);
          assert (r - p.y) + p.y == r && (c - p.x) + p.x == c;
        }
      }
    }
  }
}
