/**
 * Concrete placements on a default-size field, showing each edge of the
 * legality rule and of the merge.
 */
module FieldExamples {
  import opened FieldSpec

  /** A single-cell piece of block type 1. */
  const Dot: Shape := [[1]]

  /** The bottom edge: the last row is allowed, the row below it is not. */
  lemma BottomEdge()
    ensures IsGrid(EmptyGrid(20, 10))
    ensures !Legal(EmptyGrid(20, 10), Dot, Position(0, 20))
    ensures Legal(EmptyGrid(20, 10), Dot, Position(0, 19))
  {
  }

  /** The side edges: columns 0 to 9 are allowed, -1 and 10 are not. */
  lemma SideEdges()
    ensures IsGrid(EmptyGrid(20, 10))
    ensures !Legal(EmptyGrid(20, 10), Dot, Position(-1, 0))
    ensures !Legal(EmptyGrid(20, 10), Dot, Position(10, 0))
    ensures Legal(EmptyGrid(20, 10), Dot, Position(9, 0))
  {
    var g := EmptyGrid(20, 10);
    assert IsBlock(Dot, 0, 0);
    assert Fits(g, 0, 9);
  }

  /** A placed block at (5, 5) stops a piece there but not one row above. */
  lemma Collision()
    ensures IsGrid(Merge(EmptyGrid(20, 10), [[2]], Position(5, 5)))
    ensures !Legal(Merge(EmptyGrid(20, 10), [[2]], Position(5, 5)), Dot, Position(5, 5))
    ensures Legal(Merge(EmptyGrid(20, 10), [[2]], Position(5, 5)), Dot, Position(5, 4))
  {
    var g := Merge(EmptyGrid(20, 10), [[2]], Position(5, 5));
    assert IsBlock([[2]], 0, 0);
    assert g[5][5] == 2;
    assert IsBlock(Dot, 0, 0);
    assert !Covers([[2]], Position(5, 5), 4, 5);
    assert Fits(g, 4, 5);
  }

  /** A free cell of the shape may lie over an occupied cell of the grid. */
  lemma EmptyShapeCellOverBlock()
    ensures IsGrid(Merge(EmptyGrid(20, 10), [[5]], Position(3, 2)))
    ensures Legal(Merge(EmptyGrid(20, 10), [[5]], Position(3, 2)), [[0, 1]], Position(3, 2))
  {
  }

  /** Merging keeps the value under a free shape cell and writes the block beside it. */
  lemma MergeBesideBlock()
    ensures Merge(Merge(EmptyGrid(20, 10), [[5]], Position(3, 2)), [[0, 1]], Position(3, 2))[2][3] == 5
    ensures Merge(Merge(EmptyGrid(20, 10), [[5]], Position(3, 2)), [[0, 1]], Position(3, 2))[2][4] == 1
  {
  }
}
