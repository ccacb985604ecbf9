# Playing field of a falling-block game, in Dafny

This project models the `Field` class of a Tetris-style game (`src/common/Field.ts`).
A field is a rectangular grid of integer cells. A cell is occupied when its value is
positive, and that value is the block type. Any other value is a free cell. The class offers these operations:

- a constructor that builds a fresh 20×10 grid of zeros, row by row;
- a constructor that wraps caller-supplied grid data without copying it;
- a `data` getter that returns the live storage;
- `canMove(shape, position)`, a read-only check that a piece may stand at a position;
- `update(shape, position)`, which stamps a piece's blocks into the grid in place;
- the static `deepCopy(field)`, which builds an independent field with the same cells.

The model has three modules:

- `FieldSpec` (`field_spec.dfy`) works on values. Grids and shapes are `seq<seq<int>>`, and a position is a datatype `Position(x, y)`.
  - `Legal` is the decision `canMove` makes. The origin row must be above the bottom edge (`y < rows`). Each block of the shape must land no lower than the last row, no further left than column 0 and no further right than the last column of the first row. It must also land on a cell that is not occupied.
  - `Merge` is the grid `update` produces.
  - The lemmas prove the properties a game loop relies on.
- `FieldClass` (`field.dfy`) holds the class `Field`. Its storage is an `array2<int>`.
  - `CanMove` and `Update` are nested loops, as in the source. `CanMove` has the same early returns.
  - Both are proved against `Legal` and `Merge` through the ghost view `Cells()`.
  - The default constructor and `DeepCopy` fill arrays in nested loops; `FromData` only keeps the array it is given.
  - Three client methods state what callers can rely on: copy isolation in both directions, and repeatable answers from `canMove`.
- `FieldExamples` (`field_examples.dfy`) holds concrete placements on a 20×10 field. They show each edge of the legality rule and of the merge.

The source makes three demands of its callers without checking them. The model writes them as `requires` clauses:

- `canMove` reads the width from row 0, so the grid needs at least one row.
- `canMove` must never index a row above the top, so every block's target row must be non-negative (`RowsNonNegative`).
- `update` does no bounds check, so every block must land inside the grid (`InBounds`). `LegalImpliesInBounds` shows that a position `canMove` accepts meets this.

## Model

| member | source | states |
|---|---|---|
| `FieldClass.Field.constructor` | src/common/Field.ts:9-19 | a field built without data has fresh storage of exactly 20 rows by 10 columns, every cell 0 |
| `FieldClass.Field.FromData` | src/common/Field.ts:6-7 | a field built from data keeps that very storage, and the `data` getter (lines 24-26) returns it, not a copy |
| `FieldClass.Field.Data` | src/common/Field.ts:24-26 | the getter returns the field's own storage object, not a copy, so whatever is written through it is what `update` and `canMove` see |
| `FieldClass.Field.CanMove` | src/common/Field.ts:57-83 | the answer is false whenever the origin row is at or below the bottom edge, and otherwise true exactly when every positive shape cell lands inside the rows and columns on a cell that is not occupied; the field is not modified |
| `FieldClass.Field.Update` | src/common/Field.ts:28-39 | given in-bounds blocks, every positive shape cell (i,j) is written to grid cell (i+y, j+x); every cell not under a block keeps its old value; the storage and its dimensions are unchanged |
| `FieldClass.Field.DeepCopy` | src/common/Field.ts:42-52 | the copy is a new field over newly allocated storage with the same dimensions and the same cell values as the source |
| `FieldClass.UpdateCopy` | src/common/Field.ts:42-52 | updating a deep copy leaves the original untouched, and the copy becomes the original with the piece merged in |
| `FieldClass.SnapshotThenUpdate` | src/common/Field.ts:42-52 | a deep copy taken before an update of the original keeps the original's old cells, while the original takes the merge |
| `FieldClass.CanMoveTwice` | src/common/Field.ts:57-83 | two `canMove` calls with the same arguments on an unchanged field give the same answer |
| `FieldSpec.EmptyGrid` | src/common/Field.ts:13-18 | the default grid has the given number of rows, every row the given length, every cell 0 |
| `FieldSpec.Merge` | src/common/Field.ts:28-39 | the merged grid keeps every row count and row length; a positive shape cell landing inside the grid is written there; a cell not under a positive shape cell keeps its value |
| `FieldSpec.MergeUnique` | src/common/Field.ts:28-39 | any grid of the same dimensions that holds every block of the shape at its target cell and keeps every uncovered cell is exactly the merge, so `update`'s outcome is fully determined |
| `FieldSpec.LegalImpliesInBounds` | src/common/Field.ts:73-75 | a placement `canMove` accepts puts every block inside the grid, which is what `update` needs |
| `FieldSpec.LegalIgnoresEmptyShapeCells` | src/common/Field.ts:72 | two shapes with the same positive cells get the same `canMove` answer, whatever their zero cells overlap |
| `FieldSpec.MergedPieceIsNotLegal` | src/common/Field.ts:34-35 | after a piece with at least one block is merged, the same piece at the same position no longer passes `canMove` (line 76 sees its own blocks) |
| `FieldSpec.MergeKeepsOccupied` | src/common/Field.ts:34-35 | an occupied cell stays occupied after a merge: `update` only adds blocks |
| `FieldSpec.MergeIdempotent` | src/common/Field.ts:34-35 | merging the same piece at the same position a second time changes nothing |
| `FieldExamples.BottomEdge` | src/common/Field.ts:61-73 | on an empty 20-row field a one-cell piece is legal at row 19 and rejected at row 20 |
| `FieldExamples.SideEdges` | src/common/Field.ts:74-75 | on an empty 10-column field a one-cell piece is legal at column 9 and rejected at columns -1 and 10 |
| `FieldExamples.Collision` | src/common/Field.ts:76 | with a block at (5,5), a one-cell piece is rejected at (5,5) and legal at row 4 |
| `FieldExamples.EmptyShapeCellOverBlock` | src/common/Field.ts:72 | a zero shape cell lying over an occupied cell does not make the placement illegal |
| `FieldExamples.MergeBesideBlock` | src/common/Field.ts:34-35 | merging `[[0,1]]` at (3,2) keeps the 5 already at (2,3) and writes 1 at (2,4) |

## Left out

- The grid is an `array2<int>`, so it is always rectangular and its rows are distinct storage. The source stores `number[][]`. A supplied grid whose rows have different lengths, or whose rows share one array, is not modelled. The source never checks either case.
- The source's `deepCopy` allocates one new array per row. The model allocates one new two-dimensional array, which gives the same independence.
- Shapes are passed as values (`seq<seq<int>>`). A shape array that aliases the field's own storage is not modelled.
- Cell values and positions are unbounded integers. JavaScript numbers can be fractional, NaN or larger than 2^53; none of that is modelled.
- Calling `canMove` on a grid with no rows throws in the source (it reads the width from row 0). The model excludes this with a `requires`.
- `FieldClass.Field.CanMove`: its `requires RowsNonNegative` excludes every placement with a block on a negative row. The source throws on such a block only when the loop reaches it and its column passes the checks at lines 74-75, because only then does line 76 index the missing row. If an earlier block fails, or this block's column is out of range, the source returns false without a fault; for example `[[1]]` at x = -1, y = -1. The precondition also excludes these placements, so the model says nothing about them. `Fits` also carries a `0 <= r` conjunct; that conjunct only keeps the cell access defined and never changes the answer under that `requires`.
- An `update` with a block outside the grid is excluded by its `requires`. In the source, a row out of range throws. A column out of range writes past the end of the row array or onto a negative property key.
- Rendering, the app bootstrap and the route table in `src/main.ts`, and the page components are outside the model. So is any caller of `Field`.
