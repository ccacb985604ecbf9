/**
 * The `Field` class: a playing field that owns (or wraps) a two-dimensional
 * array of cell values and answers placement queries and merges in place.
 * Each method is proved against the value-level model in FieldSpec.
 */
module FieldClass {
  import opened FieldSpec

  /** The cells of `a`, row by row. */
  ghost function Contents(a: array2<int>): (g: Grid)
    reads a
    ensures |g| == a.Length0 && Rectangular(g, a.Length1)
    ensures forall r, c :: 0 <= r < a.Length0 && 0 <= c < a.Length1 ==> g[r][c] == a[r, c]
  {
    seq(a.Length0, r requires 0 <= r < a.Length0 reads a =>
      seq(a.Length1, c requires 0 <= c < a.Length1 reads a => a[r, c]))
  }

  /** Grid cell (r, c) lies under a block of `s` at `p` that comes before block (i, j) in row-major order. */
  ghost predicate StampedBefore(s: Shape, p: Position, i: int, j: int, r: int, c: int) {
    Covers(s, p, r, c) && (r - p.y < i || (r - p.y == i && c - p.x < j))
  }

  class Field {
    /** The grid storage. It is never replaced; `update` changes its cells. */
    const field: array2<int>

    /** The cells of the field as a value. */
    ghost function Cells(): Grid
      reads field
    {
      Contents(field)
    }

    /** A new field of DefaultRows by DefaultColumns free cells, built row by row. */
    constructor ()
      ensures fresh(field)
      ensures field.Length0 == DefaultRows && field.Length1 == DefaultColumns
      ensures Cells() == EmptyGrid(DefaultRows, DefaultColumns)
    {
      var data := new int[DefaultRows, DefaultColumns];
      for i := 0 to DefaultRows
        invariant forall r, c :: 0 <= r < i && 0 <= c < DefaultColumns ==> data[r, c] == 0
      {
        for j := 0 to DefaultColumns
          invariant forall r, c :: 0 <= r < i && 0 <= c < DefaultColumns ==> data[r, c] == 0
          invariant forall c :: 0 <= c < j ==> data[i, c] == 0
        {
          data[i, j] := 0;
        }
      }
      field := data;
      SameCells(Contents(data), EmptyGrid(DefaultRows, DefaultColumns));
    }

    /** A field over the caller's grid: the storage is shared, not copied. */
    constructor FromData(data: array2<int>)
      ensures Data() == data
    {
      field := data;
    }

    /** The live grid storage: the very array `Update` writes to, not a copy of it. */
    function Data(): (d: array2<int>)
      ensures d == field
    {
      field
    }

    /**
     * Whether `shape` may be placed at `pos`: false when the origin row is at
     * or below the bottom edge, otherwise false exactly when some block of the
     * shape lands below the grid, left or right of it, or on an occupied cell.
     */
    method CanMove(shape: Shape, pos: Position) returns (ok: bool)
      requires field.Length0 > 0
      requires RowsNonNegative(shape, pos)
      ensures IsGrid(Cells())
      ensures ok == Legal(Cells(), shape, pos)
      ensures pos.y >= field.Length0 ==> !ok
    {
      var yMax := field.Length0;
      var xMax := field.Length1;
      if pos.y >= yMax {
        return false;
      }
      var i := 0;
      while i < |shape|
        invariant 0 <= i <= |shape|
        invariant forall i', j' :: 0 <= i' < i && IsBlock(shape, i', j') ==> Fits(Cells(), i' + pos.y, j' + pos.x)
      {
        var rows := shape[i];
        var j := 0;
        while j < |rows|
          invariant 0 <= j <= |rows|
          invariant forall i', j' :: 0 <= i' < i && IsBlock(shape, i', j') ==> Fits(Cells(), i' + pos.y, j' + pos.x)
          invariant forall j' :: 0 <= j' < j && IsBlock(shape, i, j') ==> Fits(Cells(), i + pos.y, j' + pos.x)
        {
          var block := rows[j];
          if block > 0 {
            assert IsBlock(shape, i, j);
            if i + pos.y > yMax - 1 || 0 > j + pos.x || j + pos.x > xMax - 1 || field[i + pos.y, j + pos.x] > 0 {
              assert !Fits(Cells(), i + pos.y, j + pos.x);
              return false;
            }
          }
          j := j + 1;
        }
        i := i + 1;
      }
      return true;
    }

    /**
     * Stamps every block of `shape` into the grid at `pos`, in place: cells
     * under blocks take the block's value, every other cell keeps its value.
     * No bounds checks: every block must land inside the grid.
     */
    method Update(shape: Shape, pos: Position)
      requires InBounds(field.Length0, field.Length1, shape, pos)
      modifies field
      ensures Cells() == Merge(old(Cells()), shape, pos)
      ensures forall i, j :: IsBlock(shape, i, j) ==> field[i + pos.y, j + pos.x] == shape[i][j]
      ensures forall r, c :: 0 <= r < field.Length0 && 0 <= c < field.Length1 && !Covers(shape, pos, r, c) ==>
                field[r, c] == old(field[r, c])
    {
      var i := 0;
      while i < |shape|
        invariant 0 <= i <= |shape|
        invariant forall i', j' :: IsBlock(shape, i', j') && i' < i ==> field[i' + pos.y, j' + pos.x] == shape[i'][j']
        invariant forall r, c :: 0 <= r < field.Length0 && 0 <= c < field.Length1 && !StampedBefore(shape, pos, i, 0, r, c) ==>
                    field[r, c] == old(field[r, c])
      {
        var cols := shape[i];
        var j := 0;
        while j < |cols|
          invariant 0 <= j <= |cols|
          invariant forall i', j' :: IsBlock(shape, i', j') && i' < i ==> field[i' + pos.y, j' + pos.x] == shape[i'][j']
          invariant forall j' :: IsBlock(shape, i, j') && j' < j ==> field[i + pos.y, j' + pos.x] == shape[i][j']
          invariant forall r, c :: 0 <= r < field.Length0 && 0 <= c < field.Length1 && !StampedBefore(shape, pos, i, j, r, c) ==>
                      field[r, c] == old(field[r, c])
        {
          var block := cols[j];
          if block > 0 {
            assert IsBlock(shape, i, j);
            field[i + pos.y, j + pos.x] := block;
          }
          j := j + 1;
        }
        i := i + 1;
      }
      MergeUnique(old(Cells()), Cells(), shape, pos);
    }

    /** A new field with its own storage, holding the same cells as `source`. */
    static method DeepCopy(source: Field) returns (copy: Field)
      ensures fresh(copy) && fresh(copy.field)
      ensures copy.field.Length0 == source.field.Length0 && copy.field.Length1 == source.field.Length1
      ensures copy.Cells() == source.Cells()
    {
      var data := source.Data();
      var newFieldData := new int[data.Length0, data.Length1];
      for i := 0 to data.Length0
        invariant forall r, c :: 0 <= r < i && 0 <= c < data.Length1 ==> newFieldData[r, c] == data[r, c]
      {
        for j := 0 to data.Length1
          invariant forall r, c :: 0 <= r < i && 0 <= c < data.Length1 ==> newFieldData[r, c] == data[r, c]
          invariant forall c :: 0 <= c < j ==> newFieldData[i, c] == data[i, c]
        {
          newFieldData[i, j] := data[i, j];
        }
      }
      copy := new Field.FromData(newFieldData);
      SameCells(copy.Cells(), source.Cells());
    }
  }

  /**
   * A caller's view of deepCopy: updating the copy leaves the original as it
   * was (this method may not modify `original` at all) and the copy ends up
   * as the original with the piece merged in.
   */
  method UpdateCopy(original: Field, shape: Shape, pos: Position) returns (copy: Field)
    requires InBounds(original.field.Length0, original.field.Length1, shape, pos)
    ensures copy.field != original.field
    ensures copy.Cells() == Merge(original.Cells(), shape, pos)
  {
    copy := Field.DeepCopy(original);
    copy.Update(shape, pos);
  }

  /** The other direction: a copy taken before an update keeps the old cells. */
  method SnapshotThenUpdate(f: Field, shape: Shape, pos: Position) returns (snapshot: Field)
    requires InBounds(f.field.Length0, f.field.Length1, shape, pos)
    modifies f.field
    ensures snapshot.field != f.field
    ensures snapshot.Cells() == old(f.Cells())
    ensures f.Cells() == Merge(old(f.Cells()), shape, pos)
  {
    snapshot := Field.DeepCopy(f);
    f.Update(shape, pos);
  }

  /** `canMove` changes nothing, so asking twice gives the same answer. */
  method CanMoveTwice(f: Field, shape: Shape, pos: Position) returns (first: bool, second: bool)
    requires f.field.Length0 > 0
    requires RowsNonNegative(shape, pos)
    ensures first == second
  {
    first := f.CanMove(shape, pos);
    second := f.CanMove(shape, pos);
  }
}
