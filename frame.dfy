/**
 * A data frame updated in place, with the three kinds of in-place update the
 * pipeline makes: a single-cell write, a whole-column element-wise
 * replacement, and a column assignment.
 */
module Frames {
  import opened Schema
  import opened Cells
  import opened Tables

  class Frame {
    var columns: seq<Column>
    var rows: seq<Row>

    /** A fresh frame holding a copy of `t` (`deepcopy`, `pd.DataFrame`). */
    constructor (t: Table)
      ensures columns == t.columns && rows == t.rows
    {
      columns := t.columns;
      rows := t.rows;
    }

    /** The frame's current contents. */
    function Value(): Table
      reads this
    {
      Table(columns, rows)
    }

    /** `frame.iloc[i, frame.columns.get_loc(c)] = v`. */
    method SetCell(i: nat, c: Column, v: Cell)
      requires i < |rows|
      modifies this
      ensures columns == old(columns) && rows == Tables.SetCell(old(rows), i, c, v)
    {
      rows := Tables.SetCell(rows, i, c, v);
    }

    /** `frame[c] = frame[c].replace(m)`, `frame[c].replace(-1, nan,
        inplace=True)` and `frame.loc[frame[c] > x, c] /= y`: one operation
        applied to every cell of column `c`. */
    method MapColumn(c: Column, op: CellOp)
      requires ValidOp(op)
      modifies this
      ensures columns == old(columns) && rows == Tables.MapColumn(old(rows), c, op)
    {
      rows := Tables.MapColumn(rows, c, op);
    }

    /** `frame[c] = values`. */
    method AssignColumn(c: Column, values: seq<Cell>)
      requires |values| == |rows|
      modifies this
      ensures Value() == Tables.AssignColumn(old(Value()), c, values)
    {
      var t := Tables.AssignColumn(Value(), c, values);
      columns, rows := t.columns, t.rows;
    }
  }
}
