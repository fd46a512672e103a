/**
 * The table operations the pipeline is built from, as functions on values:
 * column selection, dropping rows with a missing value, a first-match
 * search, a single-cell write, column-wise cell replacement, and the
 * conversions to and from the imputer's matrices.
 */
module Tables {
  import opened Schema
  import opened Cells
  import opened Encoding

  /** A table: its column order and its rows. */
  datatype Table = Table(columns: seq<Column>, rows: seq<Row>)

  predicate HasColumns(r: Row, cols: seq<Column>) {
    forall c :: c in cols ==> c in r
  }

  /** Every row has a cell in every listed column. */
  predicate WellFormed(t: Table) {
    forall k | 0 <= k < |t.rows| :: HasColumns(t.rows[k], t.columns)
  }

  // ---------------------------------------------------------------- selection

  /** The first of `wanted` that is not among `have`. */
  function FirstAbsent(wanted: seq<Column>, have: seq<Column>): (r: Option<Column>)
    ensures r.None? <==> forall c :: c in wanted ==> c in have
    ensures r.Some? ==> r.value in wanted && r.value !in have
  {
    if wanted == [] then None
    else if wanted[0] !in have then Some(wanted[0])
    else FirstAbsent(wanted[1..], have)
  }

  /** With every column before position `i` present and the one at `i`
      absent, the first absent column is the one at `i`. */
  lemma {:induction false} FirstAbsentAt(wanted: seq<Column>, have: seq<Column>, i: nat)
    requires i < |wanted| && wanted[i] !in have
    requires forall j | 0 <= j < i :: wanted[j] in have
    ensures FirstAbsent(wanted, have) == Some(wanted[i])
  {
    if i > 0 {
      FirstAbsentAt(wanted[1..], have, i - 1);
    }
  }

  function Project(r: Row, cols: seq<Column>): Row {
    map c | c in r && c in cols :: r[c]
  }

  /** `frame[cols]`: the listed columns in the listed order, or a KeyError
      naming a column the frame lacks. */
  function Select(t: Table, cols: seq<Column>): (r: Result<Table>)
    requires WellFormed(t)
    ensures r.Err? <==> exists c :: c in cols && c !in t.columns
    ensures r.Err? ==> r.error.MissingColumn? && r.error.column in cols && r.error.column !in t.columns
    ensures r.Ok? ==> r.value.columns == cols && |r.value.rows| == |t.rows| && WellFormed(r.value)
    ensures r.Ok? ==> forall k, c | 0 <= k < |t.rows| && c in cols ::
      c in r.value.rows[k] && r.value.rows[k][c] == t.rows[k][c]
    ensures r.Ok? ==> forall k | 0 <= k < |t.rows| :: forall c :: c in r.value.rows[k] ==> c in cols
  {
    match FirstAbsent(cols, t.columns)
    case Some(c) => Err(MissingColumn(c))
    case None => Ok(Table(cols, seq(|t.rows|, k requires 0 <= k < |t.rows| => Project(t.rows[k], cols))))
  }

  // ------------------------------------------------------- dropping rows

  predicate Present(r: Row, c: Column) {
    c in r && r[c] != Missing
  }

  /** `dropna(subset=[c])`: the rows whose cell in `c` is present, in order. */
  function DropMissing(rows: seq<Row>, c: Column): (r: seq<Row>)
    ensures |r| <= |rows|
    ensures forall k | 0 <= k < |r| :: Present(r[k], c) && r[k] in rows
  {
    if rows == [] then []
    else
      var last := rows[|rows| - 1];
      DropMissing(rows[..|rows| - 1], c) + (if Present(last, c) then [last] else [])
  }

  /** How many rows have no value in `c`. */
  function MissingCount(rows: seq<Row>, c: Column): nat {
    if rows == [] then 0
    else (if Present(rows[0], c) then 0 else 1) + MissingCount(rows[1..], c)
  }

  /** The positions of the rows whose cell in `c` is present, in order. */
  function KeptPositions(rows: seq<Row>, c: Column): (p: seq<nat>)
    ensures forall k | 0 <= k < |p| :: p[k] < |rows|
    ensures forall k, l | 0 <= k < l < |p| :: p[k] < p[l]
  {
    if rows == [] then []
    else
      var n := |rows| - 1;
      KeptPositions(rows[..n], c) + (if Present(rows[n], c) then [n] else [])
  }

  /** `dropna` keeps exactly the rows with a present value, in their original
      order: the k-th kept row is the row at the k-th kept position (and the
      positions increase, by the contract of `KeptPositions`). */
  lemma {:induction false} DropMissingKeepsPositions(rows: seq<Row>, c: Column)
    ensures |DropMissing(rows, c)| == |KeptPositions(rows, c)|
    ensures forall k | 0 <= k < |KeptPositions(rows, c)| ::
      DropMissing(rows, c)[k] == rows[KeptPositions(rows, c)[k]]
  {
    if rows != [] {
      var n := |rows| - 1;
      DropMissingKeepsPositions(rows[..n], c);
      forall k | 0 <= k < |KeptPositions(rows[..n], c)|
        ensures rows[..n][KeptPositions(rows[..n], c)[k]] == rows[KeptPositions(rows[..n], c)[k]]
      { }
    }
  }

  /** A position is kept exactly when its row has a value in `c`. */
  lemma {:induction false} KeptPositionsExactly(rows: seq<Row>, c: Column)
    ensures forall i | 0 <= i < |rows| :: i in KeptPositions(rows, c) <==> Present(rows[i], c)
  {
    if rows != [] {
      var n := |rows| - 1;
      KeptPositionsExactly(rows[..n], c);
      forall i | 0 <= i < n ensures rows[..n][i] == rows[i] { }
    }
  }

  /** The rows `dropna` removes are the rows with no value in `c`. */
  lemma {:induction false} DropMissingCount(rows: seq<Row>, c: Column)
    ensures |DropMissing(rows, c)| == |rows| - MissingCount(rows, c)
  {
    if rows != [] {
      var tail := rows[1..];
      DropMissingPrepend(rows[0], tail, c);
      assert [rows[0]] + tail == rows;
      DropMissingCount(tail, c);
    }
  }

  lemma {:induction false} DropMissingPrepend(x: Row, rows: seq<Row>, c: Column)
    ensures DropMissing([x] + rows, c) == (if Present(x, c) then [x] else []) + DropMissing(rows, c)
    decreases |rows|
  {
    var xs := [x] + rows;
    if rows == [] {
      assert xs[..0] == [];
    } else {
      var n := |rows| - 1;
      assert xs[..|xs| - 1] == [x] + rows[..n];
      assert xs[|xs| - 1] == rows[n];
      DropMissingPrepend(x, rows[..n], c);
    }
  }

  /** `dropna` on a whole table. */
  function DropNa(t: Table, c: Column): (r: Table)
    ensures r.columns == t.columns && (WellFormed(t) ==> WellFormed(r))
  {
    Table(t.columns, DropMissing(t.rows, c))
  }

  /** Two row lists that agree on which rows have a value in `c` keep the
      same positions. */
  lemma {:induction false} KeptPositionsAgree(rows: seq<Row>, rows': seq<Row>, c: Column)
    requires |rows| == |rows'|
    requires forall k | 0 <= k < |rows| :: Present(rows[k], c) <==> Present(rows'[k], c)
    ensures KeptPositions(rows, c) == KeptPositions(rows', c)
  {
    if rows != [] {
      var n := |rows| - 1;
      KeptPositionsAgree(rows[..n], rows'[..n], c);
    }
  }

  /** Selecting columns first does not change which rows `dropna` keeps,
      nor their cells in the selected columns. */
  lemma SelectThenDropMissing(t: Table, cols: seq<Column>, c: Column, d: Column)
    requires WellFormed(t) && Select(t, cols).Ok? && c in cols && d in cols
    ensures var s, kept := Select(t, cols).value, DropMissing(t.rows, c);
      && |DropMissing(s.rows, c)| == |kept|
      && forall k | 0 <= k < |kept| :: d in kept[k] && DropMissing(s.rows, c)[k][d] == kept[k][d]
  {
    var s := Select(t, cols).value;
    KeptPositionsAgree(s.rows, t.rows, c);
    DropMissingKeepsPositions(s.rows, c);
    DropMissingKeepsPositions(t.rows, c);
  }

  // --------------------------------------------------- first-match search

  predicate Below(r: Row, c: Column, bound: real) {
    c in r && r[c].Num? && r[c].x < bound
  }

  predicate HoldsText(r: Row, c: Column) {
    c in r && r[c].Text?
  }

  /** `np.argwhere(frame[c] < bound)[0, 0]`: the first row whose value in `c`
      is a number below `bound` (a missing value is not below anything). */
  function FirstBelow(rows: seq<Row>, c: Column, bound: real): (r: Option<nat>)
    ensures r.Some? ==> r.value < |rows| && Below(rows[r.value], c, bound)
    ensures r.Some? ==> forall k | 0 <= k < r.value :: !Below(rows[k], c, bound)
    ensures r.None? ==> forall k | 0 <= k < |rows| :: !Below(rows[k], c, bound)
  {
    if rows == [] then None
    else if Below(rows[0], c, bound) then Some(0)
    else match FirstBelow(rows[1..], c, bound)
      case None => None
      case Some(i) => Some(i + 1)
  }

  /** `iloc[i, get_loc(c)] = v`: one cell overwritten. */
  function SetCell(rows: seq<Row>, i: nat, c: Column, v: Cell): (r: seq<Row>)
    requires i < |rows|
    ensures |r| == |rows| && r[i].Keys == rows[i].Keys + {c} && r[i][c] == v
    ensures forall k | 0 <= k < |rows| && k != i :: r[k] == rows[k]
    ensures forall d | d in rows[i] && d != c :: r[i][d] == rows[i][d]
  {
    rows[i := rows[i][c := v]]
  }

  // ----------------------------------------------- column-wise replacement

  /** The element-wise operations applied to a whole column. */
  datatype CellOp =
    | ReplaceLabels(labels: LabelMap)          // Series.replace(themap)
    | ReplaceSentinel                          // Series.replace(-1, nan)
    | DivideWhereAbove(bound: real, divisor: real)  // loc[col > bound, col] /= divisor

  predicate ValidOp(op: CellOp) {
    op.DivideWhereAbove? ==> op.divisor != 0.0
  }

  function Apply(op: CellOp, x: Cell): Cell
    requires ValidOp(op)
  {
    match op
    case ReplaceLabels(m) => ReplaceLabel(m, x)
    case ReplaceSentinel => SentinelToMissing(x)
    case DivideWhereAbove(bound, divisor) => if x.Num? && x.x > bound then Num(x.x / divisor) else x
  }

  /** `op` applied to every cell of column `c`; no other cell changes. */
  function MapColumn(rows: seq<Row>, c: Column, op: CellOp): (r: seq<Row>)
    requires ValidOp(op)
    ensures |r| == |rows|
    ensures forall k | 0 <= k < |rows| :: r[k].Keys == rows[k].Keys
    ensures forall k | 0 <= k < |rows| && c in rows[k] :: r[k][c] == Apply(op, rows[k][c])
    ensures forall k, d | 0 <= k < |rows| && d in rows[k] && d != c :: r[k][d] == rows[k][d]
  {
    seq(|rows|, k requires 0 <= k < |rows| =>
      if c in rows[k] then rows[k][c := Apply(op, rows[k][c])] else rows[k])
  }

  /** The encoding loop over the first `|maps|` entries of the table: for
      each (column, map), `replace(map)` and then `replace(-1, nan)` on
      that column. */
  function EncodeColumns(rows: seq<Row>, maps: seq<(Column, LabelMap)>): (r: seq<Row>)
    ensures |r| == |rows| && forall k | 0 <= k < |rows| :: r[k].Keys == rows[k].Keys
    decreases |maps|
  {
    if maps == [] then rows
    else
      var (c, m) := maps[|maps| - 1];
      MapColumn(MapColumn(EncodeColumns(rows, maps[..|maps| - 1]), c, ReplaceLabels(m)), c, ReplaceSentinel)
  }

  /** After the loop, a cell of a listed column has been encoded once with
      that column's map, and every other cell is unchanged. */
  lemma {:induction false} EncodeColumnsAt(rows: seq<Row>, maps: seq<(Column, LabelMap)>, k: nat, c: Column)
    requires forall i, j | 0 <= i < j < |maps| :: maps[i].0 != maps[j].0
    requires k < |rows| && c in rows[k]
    ensures forall j | 0 <= j < |maps| && maps[j].0 == c ::
      EncodeColumns(rows, maps)[k][c] == EncodeCell(maps[j].1, rows[k][c])
    ensures (forall j | 0 <= j < |maps| :: maps[j].0 != c) ==>
      EncodeColumns(rows, maps)[k][c] == rows[k][c]
    decreases |maps|
  {
    if maps != [] {
      var init := maps[..|maps| - 1];
      EncodeColumnsAt(rows, init, k, c);
      forall j | 0 <= j < |init| ensures init[j] == maps[j] { }
    }
  }

  // ------------------------------------------------------ imputer matrices

  /** `frame.drop(columns=gone)` as a matrix: each row's cells in the
      remaining columns, in column order. */
  function FeatureMatrix(t: Table, gone: seq<Column>): (x: seq<seq<Cell>>)
    requires WellFormed(t)
    ensures |x| == |t.rows|
    ensures forall k | 0 <= k < |x| :: |x[k]| == |Without(t.columns, gone)|
    ensures forall k, j | 0 <= k < |x| && 0 <= j < |Without(t.columns, gone)| ::
      Without(t.columns, gone)[j] in t.rows[k] && x[k][j] == t.rows[k][Without(t.columns, gone)[j]]
  {
    var kept := Without(t.columns, gone);
    seq(|t.rows|, k requires 0 <= k < |t.rows| =>
      seq(|kept|, j requires 0 <= j < |kept| => t.rows[k][kept[j]]))
  }

  /** The first position of `c` among `cols`. */
  function PositionIn(cols: seq<Column>, c: Column): (j: nat)
    requires c in cols
    ensures j < |cols| && cols[j] == c && c !in cols[..j]
  {
    if cols[0] == c then 0
    else
      var j := PositionIn(cols[1..], c);
      assert cols[..j + 1] == [cols[0]] + cols[1..][..j];
      j + 1
  }

  /** `pd.DataFrame(dense, columns=labels)`: row k holds value j of dense
      row k under label j. */
  function DenseTable(labels: seq<Column>, dense: seq<seq<real>>): (t: Table)
    requires forall k | 0 <= k < |dense| :: |dense[k]| == |labels|
    ensures t.columns == labels && |t.rows| == |dense| && WellFormed(t)
    ensures forall k, c | 0 <= k < |dense| && c in labels ::
      t.rows[k][c] == Num(dense[k][PositionIn(labels, c)])
  {
    Table(labels, seq(|dense|, k requires 0 <= k < |dense| =>
      map c | c in labels :: Num(dense[k][PositionIn(labels, c)])))
  }

  /** `frame[c] = values`: the column is overwritten, or appended as the last
      column when the frame has none of that name. */
  function AssignColumn(t: Table, c: Column, values: seq<Cell>): (r: Table)
    requires |values| == |t.rows|
    ensures r.columns == if c in t.columns then t.columns else t.columns + [c]
    ensures |r.rows| == |t.rows|
    ensures forall k | 0 <= k < |t.rows| :: r.rows[k].Keys == t.rows[k].Keys + {c} && r.rows[k][c] == values[k]
    ensures forall k, d | 0 <= k < |t.rows| && d in t.rows[k] && d != c :: r.rows[k][d] == t.rows[k][d]
    ensures WellFormed(t) ==> WellFormed(r)
  {
    Table(if c in t.columns then t.columns else t.columns + [c],
      seq(|t.rows|, k requires 0 <= k < |t.rows| => t.rows[k][c := values[k]]))
  }

  /** The cells of column `c`, top to bottom (a row without the column
      contributes a missing cell). */
  function ColumnOf(rows: seq<Row>, c: Column): (col: seq<Cell>)
    ensures |col| == |rows| && forall k | 0 <= k < |rows| && c in rows[k] :: col[k] == rows[k][c]
  {
    seq(|rows|, k requires 0 <= k < |rows| => if c in rows[k] then rows[k][c] else Missing)
  }

  /** Integer codes as numeric cells. */
  function CodeCells(codes: seq<int>): (col: seq<Cell>)
    ensures |col| == |codes| && forall k | 0 <= k < |codes| :: col[k] == Num(codes[k] as real)
  {
    seq(|codes|, k requires 0 <= k < |codes| => Num(codes[k] as real))
  }
}
