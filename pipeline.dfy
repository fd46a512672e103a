/**
 * `run_preprocessing` as a function of its two input tables and the
 * imputer: every step of both cohorts, with the exceptions it can raise
 * as `Err` results.
 */
module Pipeline {
  import opened Schema
  import opened Cells
  import opened Encoding
  import opened Factorization
  import opened Tables

  /** A numeric matrix with holes (NaN), as the imputer receives it. */
  type Matrix = seq<seq<Option<real>>>

  /** The KNN imputer, not modelled: `imp(fit, x)` is the imputer fitted on
      `fit` and applied to `x`, or `None` where it raises. */
  type Imputer = (Matrix, Matrix) -> Option<seq<seq<real>>>

  /** The temperature below which a record counts as wrongly entered. */
  const TempThreshold: real := 30.0
  /** The value that replaces the first such record. */
  const TempReplacement: real := 36.9
  /** WBC counts above this are taken to be in the wrong unit. */
  const WbcThreshold: real := 1000.0
  const WbcDivisor: real := 1000.0

  // ----------------------------------------------------- body temperature

  /** The single body temperature correction of the first cohort: the first
      row whose temperature is below 30 gets 36.9. */
  function FixBodyTemp(t: Table): (r: Result<Table>)
    ensures r.Err? <==> (BodyTemp !in t.columns
      || (exists k | 0 <= k < |t.rows| :: HoldsText(t.rows[k], BodyTemp))
      || FirstBelow(t.rows, BodyTemp, TempThreshold).None?)
    ensures r.Ok? ==> r.value.columns == t.columns && |r.value.rows| == |t.rows|
    ensures r.Ok? ==> forall k, c | 0 <= k < |t.rows| && c in t.rows[k] :: c in r.value.rows[k]
    ensures r.Ok? ==> forall k, c | 0 <= k < |t.rows| && c in t.rows[k] && c != BodyTemp ::
      r.value.rows[k][c] == t.rows[k][c]
    ensures r.Ok? && WellFormed(t) ==> WellFormed(r.value)
  {
    if BodyTemp !in t.columns then Err(MissingColumn(BodyTemp))
    else if exists k | 0 <= k < |t.rows| :: HoldsText(t.rows[k], BodyTemp) then Err(NonNumericComparison(BodyTemp))
    else match FirstBelow(t.rows, BodyTemp, TempThreshold)
      case None => Err(NoBodyTempBelow30)
      case Some(i) => Ok(Table(t.columns, SetCell(t.rows, i, BodyTemp, Num(TempReplacement))))
  }

  // ------------------------------------------------------------- encoding

  /** The encoding loop over the whole label table: a `KeyError` on the
      first categorical column the table lacks, otherwise the table with
      every categorical column encoded. */
  function EncodeTable(t: Table): (r: Result<Table>)
    ensures r.Err? <==> exists c :: c in VarsCategorical && c !in t.columns
    ensures r.Ok? ==> r.value.columns == t.columns && |r.value.rows| == |t.rows|
    ensures r.Ok? && WellFormed(t) ==> WellFormed(r.value)
  {
    match FirstAbsent(VarsCategorical, t.columns)
    case Some(c) => Err(MissingColumn(c))
    case None => Ok(Table(t.columns, EncodeColumns(t.rows, CategoricalValMap)))
  }

  // ------------------------------------------------------------ imputation

  function NumericCell(x: Cell): Option<real> {
    if x.Num? then Some(x.x) else None
  }

  /** The imputer's own conversion of its input to floats: a text cell is an
      error, a missing cell a hole. */
  function ToMatrix(x: seq<seq<Cell>>): (r: Result<Matrix>)
    ensures r.Err? <==> exists k, j | 0 <= k < |x| && 0 <= j < |x[k]| :: x[k][j].Text?
    ensures r.Err? ==> r.error == NonNumericFeature
    ensures r.Ok? ==> |r.value| == |x| && forall k | 0 <= k < |x| :: |r.value[k]| == |x[k]|
    ensures r.Ok? ==> forall k, j | 0 <= k < |x| && 0 <= j < |x[k]| ::
      && r.value[k][j] == NumericCell(x[k][j])
      && (r.value[k][j].None? <==> x[k][j] == Missing) && (x[k][j].Num? ==> r.value[k][j] == Some(x[k][j].x))
  {
    if exists k, j | 0 <= k < |x| && 0 <= j < |x[k]| :: x[k][j].Text? then Err(NonNumericFeature)
    else Ok(seq(|x|, k requires 0 <= k < |x| => seq(|x[k]|, j requires 0 <= j < |x[k]| => NumericCell(x[k][j]))))
  }

  /** `frame.drop(columns=outcomes)` handed to the imputer. */
  function Features(t: Table): (r: Result<Matrix>)
    requires WellFormed(t)
    ensures r.Ok? ==> forall o :: o in Outcomes ==> o in t.columns
    ensures r.Ok? ==> |r.value| == |t.rows| && forall k | 0 <= k < |t.rows| :: |r.value[k]| == |Without(t.columns, Outcomes)|
    ensures r.Ok? ==> forall k, j | 0 <= k < |t.rows| && 0 <= j < |Without(t.columns, Outcomes)| ::
      Without(t.columns, Outcomes)[j] in t.rows[k] && r.value[k][j] == NumericCell(t.rows[k][Without(t.columns, Outcomes)[j]])
  {
    match FirstAbsent(Outcomes, t.columns)
    case Some(c) => Err(MissingColumn(c))
    case None => ToMatrix(FeatureMatrix(t, Outcomes))
  }

  function Impute(imp: Imputer, fit: Matrix, x: Matrix): Result<seq<seq<real>>> {
    match imp(fit, x)
    case None => Err(ImputationFailed)
    case Some(d) => Ok(d)
  }

  /** The output has one row per input row, each as wide as its input row. */
  predicate SameShape(dense: seq<seq<real>>, x: Matrix) {
    |dense| == |x| && forall k | 0 <= k < |x| :: |dense[k]| == |x[k]|
  }

  /** The one property assumed of the imputer: whenever it returns, its
      output has the shape of the matrix it was applied to (and, by its
      type, no holes). Used only as a hypothesis. */
  ghost predicate KeepsShape(imp: Imputer) {
    forall fit: Matrix, x: Matrix :: imp(fit, x).Some? ==> SameShape(imp(fit, x).value, x)
  }

  /** `n` rows of `w` values each. */
  predicate FitsShape(dense: seq<seq<real>>, n: nat, w: nat) {
    |dense| == n && forall k | 0 <= k < n :: |dense[k]| == w
  }

  /** The outcome `o` of the table before imputation, factorised. */
  function OutcomeCodes(e: Table, o: Column): (col: seq<Cell>)
    requires WellFormed(e) && o in e.columns
    ensures |col| == |e.rows|
  {
    CodeCells(Factorize(ColumnOf(e.rows, o)))
  }

  /** The three outcome columns assigned, in turn, to the imputed frame. */
  function WithOutcomes(t: Table, e: Table): (r: Table)
    requires WellFormed(e) && forall o :: o in Outcomes ==> o in e.columns
    requires |t.rows| == |e.rows|
    ensures |r.rows| == |t.rows| && (WellFormed(t) ==> WellFormed(r))
  {
    var t1 := AssignColumn(t, DiagnosisByCriteria, OutcomeCodes(e, DiagnosisByCriteria));
    var t2 := AssignColumn(t1, TreatmentGroupBinar, OutcomeCodes(e, TreatmentGroupBinar));
    AssignColumn(t2, AppendicitisComplications, OutcomeCodes(e, AppendicitisComplications))
  }

  /** `pd.DataFrame(dense, columns=e.columns[:-3])` followed by the outcome
      assignments; a `ValueError` when the imputer's output has another shape. */
  function Rebuild(e: Table, dense: seq<seq<real>>): (r: Result<Table>)
    requires WellFormed(e) && forall o :: o in Outcomes ==> o in e.columns
    ensures r.Err? <==> !FitsShape(dense, |e.rows|, |AllButLastThree(e.columns)|)
    ensures r.Ok? ==> |r.value.rows| == |e.rows|
  {
    var labels := AllButLastThree(e.columns);
    if !FitsShape(dense, |e.rows|, |labels|) then Err(ShapeMismatch)
    else Ok(WithOutcomes(DenseTable(labels, dense), e))
  }

  // --------------------------------------------------------------- cohorts

  /** The first cohort's table just before imputation. */
  function PrepareA(a: Table): (r: Result<Table>)
    requires WellFormed(a)
    ensures r.Ok? ==> r.value.columns == VarsIncluded && WellFormed(r.value)
  {
    var s :- Select(a, VarsIncluded);
    var f :- FixBodyTemp(DropNa(s, DiagnosisByCriteria));
    EncodeTable(f)
  }

  /** The first cohort: the output table, and the matrix the imputer was
      fitted on (the second cohort is imputed with the same fit). */
  function CohortA(a: Table, imp: Imputer): Result<(Table, Matrix)>
    requires WellFormed(a)
  {
    var e :- PrepareA(a);
    var xa :- Features(e);
    var dense :- Impute(imp, xa, xa);
    var out :- Rebuild(e, dense);
    Ok((out, xa))
  }

  /** The second cohort, imputed with the first cohort's fit; its WBC counts
      above 1000 are divided by 1000. */
  function CohortB(b: Table, xa: Matrix, imp: Imputer): Result<Table>
    requires WellFormed(b)
  {
    var e :- EncodeTable(b);
    var xb :- Features(e);
    var dense :- Impute(imp, xa, xb);
    var out :- Rebuild(e, dense);
    if WBCCount !in out.columns then Err(MissingColumn(WBCCount))
    else Ok(Table(out.columns, MapColumn(out.rows, WBCCount, DivideWhereAbove(WbcThreshold, WbcDivisor))))
  }

  /** `run_preprocessing(data_regensburg, data_dusseldorf)`. */
  function Preprocess(a: Table, b: Table, imp: Imputer): Result<(Table, Table)>
    requires WellFormed(a) && WellFormed(b)
  {
    var ra :- CohortA(a, imp);
    var outB :- CohortB(b, ra.1, imp);
    Ok((ra.0, outB))
  }

  // ------------------------------------------------------------ step facts

  /** The temperature fix overwrites exactly one cell, the temperature of the
      first row below 30, and fails exactly when no row is below 30 (given a
      numeric temperature column). */
  lemma FixBodyTempOneCell(t: Table)
    ensures FixBodyTemp(t).Ok? ==> exists i | 0 <= i < |t.rows| ::
      && Below(t.rows[i], BodyTemp, TempThreshold)
      && (forall k | 0 <= k < i :: !Below(t.rows[k], BodyTemp, TempThreshold))
      && FixBodyTemp(t).value.rows[i][BodyTemp] == Num(TempReplacement)
      && (forall d | d in t.rows[i] && d != BodyTemp :: FixBodyTemp(t).value.rows[i][d] == t.rows[i][d])
      && (forall k | 0 <= k < |t.rows| && k != i :: FixBodyTemp(t).value.rows[k] == t.rows[k])
    ensures BodyTemp in t.columns && (forall k | 0 <= k < |t.rows| :: !HoldsText(t.rows[k], BodyTemp)) ==>
      (FixBodyTemp(t) == Err(NoBodyTempBelow30) <==> forall k | 0 <= k < |t.rows| :: !Below(t.rows[k], BodyTemp, TempThreshold))
  {
    if FixBodyTemp(t).Ok? {
      var i := FirstBelow(t.rows, BodyTemp, TempThreshold).value;
      assert FixBodyTemp(t).value.rows[i][BodyTemp] == Num(TempReplacement);
    }
  }

  /** The encoding step cell by cell: a categorical column's cell is encoded
      with that column's map, every other cell is left as it was. */
  lemma EncodeTableCells(t: Table, k: nat, c: Column)
    requires EncodeTable(t).Ok? && k < |t.rows| && c in t.rows[k]
    ensures EncodeTable(t).value.rows[k].Keys == t.rows[k].Keys
    ensures forall j | 0 <= j < |CategoricalValMap| && CategoricalValMap[j].0 == c ::
      EncodeTable(t).value.rows[k][c] == EncodeCell(CategoricalValMap[j].1, t.rows[k][c])
    ensures c !in VarsCategorical ==> EncodeTable(t).value.rows[k][c] == t.rows[k][c]
  {
    ValMapColumns();
    CategoricalDistinct();
    EncodeColumnsAt(t.rows, CategoricalValMap, k, c);
  }

  /** Put together with the label table: a listed label becomes its code, the
      sentinel -1 becomes missing, anything else in a categorical column is
      kept, and no categorical cell is left holding -1. */
  lemma EncodeTableLabels(t: Table, k: nat, j: nat)
    requires EncodeTable(t).Ok? && k < |t.rows| && j < |CategoricalValMap|
    requires CategoricalValMap[j].0 in t.rows[k]
    ensures var (c, m) := CategoricalValMap[j];
      var x, y := t.rows[k][c], EncodeTable(t).value.rows[k][c];
      && (forall l | 0 <= l < |m| :: x == Text(m[l].0) ==> y == Num(m[l].1 as real))
      && (x == Num(-1.0) ==> y == Missing)
      && (x != Num(-1.0) && (x.Text? ==> Lookup(m, x.s).None?) ==> y == x)
      && y != Num(-1.0)
  {
    var (c, m) := CategoricalValMap[j];
    EncodeTableCells(t, k, c);
    ValMapWellCoded();
    EncodeCellCases(m, t.rows[k][c]);
  }

  /** The value a numeric cell holding `v` in column `c` ends with after the
      WBC correction. */
  function WbcCorrected(c: Column, v: real): Cell {
    if c == WBCCount && v > WbcThreshold then Num(v / WbcDivisor) else Num(v)
  }

  /** The WBC correction on a table: the `WBCCount` cell of a row is divided
      by 1000 when it is above 1000, every other cell is kept. */
  lemma RescaleWbcCell(rows: seq<Row>, k: nat, c: Column, v: real)
    requires k < |rows| && c in rows[k] && rows[k][c] == Num(v)
    ensures MapColumn(rows, WBCCount, DivideWhereAbove(WbcThreshold, WbcDivisor))[k][c] == WbcCorrected(c, v)
  {
  }

  /** The WBC correction on one value: above 1000 it is divided by 1000,
      otherwise it is kept; counts up to a million end up at most 1000. */
  lemma WbcRescaleCases(x: Cell)
    ensures var y := Apply(DivideWhereAbove(WbcThreshold, WbcDivisor), x);
      && (x.Num? && x.x > 1000.0 ==> y == Num(x.x / 1000.0))
      && (!(x.Num? && x.x > 1000.0) ==> y == x)
      && (x.Num? && x.x <= 1000000.0 ==> y.Num? && y.x <= 1000.0)
  {
  }
}
