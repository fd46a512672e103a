/**
 * `run_preprocessing` as the source writes it: frames copied and then
 * updated step by step, each step proved to compute the corresponding
 * function of the pipeline.
 */
module Preprocessing {
  import opened Schema
  import opened Cells
  import opened Encoding
  import opened Tables
  import opened Pipeline
  import opened Frames

  /** Whether a step succeeded, without its value. */
  function Status(x: Result<Table>): Result<()> {
    match x
    case Ok(_) => Ok(())
    case Err(e) => Err(e)
  }

  /** The body temperature correction on a frame, in place. */
  method FixBodyTempInPlace(f: Frame) returns (r: Result<()>)
    modifies f
    ensures r == Status(FixBodyTemp(old(f.Value())))
    ensures r.Ok? ==> f.Value() == FixBodyTemp(old(f.Value())).value
  {
    if BodyTemp !in f.columns {
      return Err(MissingColumn(BodyTemp));
    }
    if exists k | 0 <= k < |f.rows| :: HoldsText(f.rows[k], BodyTemp) {
      return Err(NonNumericComparison(BodyTemp));
    }
    var hit := FirstBelow(f.rows, BodyTemp, TempThreshold);
    if hit.None? {
      return Err(NoBodyTempBelow30);
    }
    f.SetCell(hit.value, BodyTemp, Num(TempReplacement));
    return Ok(());
  }

  /** The loop over a label table: each listed column in turn has its
      labels replaced by codes and then its -1 cells turned into missing
      ones. A column the frame lacks stops the loop with a key error. */
  method EncodeColumnsInPlace(f: Frame, maps: seq<(Column, LabelMap)>, names: seq<Column>) returns (r: Result<()>)
    requires |maps| == |names| && forall j | 0 <= j < |maps| :: maps[j].0 == names[j]
    modifies f
    ensures r == (match FirstAbsent(names, old(f.columns))
                  case Some(c) => Err(MissingColumn(c))
                  case None => Ok(()))
    ensures r.Ok? ==> f.columns == old(f.columns) && f.rows == EncodeColumns(old(f.rows), maps)
  {
    var i := 0;
    while i < |maps|
      invariant 0 <= i <= |maps|
      invariant f.columns == old(f.columns)
      invariant f.rows == EncodeColumns(old(f.rows), maps[..i])
      invariant forall j | 0 <= j < i :: names[j] in f.columns
    {
      var (c, m) := maps[i];
      if c !in f.columns {
        FirstAbsentAt(names, f.columns, i);
        return Err(MissingColumn(c));
      }
      f.MapColumn(c, ReplaceLabels(m));
      f.MapColumn(c, ReplaceSentinel);
      assert maps[..i + 1][..i] == maps[..i];
      i := i + 1;
    }
    assert maps[..i] == maps;
    return Ok(());
  }

  /** The categorical encoding of a frame, in place. */
  method EncodeCategoricals(f: Frame) returns (r: Result<()>)
    modifies f
    ensures r == Status(EncodeTable(old(f.Value())))
    ensures r.Ok? ==> f.Value() == EncodeTable(old(f.Value())).value
  {
    ValMapColumns();
    r := EncodeColumnsInPlace(f, CategoricalValMap, VarsCategorical);
  }

  /** The three outcome assignments on the imputed frame. */
  method AttachOutcomes(f: Frame, e: Table)
    requires WellFormed(e) && (forall o :: o in Outcomes ==> o in e.columns) && |f.rows| == |e.rows|
    modifies f
    ensures f.Value() == WithOutcomes(old(f.Value()), e)
  {
    f.AssignColumn(DiagnosisByCriteria, OutcomeCodes(e, DiagnosisByCriteria));
    f.AssignColumn(TreatmentGroupBinar, OutcomeCodes(e, TreatmentGroupBinar));
    f.AssignColumn(AppendicitisComplications, OutcomeCodes(e, AppendicitisComplications));
  }

  /** The imputed frame with its outcome columns: a new frame from the
      imputer's output, under the table's labels but the last three. */
  method RebuildFrame(e: Table, dense: seq<seq<real>>) returns (r: Result<Table>)
    requires WellFormed(e) && forall o :: o in Outcomes ==> o in e.columns
    ensures r == Rebuild(e, dense)
  {
    var labels := AllButLastThree(e.columns);
    if !FitsShape(dense, |e.rows|, |labels|) {
      return Err(ShapeMismatch);
    }
    var g := new Frame(DenseTable(labels, dense));
    AttachOutcomes(g, e);
    return Ok(g.Value());
  }

  /** The first cohort: select, drop rows without a diagnosis, correct the
      temperature, encode, impute, rebuild. */
  method RunCohortA(a: Table, imp: Imputer) returns (r: Result<(Table, Matrix)>)
    requires WellFormed(a)
    ensures r == CohortA(a, imp)
  {
    var s :- Select(a, VarsIncluded);
    var f := new Frame(DropNa(s, DiagnosisByCriteria));
    var u :- FixBodyTempInPlace(f);
    u :- EncodeCategoricals(f);
    var e := f.Value();
    var xa :- Features(e);
    var dense :- Impute(imp, xa, xa);
    var out :- RebuildFrame(e, dense);
    return Ok((out, xa));
  }

  /** The second cohort: encode, impute with the first cohort's fit,
      rebuild, correct the WBC unit. */
  method RunCohortB(b: Table, xa: Matrix, imp: Imputer) returns (r: Result<Table>)
    requires WellFormed(b)
    ensures r == CohortB(b, xa, imp)
  {
    var f := new Frame(b);
    var u :- EncodeCategoricals(f);
    var e := f.Value();
    var xb :- Features(e);
    var dense :- Impute(imp, xa, xb);
    var out :- RebuildFrame(e, dense);
    var g := new Frame(out);
    if WBCCount !in g.columns {
      return Err(MissingColumn(WBCCount));
    }
    g.MapColumn(WBCCount, DivideWhereAbove(WbcThreshold, WbcDivisor));
    return Ok(g.Value());
  }

  /** `run_preprocessing(data_regensburg, data_dusseldorf)`. */
  method RunPreprocessing(a: Table, b: Table, imp: Imputer) returns (r: Result<(Table, Table)>)
    requires WellFormed(a) && WellFormed(b)
    ensures r == Preprocess(a, b, imp)
  {
    var ra :- RunCohortA(a, imp);
    var outB :- RunCohortB(b, ra.1, imp);
    return Ok((ra.0, outB));
  }
}
