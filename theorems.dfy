/**
 * What `run_preprocessing` delivers, stated over its inputs: the layout of
 * both output tables, their row counts, the outcome codes, and when the
 * run succeeds.
 */
module Theorems {
  import opened Schema
  import opened Cells
  import opened Encoding
  import opened Factorization
  import opened Tables
  import opened Pipeline

  // ------------------------------------------------- rebuilding the frame

  /** Assigning the three outcomes to a frame without them appends them in
      order. */
  lemma WithOutcomesColumns(t: Table, e: Table)
    requires WellFormed(e) && (forall o :: o in Outcomes ==> o in e.columns) && |t.rows| == |e.rows|
    requires forall c :: c in t.columns ==> c !in Outcomes
    ensures WithOutcomes(t, e).columns == t.columns + Outcomes
  {
    assert DiagnosisByCriteria !in t.columns;
    assert TreatmentGroupBinar !in t.columns;
    assert AppendicitisComplications !in t.columns;
    var t1 := AssignColumn(t, DiagnosisByCriteria, OutcomeCodes(e, DiagnosisByCriteria));
    assert t1.columns == t.columns + [DiagnosisByCriteria];
    var t2 := AssignColumn(t1, TreatmentGroupBinar, OutcomeCodes(e, TreatmentGroupBinar));
    assert t2.columns == t.columns + [DiagnosisByCriteria, TreatmentGroupBinar];
  }

  /** ... and leaves every other cell alone. */
  lemma WithOutcomesCells(t: Table, e: Table, k: nat)
    requires WellFormed(e) && (forall o :: o in Outcomes ==> o in e.columns) && |t.rows| == |e.rows|
    requires k < |t.rows|
    ensures forall c | c in WithOutcomes(t, e).rows[k] && c !in Outcomes :: c in t.rows[k]
    ensures forall c | c in t.rows[k] && c !in Outcomes :: WithOutcomes(t, e).rows[k][c] == t.rows[k][c]
    ensures forall o | o in Outcomes :: o in WithOutcomes(t, e).rows[k] && WithOutcomes(t, e).rows[k][o] == OutcomeCodes(e, o)[k]
  {
  }

  /** A feature label sits at its own schema position. */
  lemma LabelPosition(c: Column)
    requires c in AllButLastThree(VarsIncluded)
    ensures c.Included? && c.position < 38 && PositionIn(AllButLastThree(VarsIncluded), c) == c.position
  {
    OutcomesAreLastThree();
    IncludedLayout();
    var labels := AllButLastThree(VarsIncluded);
    var j := PositionIn(labels, c);
    assert labels[j] == VarsIncluded[j];
  }

  /** The imputer's input for a table with the schema's columns: entry
      (k, p) is row k's cell in the feature column at schema position p,
      the column that `columns[:-3]` later puts at position p again. */
  lemma FeatureAt(e: Table, k: nat, c: Column)
    requires WellFormed(e) && e.columns == VarsIncluded && Features(e).Ok?
    requires k < |e.rows| && c in VarsIncluded && c !in Outcomes
    ensures c.Included? && c in e.rows[k] && c.position < |Features(e).value[k]|
    ensures Features(e).value[k][c.position] == NumericCell(e.rows[k][c])
  {
    OutcomesAreLastThree();
    DroppedOutcomesMatchLabels();
    var labels := AllButLastThree(VarsIncluded);
    assert c in labels + Outcomes;
    LabelPosition(c);
  }

  /** The shape of the rebuilt frame: the full schema, one row per row of
      the input and of the imputer's output. */
  lemma RebuildShape(e: Table, dense: seq<seq<real>>)
    requires WellFormed(e) && e.columns == VarsIncluded
    requires Rebuild(e, dense).Ok?
    ensures var r := Rebuild(e, dense).value;
      r.columns == VarsIncluded && WellFormed(r) && |r.rows| == |e.rows| == |dense|
  {
    OutcomesAreLastThree();
    FeaturesAreNotOutcomes();
    var labels := AllButLastThree(VarsIncluded);
    assert labels == VarsIncluded[..38];
    WithOutcomesColumns(DenseTable(labels, dense), e);
  }

  /** One feature cell of the rebuilt frame: the imputer's value at the
      column's schema position. */
  lemma RebuildFeatureCell(e: Table, dense: seq<seq<real>>, k: nat, c: Column)
    requires WellFormed(e) && e.columns == VarsIncluded
    requires Rebuild(e, dense).Ok? && k < |Rebuild(e, dense).value.rows|
    requires c in Rebuild(e, dense).value.rows[k] && c !in Outcomes
    ensures c.Included? && k < |dense| && c.position < |dense[k]|
    ensures Rebuild(e, dense).value.rows[k][c] == Num(dense[k][c.position])
  {
    var t0 := DenseTable(AllButLastThree(VarsIncluded), dense);
    WithOutcomesCells(t0, e, k);
    LabelPosition(c);
  }

  /** One outcome cell of the rebuilt frame: the factorisation code of the
      input's outcome column at that row. */
  lemma RebuildOutcomeCell(e: Table, dense: seq<seq<real>>, k: nat, o: Column)
    requires WellFormed(e) && e.columns == VarsIncluded
    requires Rebuild(e, dense).Ok? && k < |Rebuild(e, dense).value.rows| && o in Outcomes
    ensures k < |e.rows| && o in Rebuild(e, dense).value.rows[k]
    ensures Rebuild(e, dense).value.rows[k][o] == Num(Factorize(ColumnOf(e.rows, o))[k] as real)
  {
    var t0 := DenseTable(AllButLastThree(VarsIncluded), dense);
    WithOutcomesCells(t0, e, k);
  }

  // ------------------------------------------------------- first cohort

  /** Before imputation, the first cohort holds the input rows with a
      diagnosis, in order, and keeps each one's outcome cells unchanged. */
  lemma PrepareAKeepsOutcomes(a: Table, o: Column)
    requires WellFormed(a) && PrepareA(a).Ok? && o in Outcomes
    ensures var e, kept := PrepareA(a).value, DropMissing(a.rows, DiagnosisByCriteria);
      && |e.rows| == |kept|
      && forall k | 0 <= k < |kept| :: o in kept[k] && e.rows[k][o] == kept[k][o]
  {
    var s := Select(a, VarsIncluded).value;
    var d := DropNa(s, DiagnosisByCriteria);
    var f := FixBodyTemp(d).value;
    var kept := DropMissing(a.rows, DiagnosisByCriteria);
    OutcomePlacement(o);
    SelectThenDropMissing(a, VarsIncluded, DiagnosisByCriteria, o);
    assert PrepareA(a) == EncodeTable(f);
    forall k | 0 <= k < |kept| ensures PrepareA(a).value.rows[k][o] == kept[k][o] {
      assert d.rows[k][o] == kept[k][o];
      assert f.rows[k][o] == d.rows[k][o];
      EncodeTableCells(f, k, o);
    }
  }

  /** The steps a successful first cohort went through. */
  lemma CohortASteps(a: Table, imp: Imputer)
    requires WellFormed(a) && CohortA(a, imp).Ok?
    ensures PrepareA(a).Ok? && Features(PrepareA(a).value).Ok?
    ensures var e := PrepareA(a).value; var xa := Features(e).value;
      && Impute(imp, xa, xa).Ok?
      && Rebuild(e, Impute(imp, xa, xa).value) == Ok(CohortA(a, imp).value.0)
      && CohortA(a, imp).value.1 == xa
  {
  }

  /** The first cohort keeps one row per input row with a diagnosis. */
  lemma CohortARows(a: Table, imp: Imputer)
    requires WellFormed(a) && CohortA(a, imp).Ok?
    ensures |CohortA(a, imp).value.0.rows| == |DropMissing(a.rows, DiagnosisByCriteria)|
              == |a.rows| - MissingCount(a.rows, DiagnosisByCriteria)
  {
    CohortASteps(a, imp);
    PrepareAKeepsOutcomes(a, DiagnosisByCriteria);
    DropMissingCount(a.rows, DiagnosisByCriteria);
  }

  /** The first cohort's output layout: the full schema, and in each feature
      column the value the imputer (fitted on the cohort's own features)
      returned for it. */
  lemma CohortALayout(a: Table, imp: Imputer, out: Table, xa: Matrix)
    requires WellFormed(a) && CohortA(a, imp) == Ok((out, xa))
    ensures out.columns == VarsIncluded && WellFormed(out)
    ensures imp(xa, xa).Some? && |imp(xa, xa).value| == |out.rows|
    ensures forall k, c | 0 <= k < |out.rows| && c in out.rows[k] && c !in Outcomes ::
      c.Included? && c.position < |imp(xa, xa).value[k]| && out.rows[k][c] == Num(imp(xa, xa).value[k][c.position])
    ensures PrepareA(a).Ok? && |xa| == |out.rows| == |PrepareA(a).value.rows|
    ensures forall k, c | 0 <= k < |out.rows| && c in VarsIncluded && c !in Outcomes ::
      && c.Included? && c in PrepareA(a).value.rows[k] && c.position < |xa[k]|
      && xa[k][c.position] == NumericCell(PrepareA(a).value.rows[k][c])
  {
    CohortASteps(a, imp);
    var e := PrepareA(a).value;
    var dense := Impute(imp, xa, xa).value;
    assert imp(xa, xa) == Some(dense);
    RebuildShape(e, dense);
    forall k, c | 0 <= k < |out.rows| && c in out.rows[k] && c !in Outcomes
      ensures c.Included? && c.position < |dense[k]| && out.rows[k][c] == Num(dense[k][c.position])
    {
      RebuildFeatureCell(e, dense, k, c);
    }
    forall k, c | 0 <= k < |out.rows| && c in VarsIncluded && c !in Outcomes
      ensures c.Included? && c in e.rows[k] && c.position < |xa[k]| && xa[k][c.position] == NumericCell(e.rows[k][c])
    {
      FeatureAt(e, k, c);
    }
  }

  /** The prepared first cohort's outcome column is the kept input rows'
      one. */
  lemma PreparedOutcomeColumn(a: Table, o: Column)
    requires WellFormed(a) && PrepareA(a).Ok? && o in Outcomes
    ensures ColumnOf(PrepareA(a).value.rows, o) == ColumnOf(DropMissing(a.rows, DiagnosisByCriteria), o)
  {
    PrepareAKeepsOutcomes(a, o);
  }

  /** The first cohort's outcome columns: each is the factorisation of that
      outcome over the kept input rows, and no diagnosis code is -1. */
  lemma CohortAOutcomes(a: Table, imp: Imputer, out: Table, xa: Matrix, o: Column)
    requires WellFormed(a) && CohortA(a, imp) == Ok((out, xa)) && o in Outcomes
    ensures var kept := DropMissing(a.rows, DiagnosisByCriteria);
      && |out.rows| == |kept|
      && (forall k | 0 <= k < |kept| ::
           o in out.rows[k] && out.rows[k][o] == Num(Factorize(ColumnOf(kept, o))[k] as real))
      && (o == DiagnosisByCriteria ==> forall k | 0 <= k < |kept| :: Factorize(ColumnOf(kept, o))[k] >= 0)
  {
    CohortASteps(a, imp);
    var e := PrepareA(a).value;
    var dense := Impute(imp, xa, xa).value;
    assert Rebuild(e, dense) == Ok(out);
    RebuildShape(e, dense);
    PreparedOutcomeColumn(a, o);
    forall k | 0 <= k < |out.rows|
      ensures o in out.rows[k] && out.rows[k][o] == Num(Factorize(ColumnOf(e.rows, o))[k] as real)
    {
      RebuildOutcomeCell(e, dense, k, o);
    }
    CohortARows(a, imp);
    KeptCodesPresent(a.rows, DiagnosisByCriteria);
  }

  /** After `dropna` on a column, factorising that column gives no -1. */
  lemma KeptCodesPresent(rows: seq<Row>, c: Column)
    ensures var kept := DropMissing(rows, c);
      forall k | 0 <= k < |kept| :: Factorize(ColumnOf(kept, c))[k] >= 0
  {
    var kept := DropMissing(rows, c);
    forall k | 0 <= k < |kept| ensures Factorize(ColumnOf(kept, c))[k] >= 0 {
      FactorizeCodes(ColumnOf(kept, c), k);
    }
  }

  // ------------------------------------------------------ second cohort

  /** The steps a successful second cohort went through. */
  lemma CohortBSteps(b: Table, xa: Matrix, imp: Imputer)
    requires WellFormed(b) && CohortB(b, xa, imp).Ok?
    ensures EncodeTable(b).Ok? && Features(EncodeTable(b).value).Ok?
    ensures var e := EncodeTable(b).value; var xb := Features(e).value;
      && imp(xa, xb).Some? && Rebuild(e, imp(xa, xb).value).Ok?
      && var r := Rebuild(e, imp(xa, xb).value).value;
      && WBCCount in r.columns
      && CohortB(b, xa, imp).value == Table(r.columns, MapColumn(r.rows, WBCCount, DivideWhereAbove(WbcThreshold, WbcDivisor)))
  {
  }

  /** The encoding step leaves an outcome column as it was. */
  lemma EncodedOutcome(t: Table, o: Column)
    requires WellFormed(t) && EncodeTable(t).Ok? && o in Outcomes && o in t.columns
    ensures ColumnOf(EncodeTable(t).value.rows, o) == ColumnOf(t.rows, o)
  {
    OutcomePlacement(o);
    forall k | 0 <= k < |t.rows| ensures EncodeTable(t).value.rows[k][o] == t.rows[k][o] {
      EncodeTableCells(t, k, o);
    }
  }

  /** One feature cell of the second cohort's output. */
  lemma CohortBFeatureCell(b: Table, xa: Matrix, imp: Imputer, out: Table, k: nat, c: Column)
    requires WellFormed(b) && b.columns == VarsIncluded && CohortB(b, xa, imp) == Ok(out)
    requires k < |out.rows| && c in out.rows[k] && c !in Outcomes
    ensures EncodeTable(b).Ok? && Features(EncodeTable(b).value).Ok?
    ensures var xb := Features(EncodeTable(b).value).value;
      && imp(xa, xb).Some? && k < |imp(xa, xb).value|
      && c.Included? && c.position < |imp(xa, xb).value[k]|
      && out.rows[k][c] == WbcCorrected(c, imp(xa, xb).value[k][c.position])
  {
    CohortBSteps(b, xa, imp);
    var e := EncodeTable(b).value;
    var dense := imp(xa, Features(e).value).value;
    var r := Rebuild(e, dense).value;
    assert out.rows == MapColumn(r.rows, WBCCount, DivideWhereAbove(WbcThreshold, WbcDivisor));
    assert c in r.rows[k];
    RebuildFeatureCell(e, dense, k, c);
    RescaleWbcCell(r.rows, k, c, dense[k][c.position]);
  }

  /** The second cohort's output layout, for an input with the schema's
      columns: the full schema and every input row. */
  lemma CohortBLayout(b: Table, xa: Matrix, imp: Imputer, out: Table)
    requires WellFormed(b) && b.columns == VarsIncluded && CohortB(b, xa, imp) == Ok(out)
    ensures out.columns == VarsIncluded && WellFormed(out) && |out.rows| == |b.rows|
  {
    CohortBSteps(b, xa, imp);
    var e := EncodeTable(b).value;
    RebuildShape(e, imp(xa, Features(e).value).value);
  }

  /** The second cohort's feature columns: each holds the value the imputer
      (fitted on the first cohort) returned for it, and `WBCCount` holds that
      value divided by 1000 when it is above 1000. */
  lemma CohortBFeatures(b: Table, xa: Matrix, imp: Imputer, out: Table)
    requires WellFormed(b) && b.columns == VarsIncluded && CohortB(b, xa, imp) == Ok(out)
    ensures EncodeTable(b).Ok? && Features(EncodeTable(b).value).Ok?
    ensures var xb := Features(EncodeTable(b).value).value;
      && imp(xa, xb).Some?
      && forall k, c | 0 <= k < |out.rows| && c in out.rows[k] && c !in Outcomes ::
           && k < |imp(xa, xb).value| && c.Included? && c.position < |imp(xa, xb).value[k]|
           && out.rows[k][c] == WbcCorrected(c, imp(xa, xb).value[k][c.position])
    ensures var e := EncodeTable(b).value;
      && |e.rows| == |out.rows|
      && forall k, c | 0 <= k < |out.rows| && c in VarsIncluded && c !in Outcomes ::
           && c.Included? && c in e.rows[k] && c.position < |Features(e).value[k]|
           && Features(e).value[k][c.position] == NumericCell(e.rows[k][c])
  {
    CohortBSteps(b, xa, imp);
    CohortBLayout(b, xa, imp, out);
    var e := EncodeTable(b).value;
    forall k, c | 0 <= k < |out.rows| && c in VarsIncluded && c !in Outcomes
      ensures c.Included? && c in e.rows[k] && c.position < |Features(e).value[k]|
      ensures Features(e).value[k][c.position] == NumericCell(e.rows[k][c])
    {
      SchemaEncodes(b);
      FeatureAt(e, k, c);
    }
    forall k, c | 0 <= k < |out.rows| && c in out.rows[k] && c !in Outcomes
      ensures var xb := Features(EncodeTable(b).value).value;
        && k < |imp(xa, xb).value| && c.Included? && c.position < |imp(xa, xb).value[k]|
        && out.rows[k][c] == WbcCorrected(c, imp(xa, xb).value[k][c.position])
    {
      CohortBFeatureCell(b, xa, imp, out, k, c);
    }
  }

  /** One outcome cell of the second cohort's output. */
  lemma CohortBOutcomeCell(b: Table, xa: Matrix, imp: Imputer, out: Table, o: Column, k: nat)
    requires WellFormed(b) && b.columns == VarsIncluded && CohortB(b, xa, imp) == Ok(out) && o in Outcomes
    requires k < |b.rows|
    ensures k < |out.rows| && o in out.rows[k] && out.rows[k][o] == Num(Factorize(ColumnOf(b.rows, o))[k] as real)
  {
    CohortBSteps(b, xa, imp);
    var e := EncodeTable(b).value;
    var dense := imp(xa, Features(e).value).value;
    var r := Rebuild(e, dense).value;
    RebuildShape(e, dense);
    OutcomePlacement(o);
    RebuildOutcomeCell(e, dense, k, o);
    assert o in b.columns;
    EncodedOutcome(b, o);
    assert out.rows[k][o] == r.rows[k][o];
  }

  /** The second cohort's outcome columns are the factorisations of its
      input outcome columns, row for row. */
  lemma CohortBOutcomes(b: Table, xa: Matrix, imp: Imputer, out: Table, o: Column)
    requires WellFormed(b) && b.columns == VarsIncluded && CohortB(b, xa, imp) == Ok(out) && o in Outcomes
    ensures |out.rows| == |b.rows|
    ensures forall k | 0 <= k < |b.rows| ::
      o in out.rows[k] && out.rows[k][o] == Num(Factorize(ColumnOf(b.rows, o))[k] as real)
  {
    forall k | 0 <= k < |b.rows|
      ensures k < |out.rows| && o in out.rows[k] && out.rows[k][o] == Num(Factorize(ColumnOf(b.rows, o))[k] as real)
    {
      CohortBOutcomeCell(b, xa, imp, out, o, k);
    }
    CohortBSteps(b, xa, imp);
    RebuildShape(EncodeTable(b).value, imp(xa, Features(EncodeTable(b).value).value).value);
  }

  // --------------------------------------------------------- success

  /** The imputer's input has a text cell exactly when some feature cell of
      the table holds text. */
  lemma FeaturesNumeric(t: Table)
    requires WellFormed(t) && forall o :: o in Outcomes ==> o in t.columns
    ensures Features(t).Ok? <==>
      forall k, c | 0 <= k < |t.rows| && c in t.columns && c !in Outcomes :: !t.rows[k][c].Text?
  {
    var kept := Without(t.columns, Outcomes);
    var x := FeatureMatrix(t, Outcomes);
    if Features(t).Ok? {
      forall k, c | 0 <= k < |t.rows| && c in t.columns && c !in Outcomes ensures !t.rows[k][c].Text? {
        var j :| 0 <= j < |kept| && kept[j] == c;
        assert x[k][j] == t.rows[k][c];
      }
    } else {
      assert FirstAbsent(Outcomes, t.columns).None?;
      assert ToMatrix(x).Err?;
      var k, j :| 0 <= k < |x| && 0 <= j < |x[k]| && x[k][j].Text?;
      var c := kept[j];
      assert c in kept;
      assert c in t.columns && c !in Outcomes && t.rows[k][c].Text?;
    }
  }

  /** A table with the schema's columns always gets through the encoding. */
  lemma SchemaEncodes(t: Table)
    requires t.columns == VarsIncluded
    ensures EncodeTable(t).Ok? && EncodeTable(t).value.columns == VarsIncluded
  {
    ColumnCover();
  }

  /** With an imputer that keeps the shape, a table with the schema's columns
      fits the rebuilt frame whenever the imputer returns. */
  lemma ShapeFits(e: Table, dense: seq<seq<real>>)
    requires WellFormed(e) && e.columns == VarsIncluded && Features(e).Ok?
    requires SameShape(dense, Features(e).value)
    ensures Rebuild(e, dense).Ok?
  {
    OutcomesAreLastThree();
    DroppedOutcomesMatchLabels();
  }

  /** Assuming only that the imputer keeps the shape, the second cohort with
      the schema's columns fails exactly when a feature cell still holds text
      after encoding or the imputer fails. */
  lemma CohortBSucceeds(b: Table, xa: Matrix, imp: Imputer)
    requires WellFormed(b) && b.columns == VarsIncluded && KeepsShape(imp)
    ensures EncodeTable(b).Ok?
    ensures var e := EncodeTable(b).value;
      CohortB(b, xa, imp).Ok? <==> Features(e).Ok? && imp(xa, Features(e).value).Some?
  {
    SchemaEncodes(b);
    var e := EncodeTable(b).value;
    if CohortB(b, xa, imp).Ok? {
      CohortBSteps(b, xa, imp);
    } else if Features(e).Ok? && imp(xa, Features(e).value).Some? {
      var xb := Features(e).value;
      assert SameShape(imp(xa, xb).value, xb);
      RebuiltHasWbc(e, imp(xa, xb).value);
      CohortBReaches(b, xa, imp);
    }
  }

  /** The second cohort succeeds once every step up to the rebuilt frame
      does and that frame has the `WBCCount` column. */
  lemma CohortBReaches(b: Table, xa: Matrix, imp: Imputer)
    requires WellFormed(b) && EncodeTable(b).Ok? && Features(EncodeTable(b).value).Ok?
    requires var e := EncodeTable(b).value; var xb := Features(e).value;
      && imp(xa, xb).Some? && Rebuild(e, imp(xa, xb).value).Ok?
      && WBCCount in Rebuild(e, imp(xa, xb).value).value.columns
    ensures CohortB(b, xa, imp).Ok?
  {
  }

  /** A shape-keeping imputer's output rebuilds into a frame that has the
      `WBCCount` column. */
  lemma RebuiltHasWbc(e: Table, dense: seq<seq<real>>)
    requires WellFormed(e) && e.columns == VarsIncluded && Features(e).Ok?
    requires SameShape(dense, Features(e).value)
    ensures Rebuild(e, dense).Ok? && WBCCount in Rebuild(e, dense).value.columns
  {
    ShapeFits(e, dense);
    RebuildShape(e, dense);
    OutcomePlacement(DiagnosisByCriteria);
  }

  /** Assuming only that the imputer keeps the shape, the first cohort fails
      exactly when its table before imputation cannot be built, a feature
      cell still holds text, or the imputer fails. */
  lemma CohortASucceeds(a: Table, imp: Imputer)
    requires WellFormed(a) && KeepsShape(imp)
    ensures CohortA(a, imp).Ok? <==>
      && PrepareA(a).Ok? && Features(PrepareA(a).value).Ok?
      && imp(Features(PrepareA(a).value).value, Features(PrepareA(a).value).value).Some?
  {
    if PrepareA(a).Ok? && Features(PrepareA(a).value).Ok? {
      var e := PrepareA(a).value;
      var xa := Features(e).value;
      if imp(xa, xa).Some? {
        ShapeFits(e, imp(xa, xa).value);
      }
    }
  }

  /** The temperature fix succeeds on a table exactly when it succeeds on
      any rows with the same temperatures: no text, and some value below 30. */
  lemma FixBodyTempSucceeds(t: Table, rows: seq<Row>)
    requires BodyTemp in t.columns && |t.rows| == |rows|
    requires forall k | 0 <= k < |rows| :: BodyTemp in t.rows[k] && BodyTemp in rows[k] && t.rows[k][BodyTemp] == rows[k][BodyTemp]
    ensures FixBodyTemp(t).Ok? <==>
      && (forall k | 0 <= k < |rows| :: !HoldsText(rows[k], BodyTemp))
      && (exists k | 0 <= k < |rows| :: Below(rows[k], BodyTemp, TempThreshold))
  {
    if FixBodyTemp(t).Ok? {
      var i := FirstBelow(t.rows, BodyTemp, TempThreshold).value;
      assert Below(rows[i], BodyTemp, TempThreshold);
    } else if exists k | 0 <= k < |rows| :: Below(rows[k], BodyTemp, TempThreshold) {
      var k :| 0 <= k < |rows| && Below(rows[k], BodyTemp, TempThreshold);
      assert Below(t.rows[k], BodyTemp, TempThreshold);
    }
  }

  /** The first cohort's table before imputation can be built exactly when
      the input has every schema column, no kept row holds text in
      `BodyTemp`, and some kept row's temperature is below 30. */
  lemma PrepareASucceeds(a: Table)
    requires WellFormed(a)
    ensures var kept := DropMissing(a.rows, DiagnosisByCriteria);
      PrepareA(a).Ok? <==>
        && (forall c | c in VarsIncluded :: c in a.columns)
        && (forall k | 0 <= k < |kept| :: !HoldsText(kept[k], BodyTemp))
        && (exists k | 0 <= k < |kept| :: Below(kept[k], BodyTemp, TempThreshold))
  {
    if Select(a, VarsIncluded).Ok? {
      var s := Select(a, VarsIncluded).value;
      var d := DropNa(s, DiagnosisByCriteria);
      OutcomePlacement(DiagnosisByCriteria);
      assert BodyTemp in VarsIncluded;
      SelectThenDropMissing(a, VarsIncluded, DiagnosisByCriteria, BodyTemp);
      FixBodyTempSucceeds(d, DropMissing(a.rows, DiagnosisByCriteria));
      if FixBodyTemp(d).Ok? {
        SchemaEncodes(FixBodyTemp(d).value);
      }
    }
  }

  // ----------------------------------------------------- whole pipeline

  /** What `run_preprocessing` returns, when it returns: two tables with the
      schema's columns in the schema's order, the first with one row per
      input row that has a diagnosis, the second with every input row. */
  lemma PreprocessLayout(a: Table, b: Table, imp: Imputer, outA: Table, outB: Table)
    requires WellFormed(a) && WellFormed(b) && b.columns == VarsIncluded
    requires Preprocess(a, b, imp) == Ok((outA, outB))
    ensures outA.columns == VarsIncluded && outB.columns == VarsIncluded
    ensures WellFormed(outA) && WellFormed(outB)
    ensures |outA.rows| == |a.rows| - MissingCount(a.rows, DiagnosisByCriteria)
    ensures |outB.rows| == |b.rows|
  {
    var ra := CohortA(a, imp).value;
    CohortALayout(a, imp, ra.0, ra.1);
    CohortARows(a, imp);
    CohortBLayout(b, ra.1, imp, outB);
  }
}
