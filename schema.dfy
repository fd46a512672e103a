/**
 * The column schema shared by both cohorts: the included variables and their
 * split into categorical, numerical and outcome columns.
 */
module Schema {

  /** A column header: one of the 41 included variables, named by its position
      in `VarsIncluded` (the constants below), or any other header a raw
      table may carry. An included variable is always written in its
      `Included` form, never as `Other` of its name, and only positions
      below 41 name a header. */
  datatype Column = Included(position: nat) | Other(header: string)

  const Age: Column := Included(0)
  const BMI: Column := Included(1)
  const Sex: Column := Included(2)
  const Height: Column := Included(3)
  const Weight: Column := Included(4)
  const AlvaradoScore: Column := Included(5)
  const PediatricAppendicitisScore: Column := Included(6)
  const AppendixOnSono: Column := Included(7)
  const AppendixDiameter: Column := Included(8)
  const MigratoryPain: Column := Included(9)
  const LowerAbdominalPainRight: Column := Included(10)
  const ReboundTenderness: Column := Included(11)
  const CoughingPain: Column := Included(12)
  const PsoasSign: Column := Included(13)
  const Nausea: Column := Included(14)
  const AppetiteLoss: Column := Included(15)
  const BodyTemp: Column := Included(16)
  const WBCCount: Column := Included(17)
  const NeutrophilPerc: Column := Included(18)
  const KetonesInUrine: Column := Included(19)
  const ErythrocytesInUrine: Column := Included(20)
  const WBCInUrine: Column := Included(21)
  const CRPEntry: Column := Included(22)
  const Dysuria: Column := Included(23)
  const Stool: Column := Included(24)
  const Peritonitis: Column := Included(25)
  const FreeFluids: Column := Included(26)
  const AppendixWallLayers: Column := Included(27)
  const Kokarde: Column := Included(28)
  const TissuePerfusion: Column := Included(29)
  const SurroundingTissueReaction: Column := Included(30)
  const PathLymphNodes: Column := Included(31)
  const MesentricLymphadenitis: Column := Included(32)
  const BowelWallThick: Column := Included(33)
  const Ileus: Column := Included(34)
  const FecalImpaction: Column := Included(35)
  const Meteorism: Column := Included(36)
  const Enteritis: Column := Included(37)
  const DiagnosisByCriteria: Column := Included(38)
  const TreatmentGroupBinar: Column := Included(39)
  const AppendicitisComplications: Column := Included(40)

  /** The included variables, in the column order of both output tables. */
  const VarsIncluded: seq<Column> := [Age, BMI, Sex, Height, Weight,
    AlvaradoScore, PediatricAppendicitisScore,
    AppendixOnSono, AppendixDiameter, MigratoryPain, LowerAbdominalPainRight,
    ReboundTenderness, CoughingPain, PsoasSign,
    Nausea, AppetiteLoss, BodyTemp, WBCCount, NeutrophilPerc,
    KetonesInUrine, ErythrocytesInUrine, WBCInUrine, CRPEntry,
    Dysuria, Stool, Peritonitis, FreeFluids,
    AppendixWallLayers, Kokarde,
    TissuePerfusion,
    SurroundingTissueReaction, PathLymphNodes,
    MesentricLymphadenitis, BowelWallThick, Ileus, FecalImpaction,
    Meteorism, Enteritis, DiagnosisByCriteria, TreatmentGroupBinar, AppendicitisComplications]

  /** The columns whose text labels are replaced by integer codes. */
  const VarsCategorical: seq<Column> := [Sex, AppendixOnSono, MigratoryPain, LowerAbdominalPainRight,
    ReboundTenderness, CoughingPain, PsoasSign, Nausea, AppetiteLoss, KetonesInUrine,
    ErythrocytesInUrine,
    WBCInUrine, Dysuria,
    Stool, Peritonitis, FreeFluids, AppendixWallLayers, Kokarde, TissuePerfusion,
    SurroundingTissueReaction, PathLymphNodes,
    MesentricLymphadenitis, BowelWallThick, Ileus, FecalImpaction,
    Meteorism, Enteritis]

  /** The continuous or count-valued measurements. */
  const VarsNumerical: seq<Column> := [Age, BMI, Height, Weight, AlvaradoScore, PediatricAppendicitisScore,
    AppendixDiameter, BodyTemp, WBCCount, NeutrophilPerc, CRPEntry]

  /** The three outcome labels, dropped before imputation and factorised afterwards. */
  const Outcomes: seq<Column> := [DiagnosisByCriteria, TreatmentGroupBinar, AppendicitisComplications]

  predicate Distinct<T(==)>(s: seq<T>) {
    forall i, j | 0 <= i < j < |s| :: s[i] != s[j]
  }

  /** What `drop(columns=gone)` leaves of the column list `s`: the columns
      not in `gone`, in their order. */
  function Without(s: seq<Column>, gone: seq<Column>): (r: seq<Column>)
    ensures forall c :: c in r <==> c in s && c !in gone
    ensures |r| <= |s|
  {
    if s == [] then []
    else (if s[0] in gone then [] else [s[0]]) + Without(s[1..], gone)
  }

  /** Python's `columns[:-3]`: all but the last three entries, or nothing. */
  function AllButLastThree<T>(s: seq<T>): (r: seq<T>)
    ensures |s| >= 3 ==> |r| == |s| - 3 && r + s[|s| - 3..] == s
    ensures |s| < 3 ==> r == []
  {
    if |s| >= 3 then s[..|s| - 3] else []
  }

  lemma {:induction false} WithoutAppend(a: seq<Column>, b: seq<Column>, gone: seq<Column>)
    ensures Without(a + b, gone) == Without(a, gone) + Without(b, gone)
  {
    if a == [] {
      assert a + b == b;
    } else {
      var head := if a[0] in gone then [] else [a[0]];
      assert (a + b)[0] == a[0] && (a + b)[1..] == a[1..] + b;
      WithoutAppend(a[1..], b, gone);
      calc {
        Without(a + b, gone);
        head + Without(a[1..] + b, gone);
        head + (Without(a[1..], gone) + Without(b, gone));
        (head + Without(a[1..], gone)) + Without(b, gone);
        Without(a, gone) + Without(b, gone);
      }
    }
  }

  lemma {:induction false} WithoutNothing(a: seq<Column>, gone: seq<Column>)
    requires forall c :: c in a ==> c !in gone
    ensures Without(a, gone) == a
  {
    if a != [] {
      WithoutNothing(a[1..], gone);
    }
  }

  lemma {:induction false} WithoutEverything(a: seq<Column>, gone: seq<Column>)
    requires forall c :: c in a ==> c in gone
    ensures Without(a, gone) == []
  {
    if a != [] {
      WithoutEverything(a[1..], gone);
    }
  }

  /** Each included column sits at its own position, so `VarsIncluded[i]` is
      the column at position `i`. */
  lemma IncludedLayout()
    ensures forall i | 0 <= i < |VarsIncluded| :: VarsIncluded[i] == Included(i)
  {
  }

  lemma SchemaSizes()
    ensures |VarsIncluded| == 41 && |VarsCategorical| == 27 && |VarsNumerical| == 11 && |Outcomes| == 3
  {
  }

  /** No column is listed twice in the included-variable list. */
  lemma IncludedDistinct()
    ensures Distinct(VarsIncluded)
  {
    IncludedLayout();
  }

  /** No column is listed twice in the categorical or the numerical list. */
  lemma CategoricalDistinct()
    ensures Distinct(VarsCategorical) && Distinct(VarsNumerical) && Distinct(Outcomes)
  {
  }

  /** Every included column is categorical, numerical or an outcome, and
      every listed column is included. */
  lemma ColumnCover()
    ensures forall c :: c in VarsIncluded <==> c in VarsCategorical || c in VarsNumerical || c in Outcomes
  {
  }

  /** No column is both categorical and numerical. */
  lemma CategoricalNotNumerical()
    ensures forall c :: c in VarsCategorical ==> c !in VarsNumerical
  {
  }

  /** No outcome column is categorical or numerical. */
  lemma OutcomesNotFeatures()
    ensures forall c :: c in VarsCategorical ==> c !in Outcomes
    ensures forall c :: c in VarsNumerical ==> c !in Outcomes
  {
  }

  /** The outcomes are the last three included columns. */
  lemma OutcomesAreLastThree()
    ensures VarsIncluded[38..] == Outcomes
    ensures |AllButLastThree(VarsIncluded)| == 38
    ensures AllButLastThree(VarsIncluded) + Outcomes == VarsIncluded
  {
    var features, tail := VarsIncluded[..38], VarsIncluded[38..];
    assert VarsIncluded == features + tail;
    assert tail == Outcomes;
  }

  /** None of the first 38 included columns is an outcome. */
  lemma FeaturesAreNotOutcomes()
    ensures forall c :: c in VarsIncluded[..38] ==> c !in Outcomes
  {
    IncludedLayout();
    forall c | c in VarsIncluded[..38] ensures c !in Outcomes {
      var i :| 0 <= i < 38 && VarsIncluded[i] == c;
      assert c == Included(i);
    }
  }

  /** Dropping the outcomes (what is fed to the imputer) and `columns[:-3]`
      (what labels the imputer's output) name the same 38 feature columns in
      the same order. */
  lemma DroppedOutcomesMatchLabels()
    ensures Without(VarsIncluded, Outcomes) == AllButLastThree(VarsIncluded)
  {
    OutcomesAreLastThree();
    FeaturesAreNotOutcomes();
    var features := AllButLastThree(VarsIncluded);
    WithoutAppend(features, Outcomes, Outcomes);
    WithoutNothing(features, Outcomes);
    WithoutEverything(Outcomes, Outcomes);
  }

  /** Where the outcome columns sit: in the schema, apart from the numeric
      `BodyTemp`, and outside the categorical columns. */
  lemma OutcomePlacement(o: Column)
    requires o in Outcomes
    ensures o in VarsIncluded && o != BodyTemp && o != WBCCount && o !in VarsCategorical
  {
    OutcomesNotFeatures();
  }
}
