# Cohort cleaning pipeline for paediatric appendicitis data

`run_preprocessing` takes two patient tables, a training cohort (Regensburg, *cohort A* below)
and a validation cohort (Düsseldorf, *cohort B*), and returns two cleaned tables ready for
model training. The two tables have the same 41 columns in the same order. This project models
that function in Dafny and proves what each of its steps does. The steps are:

- **Column selection and row filter (cohort A).** Keep the 41 included variables. Drop every
  row whose `DiagnosisByCriteria` is missing.
- **Body temperature fix (cohort A).** The first remaining `BodyTemp` below 30 is overwritten
  with 36.9. If there is none, the run fails (an `IndexError` in the source).
- **Categorical encoding (both cohorts).** For each of the 27 categorical columns in turn, text
  labels are replaced by their codes from a fixed table. Any cell equal to `-1` then becomes
  missing. Labels the table does not list are left as they are.
- **Imputation (both cohorts).** The feature block is every column except the three outcomes. It
  goes through a nearest-neighbour imputer: fitted on cohort A, then applied to cohort B. The
  imputer is a parameter of the model, not a modelled algorithm.
- **Rebuild.** The imputer's output is labelled with all columns but the last three. The three
  outcome columns are then reattached, each factorised on its own (`pd.factorize`: codes in
  first-seen order, -1 for missing).
- **WBC unit fix (cohort B).** Every `WBCCount` above 1000 is divided by 1000.

## Layout

| file | module | contents |
|---|---|---|
| `schema.dfy` | `Schema` | the column names, the constant lists `VARS_INCLUDED`, `VARS_CATEGORICAL`, `VARS_NUMERICAL` and the outcomes, and the lemmas that they partition the schema |
| `cells.dfy` | `Cells` | cells (missing, number, text), rows, the errors a run ends in, `Result` |
| `encoding.dfy` | `Encoding` | the label→code table and what one replacement does to one cell |
| `factorize.dfy` | `Factorization` | `pd.factorize` and its properties |
| `tables.dfy` | `Tables` | tables as column lists plus keyed rows, and the table operations the pipeline uses: selection, `dropna`, first-match search, cell write, column map, column assignment |
| `pipeline.dfy` | `Pipeline` | the pipeline as functions of the input tables and the imputer, and per-step facts |
| `theorems.dfy` | `Theorems` | end-to-end properties of both cohorts' outputs, and exactly when a run succeeds |
| `frame.dfy` | `Frames` | class `Frame`: a table updated in place (cell write, column map, column assignment) |
| `preprocessing.dfy` | `Preprocessing` | `run_preprocessing` as a sequence of in-place steps on fresh frames, with the per-column encoding loop. Each method is proved to compute the corresponding `Pipeline` function. |

Column headers are the datatype `Schema.Column`. Each of the 41 included variables is named by its
position in `VARS_INCLUDED`, and any other header a raw table carries is `Other(header)`. By
convention an included variable is always written in its `Included` form: `Other("Sex")` stands
for no header of a real table, and no header is `Included(p)` for a position p of 41 or more. A row is
a map from column to cell. A `Tables.Table` pairs the column order with its rows. `WellFormed`
says every row has a cell in at least each of the table's columns.

Each exception the source can raise is an `Error` value in a `Result`:
- a column that is not present: `KeyError`, `MissingColumn`;
- comparing a text temperature with 30: `TypeError`, `NonNumericComparison`;
- no temperature below 30: `IndexError`, `NoBodyTempBelow30`;
- a text cell reaching the imputer (every text cell counts as non-numeric): `NonNumericFeature`;
- any other imputer failure: `ImputationFailed`;
- imputer output of the wrong shape for the `DataFrame` constructor: `ShapeMismatch`.

The imputer is a parameter `imp: (fit, x) -> Option<real matrix>`. `fit_transform(XA)` is
`imp(XA, XA)` and `transform(XB)` is `imp(XA, XB)`. That the imputer keeps the shape of its input
(`Pipeline.KeepsShape`) is never assumed by the pipeline. It appears only as a hypothesis of the
two lemmas that characterise success. An imputer result holds no missing cells, because its type
is a matrix of reals.

## Model

| member | source | states |
|---|---|---|
| Schema.SchemaSizes | utils/preproc_utils.py:8-31 | 41 included, 27 categorical, 11 numerical variables, 3 outcomes |
| Schema.IncludedLayout | utils/preproc_utils.py:8-19 | the i-th included variable is the column at position i |
| Schema.IncludedDistinct | utils/preproc_utils.py:8-19 | no included variable is listed twice |
| Schema.CategoricalDistinct | utils/preproc_utils.py:21-31 | no categorical, numerical or outcome variable is listed twice |
| Schema.ColumnCover | utils/preproc_utils.py:8-31 | a column is included iff it is categorical, numerical or an outcome |
| Schema.CategoricalNotNumerical | utils/preproc_utils.py:21-31 | the categorical and numerical lists are disjoint |
| Schema.OutcomesNotFeatures | utils/preproc_utils.py:8-31 | no outcome is categorical or numerical (with the two above: the three lists partition the 41) |
| Schema.OutcomesAreLastThree | utils/preproc_utils.py:19 | the outcomes are exactly the last three included variables, and the first 38 followed by the outcomes is the whole list |
| Schema.OutcomePlacement | utils/preproc_utils.py:8-31 | an outcome is included, is neither `BodyTemp` nor `WBCCount`, and is not categorical |
| Schema.Without | utils/preproc_utils.py:83-84 | `drop(columns=gone)` keeps exactly the columns not in `gone` |
| Schema.AllButLastThree | utils/preproc_utils.py:85 | `columns[:-3]` is the list minus its last three entries, or empty for a shorter list |
| Schema.DroppedOutcomesMatchLabels | utils/preproc_utils.py:83-85 | the columns fed to the imputer and the labels given to its output are the same 38 columns in the same order |
| Encoding.CategoricalValMap | utils/preproc_utils.py:45-73 | none; the table's properties are in ValMapColumns, ValMapWellCoded and CodesCoverRange |
| Encoding.ReplaceLabel | utils/preproc_utils.py:76 | none; its cases are in EncodeCellCases |
| Encoding.SentinelToMissing | utils/preproc_utils.py:77 | none; its cases are in EncodeCellCases |
| Encoding.EncodeCell | utils/preproc_utils.py:76-77 | none; its cases are in EncodeCellCases and EncodeCellIdempotent |
| Encoding.Lookup | utils/preproc_utils.py:76 | a label has a code iff the column's map lists it, and the code found is the one listed with it |
| Encoding.LookupListed | utils/preproc_utils.py:45-73 | in a well-formed map each listed label is found with its own code |
| Encoding.ValMapColumns | utils/preproc_utils.py:45-73 | the label table lists exactly the categorical columns, in their order |
| Encoding.ValMapWellCoded | utils/preproc_utils.py:45-73 | in every column map the labels are distinct, the codes are distinct, and every code lies in 0..n-1 |
| Encoding.CodesCoverRange | utils/preproc_utils.py:45-73 | every code 0..n-1 is used, so a well-formed map's codes are exactly 0..n-1 |
| Encoding.EncodeCellCases | utils/preproc_utils.py:76-77 | a listed label becomes its code; -1 becomes missing; anything else (unknown label, missing, other number) is unchanged; the result is never -1 |
| Encoding.EncodeCellIdempotent | utils/preproc_utils.py:76-77 | encoding an encoded cell again changes nothing |
| Factorization.Uniques | utils/preproc_utils.py:87 | the distinct present values, each once |
| Factorization.Factorize | utils/preproc_utils.py:86-91 | one code per input entry |
| Factorization.FactorizeCodes | utils/preproc_utils.py:86-91 | code -1 iff missing; otherwise the code is below the number of distinct values and indexes that value among them |
| Factorization.FactorizeEqual | utils/preproc_utils.py:86-91 | two present entries get the same code iff they are equal |
| Factorization.FactorizeFirstSeen | utils/preproc_utils.py:86-91 | a value seen for the first time gets the next unused code; a repeated one gets an earlier code |
| Factorization.UniquesCount | utils/preproc_utils.py:86-91 | the number of codes used is the number of distinct present values |
| Tables.FirstAbsent | utils/preproc_utils.py:38 | none iff every wanted column is present; otherwise an absent wanted column |
| Tables.FirstAbsentAt | utils/preproc_utils.py:75-76 | with the columns before position i present, the first absent column is the one at i |
| Tables.Select | utils/preproc_utils.py:38 | `frame[cols]`: a key error naming an absent column iff one is absent; otherwise exactly those columns in that order, every row, cells unchanged |
| Tables.DropMissing | utils/preproc_utils.py:38 | every kept row has the column present and is an input row |
| Tables.KeptPositions | utils/preproc_utils.py:38 | the kept positions are in range and strictly increasing |
| Tables.DropMissingKeepsPositions | utils/preproc_utils.py:38 | the k-th kept row is the input row at the k-th kept position (original order) |
| Tables.KeptPositionsExactly | utils/preproc_utils.py:38 | a position is kept iff its row has the column present |
| Tables.DropMissingCount | utils/preproc_utils.py:38 | kept rows = input rows − rows with the column missing |
| Tables.DropNa | utils/preproc_utils.py:38 | `dropna(subset=[c])` keeps the column order and well-formedness |
| Tables.SelectThenDropMissing | utils/preproc_utils.py:38 | selecting then filtering keeps, for each kept row, the selected cells of the same input row |
| Tables.FirstBelow | utils/preproc_utils.py:41 | `argwhere(col < bound)[0, 0]`: the first row whose numeric cell is below the bound, or none if no row is below it |
| Tables.SetCell | utils/preproc_utils.py:41-42 | `iloc` write: that cell holds the value, every other cell and row is unchanged |
| Tables.MapColumn | utils/preproc_utils.py:76-77 | a column-wise replacement changes that column's cells by the operation and no other cell |
| Tables.Apply | utils/preproc_utils.py:76-77 | none; its cases are in EncodeCellCases and WbcRescaleCases |
| Tables.EncodeColumns | utils/preproc_utils.py:75-77 | the encoding loop keeps the row count and each row's columns |
| Tables.EncodeColumnsAt | utils/preproc_utils.py:75-77 | after the loop a listed column's cell is encoded exactly once with its map, and an unlisted column's cell is unchanged |
| Tables.FeatureMatrix | utils/preproc_utils.py:83-84 | the imputer's input: one row per table row, and entry (k, j) is row k's cell in the j-th column left after the drop |
| Tables.DenseTable | utils/preproc_utils.py:82-85 | `pd.DataFrame(dense, columns=labels)`: cell (k, c) is the dense value at c's label position |
| Tables.AssignColumn | utils/preproc_utils.py:86-91 | `frame[c] = values`: the column is overwritten or appended last, with those values, and nothing else changes |
| Tables.ColumnOf | utils/preproc_utils.py:87 | a column's cells, top to bottom |
| Tables.CodeCells | utils/preproc_utils.py:86-87 | integer codes as numeric cells, one per code |
| Pipeline.FixBodyTemp | utils/preproc_utils.py:41-42 | an error iff the column is absent, holds text, or has no value below 30; otherwise same columns and rows, and only `BodyTemp` may differ |
| Pipeline.EncodeTable | utils/preproc_utils.py:75-77 | a key error iff a categorical column is absent; otherwise same columns and row count |
| Pipeline.ToMatrix | utils/preproc_utils.py:83 | the imputer rejects the input iff some cell is text; otherwise the same shape, each entry the cell's number, with holes exactly at missing cells |
| Pipeline.Features | utils/preproc_utils.py:83-84 | on success the outcomes were present, and entry (k, j) is the number in row k's j-th non-outcome column (a hole where it is missing) |
| Theorems.FeatureAt | utils/preproc_utils.py:83-85 | for a table with the schema's columns, the imputer's entry at a feature column's schema position holds that column's cell, so `columns[:-3]` relabels each imputed column with the column it came from |
| Pipeline.Impute | utils/preproc_utils.py:83 | none; `fit_transform` is `imp(xa, xa)` and `transform` is `imp(xa, xb)`, and every imputer failure is `ImputationFailed` |
| Pipeline.OutcomeCodes | utils/preproc_utils.py:87 | one code cell per row; their values are in RebuildOutcomeCell, CohortAOutcomes and CohortBOutcomes |
| Pipeline.WithOutcomes | utils/preproc_utils.py:86-91 | the three outcome assignments keep the row count and well-formedness |
| Pipeline.Rebuild | utils/preproc_utils.py:82-91 | a shape error iff the imputer output does not fit (rows × all but the last three columns); otherwise one row per input row |
| Pipeline.PrepareA | utils/preproc_utils.py:37-77 | cohort A before imputation has exactly the included columns in order |
| Pipeline.CohortA | utils/preproc_utils.py:35-91 | none; its properties are in CohortARows, CohortALayout, CohortAOutcomes and CohortASucceeds |
| Pipeline.CohortB | utils/preproc_utils.py:94-116 | none; its properties are in CohortBLayout, CohortBFeatures, CohortBOutcomes and CohortBSucceeds |
| Pipeline.Preprocess | utils/preproc_utils.py:34-118 | none; its properties are in PreprocessLayout |
| Pipeline.FixBodyTempOneCell | utils/preproc_utils.py:41-42 | on success, exactly one row changes: the first below 30, whose `BodyTemp` becomes 36.9 and whose other cells stay; given a present numeric column, it fails with the index error iff no row is below 30 |
| Pipeline.EncodeTableCells | utils/preproc_utils.py:75-77 | a categorical cell is encoded with its column's map; a non-categorical cell is unchanged; every row keeps its columns |
| Pipeline.EncodeTableLabels | utils/preproc_utils.py:75-77 | in a categorical column: listed label → its code, -1 → missing, anything else unchanged, never -1 afterwards |
| Pipeline.RescaleWbcCell | utils/preproc_utils.py:114-116 | after the WBC fix a numeric cell is divided by 1000 iff it is `WBCCount` above 1000, and kept otherwise |
| Pipeline.WbcRescaleCases | utils/preproc_utils.py:114-116 | a number above 1000 is divided by 1000; a number of 1000 or below is unchanged; values up to a million end at most 1000. The rebuilt frame holds only numbers here; the model's operation also leaves a missing or text cell unchanged, a case that cannot occur (pandas would raise on text) |
| Theorems.WithOutcomesColumns | utils/preproc_utils.py:86-91 | assigning the outcomes to a frame without them appends them in order |
| Theorems.WithOutcomesCells | utils/preproc_utils.py:86-91 | each outcome cell holds its factorisation code; every other cell is unchanged |
| Theorems.LabelPosition | utils/preproc_utils.py:85 | each feature label sits at its own schema position among the first 38 |
| Theorems.RebuildShape | utils/preproc_utils.py:82-91 | the rebuilt frame has the included columns in order, is well formed, and has one row per input and imputer row |
| Theorems.RebuildFeatureCell | utils/preproc_utils.py:82-85 | a feature cell of the rebuilt frame is the imputer's value at that column's position |
| Theorems.RebuildOutcomeCell | utils/preproc_utils.py:86-91 | an outcome cell of the rebuilt frame is the factorisation code of the input outcome column at that row |
| Theorems.PrepareAKeepsOutcomes | utils/preproc_utils.py:37-77 | cohort A before imputation has one row per kept input row, with the outcome cells unchanged |
| Theorems.PreparedOutcomeColumn | utils/preproc_utils.py:38-77 | cohort A's outcome column before imputation is the kept input rows' outcome column |
| Theorems.CohortARows | utils/preproc_utils.py:38 | cohort A's output rows = kept input rows = input rows − rows with a missing diagnosis |
| Theorems.CohortALayout | utils/preproc_utils.py:80-91 | cohort A's output has the included columns in order; the imputer's training input holds, at each feature column's position, that column's cell of cohort A before imputation; and each output feature cell is the value the imputer returned at that position |
| Theorems.CohortAOutcomes | utils/preproc_utils.py:86-91 | cohort A's outcome columns are the factorisations over the kept input rows, and no diagnosis code is -1 |
| Theorems.KeptCodesPresent | utils/preproc_utils.py:86-87 | after dropping rows with a missing value in a column, factorising that column gives no -1 |
| Theorems.EncodedOutcome | utils/preproc_utils.py:97-99 | the encoding leaves an outcome column as it was |
| Theorems.CohortBFeatureCell | utils/preproc_utils.py:102-116 | one feature cell of cohort B's output is the imputer's value, divided by 1000 when it is a `WBCCount` above 1000 |
| Theorems.CohortBLayout | utils/preproc_utils.py:95-111 | cohort B's output has the included columns in order and one row per input row |
| Theorems.CohortBFeatures | utils/preproc_utils.py:102-116 | the imputer's input holds, at each feature column's position, that column's encoded cohort-B cell; every feature cell of cohort B's output is the imputer's value (fitted on cohort A) at that position, with the WBC fix |
| Theorems.CohortBOutcomeCell | utils/preproc_utils.py:106-111 | one outcome cell of cohort B's output is the factorisation code of cohort B's input column |
| Theorems.CohortBOutcomes | utils/preproc_utils.py:106-111 | cohort B's outcome columns are the factorisations of its own input outcome columns, row for row |
| Theorems.FeaturesNumeric | utils/preproc_utils.py:83-84 | the imputer's input is accepted iff no feature cell holds text |
| Theorems.SchemaEncodes | utils/preproc_utils.py:97-99 | a table with the included columns always gets through the encoding, columns unchanged |
| Theorems.ShapeFits | utils/preproc_utils.py:102-105 | an imputer output of the input's shape always fits the rebuilt frame |
| Theorems.RebuiltHasWbc | utils/preproc_utils.py:105-114 | such an output rebuilds into a frame that has `WBCCount`, so the mask does not raise |
| Theorems.CohortBSucceeds | utils/preproc_utils.py:95-116 | with a shape-keeping imputer, cohort B succeeds iff no feature cell holds text after encoding and the imputer returns |
| Theorems.CohortASucceeds | utils/preproc_utils.py:37-91 | with a shape-keeping imputer, cohort A succeeds iff its pre-imputation table is built, its features are numeric and the imputer returns |
| Theorems.FixBodyTempSucceeds | utils/preproc_utils.py:41-42 | the temperature fix succeeds iff no temperature is text and some temperature is below 30 |
| Theorems.PrepareASucceeds | utils/preproc_utils.py:37-77 | cohort A's pre-imputation table is built iff every included column is present, no kept row has a text temperature and some kept row's temperature is below 30 |
| Theorems.PreprocessLayout | utils/preproc_utils.py:34-118 | both outputs have the included columns in order and are well formed; cohort A has input rows − missing diagnoses rows, cohort B has all its rows |
| Frames.Frame.constructor | utils/preproc_utils.py:37 | a fresh frame holding a copy of the table |
| Frames.Frame.SetCell | utils/preproc_utils.py:41-42 | the frame's rows become the rows with that cell written; the columns stay |
| Frames.Frame.MapColumn | utils/preproc_utils.py:76-77 | the frame's rows become the rows with the column mapped; the columns stay |
| Frames.Frame.AssignColumn | utils/preproc_utils.py:86-91 | the frame becomes the old frame with the column assigned |
| Preprocessing.FixBodyTempInPlace | utils/preproc_utils.py:41-42 | fails exactly as `FixBodyTemp` does, and on success leaves the frame equal to its result |
| Preprocessing.EncodeColumnsInPlace | utils/preproc_utils.py:75-77 | the loop stops with a key error on the first absent listed column, and otherwise leaves the rows equal to `EncodeColumns` of the old rows |
| Preprocessing.EncodeCategoricals | utils/preproc_utils.py:97-99 | fails exactly as `EncodeTable` does, and on success leaves the frame equal to its result |
| Preprocessing.AttachOutcomes | utils/preproc_utils.py:86-91 | the frame becomes `WithOutcomes` of its old contents |
| Preprocessing.RebuildFrame | utils/preproc_utils.py:102-111 | returns exactly `Rebuild` |
| Preprocessing.RunCohortA | utils/preproc_utils.py:35-91 | returns exactly `CohortA` |
| Preprocessing.RunCohortB | utils/preproc_utils.py:94-116 | returns exactly `CohortB` |
| Preprocessing.RunPreprocessing | utils/preproc_utils.py:34-118 | returns exactly `Preprocess`, and modifies neither input (no `modifies` clause; every frame is fresh) |

## Left out

- The nearest-neighbour imputer (`KNNImputer(n_neighbors=5)`, its fit and transform) is an opaque
  parameter. Its distances and averaging are not modelled. Any error it raises becomes
  `ImputationFailed`, including scikit-learn's check that `transform` gets the feature names it
  was fitted on. Keeping the shape (`Pipeline.KeepsShape`) is an assumption used only by
  `Theorems.CohortASucceeds` and `Theorems.CohortBSucceeds`. Without it, the model still handles a
  changed shape (for example a column the imputer drops because it is entirely missing) as the
  `ShapeMismatch` error.
- Floating point: cells hold exact reals. The constants 30, 36.9 and 1000 and the division by
  1000 are exact, with no rounding.
- pandas mechanics: index labels, dtypes and `deepcopy` are not modelled. The copies are fresh
  `Frame` objects. The outcome assignments are positional, as they are in the source, because
  `pd.factorize` returns an array.
- Pipeline.ToMatrix: every text cell is treated as non-numeric, although the imputer's float
  conversion would accept numeric-looking text such as "12". The order of the imputer's own checks
  is collapsed as well: for a cohort B with extra columns, scikit-learn's feature-name check fails
  first (the model's `ImputationFailed`), while the model reports a text cell first as
  `NonNumericFeature`.
- A table with two columns of the same header cannot be represented, because rows are maps from
  column to cell.
- `Frames.Frame.MapColumn`: the chained `frame[column].replace(-1, np.nan, inplace=True)` is
  modelled as updating the frame, which is what pandas does without copy-on-write. Under pandas'
  copy-on-write mode that statement updates a temporary copy, so the -1 cells would stay.
- Theorems.CohortBLayout, Theorems.CohortBFeatures, Theorems.CohortBOutcomes and
  Theorems.CohortBSucceeds: stated only for a cohort B whose columns are exactly the included
  variables in order. `Pipeline.CohortB` and `Preprocessing.RunCohortB` themselves accept any
  column list.
- The model follows what the code does:
  - A categorical label that is not in its column's map is left unchanged by `Series.replace`.
    It does not become missing.
  - `pd.factorize` codes a missing outcome as -1, not as a first-seen code.
- `utils/plotting_utils.py` is not part of this model. It only sets global plotting styles.
