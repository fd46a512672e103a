/**
 * The fixed label-to-code table for the 27 categorical columns, and what
 * encoding does to one cell: `Series.replace(themap)` followed by
 * `Series.replace(-1, nan)`.
 */
module Encoding {
  import opened Schema
  import opened Cells

  /** The label-to-code pairs of one column, in the order the table lists them. */
  type LabelMap = seq<(string, int)>

  /** The per-column encoding table, in the order it is applied. */
  const CategoricalValMap: seq<(Column, LabelMap)> := [
    (Sex, [("male", 1), ("female", 0)]),
    (AppendixOnSono, [("yes", 1), ("no", 0)]),
    (MigratoryPain, [("no", 0), ("yes", 1)]),
    (LowerAbdominalPainRight, [("yes", 1), ("no", 0)]),
    (ReboundTenderness, [("no", 0), ("yes", 1)]),
    (CoughingPain, [("no", 0), ("yes", 1)]),
    (PsoasSign, [("negative", 0), ("positive", 1)]),
    (Nausea, [("yes", 1), ("no", 0)]),
    (AppetiteLoss, [("no", 0), ("yes", 1)]),
    (KetonesInUrine, [("+", 1), ("no", 0), ("+++", 3), ("++", 2)]),
    (ErythrocytesInUrine, [("+", 1), ("no", 0), ("++", 2), ("+++", 3)]),
    (WBCInUrine, [("no", 0), ("+", 1), ("+++", 3), ("++", 2)]),
    (Dysuria, [("no", 0), ("yes", 1)]),
    (Stool, [("normal", 0), ("obstipation", 1), ("diarrhea", 2)]),
    (Peritonitis, [("no", 0), ("local", 1), ("generalised", 2)]),
    (FreeFluids, [("no", 0), ("yes", 1)]),
    (AppendixWallLayers, [("aufgehoben", 1), ("intakt", 0)]),
    (Kokarde, [("no", 0), ("yes", 1)]),
    (TissuePerfusion, [("unremarkable", 0), ("hypoperfused", 1), ("hyperperfused", 2)]),
    (SurroundingTissueReaction, [("yes", 1), ("no", 0)]),
    (PathLymphNodes, [("yes", 1), ("no", 0)]),
    (MesentricLymphadenitis, [("yes", 1), ("no", 0)]),
    (BowelWallThick, [("yes", 1), ("no", 0)]),
    (Ileus, [("no", 0), ("yes", 1)]),
    (FecalImpaction, [("yes", 1), ("no", 0)]),
    (Meteorism, [("no", 0), ("yes", 1)]),
    (Enteritis, [("no", 0), ("yes", 1)])
  ]

  /** The code a map gives a label, if the label is one of its keys. */
  function Lookup(m: LabelMap, text: string): (r: Option<int>)
    ensures r.None? <==> forall i | 0 <= i < |m| :: m[i].0 != text
    ensures r.Some? ==> exists i | 0 <= i < |m| :: m[i] == (text, r.value)
  {
    if m == [] then None
    else if m[0].0 == text then Some(m[0].1)
    else
      var r := Lookup(m[1..], text);
      assert r.Some? ==> exists i | 0 <= i < |m[1..]| :: m[1..][i] == (text, r.value);
      r
  }

  /** A well-formed column map: no label twice, and codes that are distinct
      and lie in 0 .. n-1 for a map of n labels. */
  predicate WellCoded(m: LabelMap) {
    (forall i, j | 0 <= i < j < |m| :: m[i].0 != m[j].0) &&
    (forall i, j | 0 <= i < j < |m| :: m[i].1 != m[j].1) &&
    (forall i | 0 <= i < |m| :: 0 <= m[i].1 < |m|)
  }

  /** `Series.replace(themap)`: a listed label becomes its code; every other
      value, a missing one included, is left as it is. */
  function ReplaceLabel(m: LabelMap, x: Cell): Cell {
    if x.Text? && Lookup(m, x.s).Some? then Num(Lookup(m, x.s).value as real) else x
  }

  /** `Series.replace(-1, nan)`: the sentinel -1 becomes missing. */
  function SentinelToMissing(x: Cell): Cell {
    if x == Num(-1.0) then Missing else x
  }

  /** One categorical cell through both replacements, in source order. */
  function EncodeCell(m: LabelMap, x: Cell): Cell {
    SentinelToMissing(ReplaceLabel(m, x))
  }

  /** In a well-formed map, a listed label is found with its own code. */
  lemma {:induction false} LookupListed(m: LabelMap, i: nat)
    requires WellCoded(m) && i < |m|
    ensures Lookup(m, m[i].0) == Some(m[i].1)
  {
    var r := Lookup(m, m[i].0);
    assert r.Some?;
    var j :| 0 <= j < |m| && m[j] == (m[i].0, r.value);
    assert j == i;
  }

  /** What encoding does to one cell under a well-formed map: a listed label
      becomes its code, the sentinel -1 becomes missing, and everything else,
      unknown labels and missing cells included, stays unchanged. */
  lemma EncodeCellCases(m: LabelMap, x: Cell)
    requires WellCoded(m)
    ensures forall i | 0 <= i < |m| :: x == Text(m[i].0) ==> EncodeCell(m, x) == Num(m[i].1 as real)
    ensures x == Num(-1.0) ==> EncodeCell(m, x) == Missing
    ensures x != Num(-1.0) && (x.Text? ==> Lookup(m, x.s).None?) ==> EncodeCell(m, x) == x
    ensures EncodeCell(m, x) != Num(-1.0)
  {
    forall i | 0 <= i < |m| && x == Text(m[i].0)
      ensures EncodeCell(m, x) == Num(m[i].1 as real)
    {
      LookupListed(m, i);
    }
    if x.Text? && Lookup(m, x.s).Some? {
      var i :| 0 <= i < |m| && m[i] == (x.s, Lookup(m, x.s).value);
      assert 0 <= m[i].1;
    }
  }

  /** Encoding a cell twice is the same as encoding it once. */
  lemma EncodeCellIdempotent(m: LabelMap, x: Cell)
    requires WellCoded(m)
    ensures EncodeCell(m, EncodeCell(m, x)) == EncodeCell(m, x)
  {
    EncodeCellCases(m, x);
    EncodeCellCases(m, EncodeCell(m, x));
  }

  /** The table lists exactly the categorical columns, in their order. */
  lemma ValMapColumns()
    ensures |CategoricalValMap| == |VarsCategorical|
    ensures forall i | 0 <= i < |CategoricalValMap| :: CategoricalValMap[i].0 == VarsCategorical[i]
  {
  }

  /** Every column map of the table is well formed. */
  lemma ValMapWellCoded()
    ensures forall i | 0 <= i < |CategoricalValMap| :: WellCoded(CategoricalValMap[i].1)
  {
  }

  function Range(n: nat): (r: set<int>)
    ensures forall k :: k in r <==> 0 <= k < n
    ensures |r| == n
  {
    if n == 0 then {} else
      var r := Range(n - 1);
      assert n - 1 !in r;
      r + {n - 1}
  }

  /** n distinct codes drawn from a set need a set of at least n elements. */
  lemma {:induction false} Pigeonhole(codes: seq<int>, pool: set<int>)
    requires forall i, j | 0 <= i < j < |codes| :: codes[i] != codes[j]
    requires forall i | 0 <= i < |codes| :: codes[i] in pool
    ensures |codes| <= |pool|
  {
    if codes != [] {
      var last := codes[|codes| - 1];
      Pigeonhole(codes[..|codes| - 1], pool - {last});
    }
  }

  /** In a well-formed map of n labels every code 0 .. n-1 is used, so the
      codes are exactly 0 .. n-1. */
  lemma CodesCoverRange(m: LabelMap, k: int)
    requires WellCoded(m) && 0 <= k < |m|
    ensures exists i | 0 <= i < |m| :: m[i].1 == k
  {
    var codes := seq(|m|, i requires 0 <= i < |m| => m[i].1);
    if forall i | 0 <= i < |m| :: m[i].1 != k {
      Pigeonhole(codes, Range(|m|) - {k});
      assert false;
    }
  }
}
