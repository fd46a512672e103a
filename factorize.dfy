/**
 * `pd.factorize(values)[0]`: zero-based codes in order of first appearance,
 * with -1 for a missing value.
 */
module Factorization {
  import opened Cells

  /** The distinct present values of `s`, in the order they first appear
      (the `uniques` half of factorize's result). */
  function Uniques(s: seq<Cell>): (u: seq<Cell>)
    ensures forall x :: x in u <==> x in s && x != Missing
    ensures forall i, j | 0 <= i < j < |u| :: u[i] != u[j]
  {
    if s == [] then []
    else
      var u := Uniques(s[..|s| - 1]);
      var x := s[|s| - 1];
      assert s == s[..|s| - 1] + [x];
      if x == Missing || x in u then u else u + [x]
  }

  /** The first position of `x` in `u`. */
  function IndexOf(u: seq<Cell>, x: Cell): (i: nat)
    requires x in u
    ensures i < |u| && u[i] == x && x !in u[..i]
  {
    if u[0] == x then 0
    else
      var i := IndexOf(u[1..], x);
      assert u[..i + 1] == [u[0]] + u[1..][..i];
      i + 1
  }

  /** The codes of `pd.factorize`: each present value is coded by its
      position among the uniques; a missing value is coded -1. */
  function Factorize(s: seq<Cell>): (codes: seq<int>)
    ensures |codes| == |s|
  {
    var u := Uniques(s);
    seq(|s|, i requires 0 <= i < |s| => if s[i] == Missing then -1 else IndexOf(u, s[i]))
  }

  /** Missing entries, and only they, get -1; every other code is below the
      number of distinct present values, and decodes back to its value. */
  lemma FactorizeCodes(s: seq<Cell>, i: nat)
    requires i < |s|
    ensures Factorize(s)[i] == -1 <==> s[i] == Missing
    ensures s[i] != Missing ==> 0 <= Factorize(s)[i] < |Uniques(s)|
    ensures s[i] != Missing ==> Uniques(s)[Factorize(s)[i]] == s[i]
  {
  }

  /** Two present entries get the same code exactly when they are equal. */
  lemma FactorizeEqual(s: seq<Cell>, i: nat, j: nat)
    requires i < |s| && j < |s| && s[i] != Missing && s[j] != Missing
    ensures Factorize(s)[i] == Factorize(s)[j] <==> s[i] == s[j]
  {
    FactorizeCodes(s, i);
    FactorizeCodes(s, j);
  }

  /** The uniques of a prefix are a prefix of the uniques. */
  lemma {:induction false} UniquesPrefix(s: seq<Cell>, n: nat)
    requires n <= |s|
    ensures Uniques(s[..n]) <= Uniques(s)
    decreases |s| - n
  {
    if n < |s| {
      UniquesPrefix(s, n + 1);
      var p := s[..n + 1];
      assert p[..|p| - 1] == s[..n];
    } else {
      assert s[..n] == s;
    }
  }

  /** First-seen order: a value met for the first time at position i gets the
      next unused code, which is the number of distinct values seen before i;
      a value seen before reuses a smaller code. So the first present value
      gets 0, the next new one 1, and so on. */
  lemma FactorizeFirstSeen(s: seq<Cell>, i: nat)
    requires i < |s| && s[i] != Missing
    ensures s[i] !in s[..i] ==> Factorize(s)[i] == |Uniques(s[..i])|
    ensures s[i] in s[..i] ==> Factorize(s)[i] < |Uniques(s[..i])|
  {
    var u, before, upto := Uniques(s), Uniques(s[..i]), Uniques(s[..i + 1]);
    UniquesPrefix(s, i);
    UniquesPrefix(s, i + 1);
    var p := s[..i + 1];
    assert p[..|p| - 1] == s[..i] && p[|p| - 1] == s[i];
    FactorizeCodes(s, i);
    var k := Factorize(s)[i];
    if s[i] !in s[..i] {
      assert s[i] !in before;
      assert upto == before + [s[i]];
      assert u[|before|] == s[i];
    } else {
      assert s[i] in before;
      var j :| 0 <= j < |before| && before[j] == s[i];
      assert u[j] == s[i];
    }
  }

  /** Distinct elements: as many as the sequence is long. */
  lemma {:induction false} DistinctCardinality(u: seq<Cell>)
    requires forall i, j | 0 <= i < j < |u| :: u[i] != u[j]
    ensures |set x | x in u| == |u|
  {
    if u != [] {
      var init := u[..|u| - 1];
      DistinctCardinality(init);
      assert (set x | x in u) == (set x | x in init) + {u[|u| - 1]};
    }
  }

  /** The number of codes in use is the number of distinct present values. */
  lemma UniquesCount(s: seq<Cell>)
    ensures |Uniques(s)| == |set x | x in s && x != Missing|
  {
    DistinctCardinality(Uniques(s));
    assert (set x | x in Uniques(s)) == (set x | x in s && x != Missing);
  }
}
