/** The precipitation column as main() prepares it: fillna(0).astype(float),
    the running total cumsum(), and the last running total iloc[-1].
    Floats are modelled as reals. */
module Rainfall {
  import opened Wrappers
  import opened Tables

  /** One cell after fillna(0).astype(float). */
  function FillCell(c: Cell): real {
    match c
    case Missing => 0.0
    case Int(i) => i as real
    case Real(x) => x
  }

  /** df['PRECTOTCORR'].fillna(0).astype(float): a missing value becomes
      exactly 0, a present value keeps its number. */
  function Fill(col: seq<Cell>): (p: seq<real>)
    ensures |p| == |col|
    ensures forall i :: 0 <= i < |col| && col[i].Missing? ==> p[i] == 0.0
    ensures forall i :: 0 <= i < |col| && col[i].Real? ==> p[i] == col[i].x
    ensures forall i :: 0 <= i < |col| && col[i].Int? ==> p[i] == col[i].i as real
  {
    seq(|col|, i requires 0 <= i < |col| => FillCell(col[i]))
  }

  /** The sum of a sequence of amounts, added up from the left. */
  function Sum(p: seq<real>): real {
    if |p| == 0 then 0.0 else Sum(p[..|p| - 1]) + p[|p| - 1]
  }

  /** Series.cumsum(): one running total per row, in row order; the total at
      row i covers rows 0 through i. */
  function CumSum(p: seq<real>): (c: seq<real>)
    ensures |c| == |p|
    ensures forall i :: 0 <= i < |p| ==> c[i] == Sum(p[..i + 1])
  {
    if |p| == 0 then []
    else
      var front := p[..|p| - 1];
      var c := CumSum(front);
      assert forall i :: 0 <= i < |c| ==> c[i] == Sum(p[..i + 1]) by {
        forall i | 0 <= i < |c| ensures c[i] == Sum(p[..i + 1]) {
          assert front[..i + 1] == p[..i + 1];
        }
      }
      assert p[..|p|] == p;
      c + [(if |c| == 0 then 0.0 else c[|c| - 1]) + p[|p| - 1]]
  }

  /** Series.iloc[-1]: the last entry, or None for an empty column, where
      pandas raises IndexError. */
  function Last(c: seq<real>): (r: Option<real>)
    ensures r.None? <==> |c| == 0
  {
    if |c| == 0 then None else Some(c[|c| - 1])
  }

  /** One step of the running total: the total at row i is the total at
      row i - 1 plus the amount of row i. */
  lemma CumSumStep(p: seq<real>, i: int)
    requires 0 < i < |p|
    ensures CumSum(p)[i] == CumSum(p)[i - 1] + p[i]
  {
    var q := p[..i + 1];
    assert q[..|q| - 1] == p[..i];
    assert Sum(q) == Sum(p[..i]) + p[i];
  }

  /** The running total starts at the first amount and adds one amount per row. */
  lemma {:induction false} CumSumRecurrence(p: seq<real>)
    ensures |p| > 0 ==> CumSum(p)[0] == p[0]
    ensures forall i :: 0 < i < |p| ==> CumSum(p)[i] == CumSum(p)[i - 1] + p[i]
  {
    if |p| > 0 {
      var q := p[..1];
      assert q[..0] == [];
      assert Sum(q) == p[0];
    }
    forall i | 0 < i < |p| ensures CumSum(p)[i] == CumSum(p)[i - 1] + p[i] {
      CumSumStep(p, i);
    }
  }

  /** With no negative amount the running total never goes down. */
  lemma {:induction false} CumSumMonotone(p: seq<real>)
    requires forall i :: 0 <= i < |p| ==> p[i] >= 0.0
    ensures forall i, j :: 0 <= i <= j < |p| ==> CumSum(p)[i] <= CumSum(p)[j]
  {
    var c := CumSum(p);
    CumSumRecurrence(p);
    forall i, j | 0 <= i <= j < |p| ensures c[i] <= c[j] {
      var k := i;
      while k < j
        invariant i <= k <= j
        invariant c[i] <= c[k]
      {
        k := k + 1;
      }
    }
  }

  /** A row whose amount is zero leaves the running total where it was. */
  lemma CumSumFlatAtZero(p: seq<real>, i: int)
    requires 0 < i < |p| && p[i] == 0.0
    ensures CumSum(p)[i] == CumSum(p)[i - 1]
  {
    CumSumRecurrence(p);
  }

  /** The reported total: none for an empty table, otherwise the last running
      total, which is the sum of every amount. */
  lemma TotalIsSum(p: seq<real>)
    ensures Last(CumSum(p)) == if |p| == 0 then None else Some(Sum(p))
  {
    if |p| > 0 {
      assert p[..|p|] == p;
    }
  }

  /** A sentinel cell, once replaced and filled, adds nothing to the running total. */
  lemma SentinelAddsNothing(col: seq<Cell>, i: int)
    requires 0 < i < |col| && IsSentinel(col[i])
    ensures var c := CumSum(Fill(seq(|col|, k requires 0 <= k < |col| => ScrubCell(col[k]))));
      c[i] == c[i - 1]
  {
    var p := Fill(seq(|col|, k requires 0 <= k < |col| => ScrubCell(col[k])));
    CumSumFlatAtZero(p, i);
  }

  /** Amounts 2.0, 0.0, 5.5 accumulate to 2.0, 2.0, 7.5. */
  lemma CumSumExample()
    ensures CumSum([2.0, 0.0, 5.5]) == [2.0, 2.0, 7.5]
  {
    var p := [2.0, 0.0, 5.5];
    assert p[..1] == [2.0] && p[..2] == [2.0, 0.0] && p[..3] == p;
    assert [2.0, 0.0][..1] == [2.0] && [2.0][..0] == [];
  }
}
