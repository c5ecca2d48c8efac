/**
 * The quantities of the balanced k-fold integer program in vjp/folds.py:
 * per-document counts, the fold/document matrix of binary variables
 * `folds_x[fold][sample]`, the per-fold column totals and the value of
 * the objective `max_`.
 */
module FoldSpec {

  /** One document: `samples[i][0]` and `samples[i][1]`. */
  datatype Sample = Sample(col0: int, col1: int)

  /** Which column of a sample a fold total sums. */
  datatype Column = Col0 | Col1

  function Count(s: Sample, c: Column): int {
    match c
    case Col0 => s.col0
    case Col1 => s.col1
  }

  function Max(a: int, b: int): int {
    if a < b then b else a
  }

  /** `x` has one row per fold and one entry per document in each row. */
  predicate Shaped(x: seq<seq<bool>>, k: nat, n: nat) {
    |x| == k && forall f :: 0 <= f < k ==> |x[f]| == n
  }

  /** `xsum(folds_x[f][i] for f in folds_range)`: how many folds hold document `i`. */
  function Members(x: seq<seq<bool>>, i: nat): nat
    requires forall f :: 0 <= f < |x| ==> i < |x[f]|
  {
    if |x| == 0 then 0
    else Members(x[..|x| - 1], i) + (if x[|x| - 1][i] then 1 else 0)
  }

  /** The exclusivity constraints: every document lies in exactly one fold. */
  predicate IsPartition(x: seq<seq<bool>>, k: nat, n: nat) {
    Shaped(x, k, n) && forall i :: 0 <= i < n ==> Members(x, i) == 1
  }

  /** `xsum(row[i] * samples[i][c] for i in samples_range)`. */
  function FoldTotal(row: seq<bool>, samples: seq<Sample>, c: Column): int
    requires |row| == |samples|
  {
    if |row| == 0 then 0
    else FoldTotal(row[..|row| - 1], samples[..|samples| - 1], c)
         + (if row[|row| - 1] then Count(samples[|samples| - 1], c) else 0)
  }

  /** Sum of column `c` over all documents. */
  function ColumnTotal(samples: seq<Sample>, c: Column): int {
    if |samples| == 0 then 0
    else ColumnTotal(samples[..|samples| - 1], c) + Count(samples[|samples| - 1], c)
  }

  /** Sum of the fold totals of column `c` over all folds. */
  function SumOverFolds(x: seq<seq<bool>>, samples: seq<Sample>, c: Column): int
    requires forall f :: 0 <= f < |x| ==> |x[f]| == |samples|
  {
    if |x| == 0 then 0
    else SumOverFolds(x[..|x| - 1], samples, c) + FoldTotal(x[|x| - 1], samples, c)
  }

  /** The constraints `max_ >= value` for every value in `chain(positives, negatives)`. */
  predicate Bounds(x: seq<seq<bool>>, samples: seq<Sample>, m: int)
    requires Shaped(x, |x|, |samples|)
  {
    forall f :: 0 <= f < |x| ==>
      FoldTotal(x[f], samples, Col1) <= m && FoldTotal(x[f], samples, Col0) <= m
  }

  /**
   * The smallest value of the integer variable `max_` (lower bound 0) that
   * meets every bound: the largest fold total of either column, or 0.
   */
  function MaxTotal(x: seq<seq<bool>>, samples: seq<Sample>): (r: nat)
    requires Shaped(x, |x|, |samples|)
    ensures Bounds(x, samples, r)
    ensures r == 0 || exists f :: 0 <= f < |x| && (r == FoldTotal(x[f], samples, Col1) || r == FoldTotal(x[f], samples, Col0))
  {
    if |x| == 0 then 0
    else
      var rest := MaxTotal(x[..|x| - 1], samples);
      var last := x[|x| - 1];
      var r := Max(rest, Max(FoldTotal(last, samples, Col1), FoldTotal(last, samples, Col0)));
      assert forall f :: 0 <= f < |x| - 1 ==> x[..|x| - 1][f] == x[f];
      r
  }

  /** No admissible value of `max_` is below MaxTotal. */
  lemma MaxTotalIsLeast(x: seq<seq<bool>>, samples: seq<Sample>, m: nat)
    requires Shaped(x, |x|, |samples|)
    requires Bounds(x, samples, m)
    ensures MaxTotal(x, samples) <= m
  {
  }

  /** Row `f` of `x` cut to its first `j` documents. */
  function Prefixes(x: seq<seq<bool>>, j: nat): (p: seq<seq<bool>>)
    requires forall f :: 0 <= f < |x| ==> j <= |x[f]|
    ensures Shaped(p, |x|, j)
  {
    seq(|x|, f requires 0 <= f < |x| => x[f][..j])
  }

  lemma {:induction false} MembersOfPrefixes(x: seq<seq<bool>>, j: nat, i: nat)
    requires forall f :: 0 <= f < |x| ==> j <= |x[f]|
    requires i < j
    ensures Members(Prefixes(x, j), i) == Members(x, i)
  {
    if |x| > 0 {
      assert Prefixes(x, j)[..|x| - 1] == Prefixes(x[..|x| - 1], j);
      MembersOfPrefixes(x[..|x| - 1], j, i);
    }
  }

  /** Peeling the last document off every fold. */
  lemma {:induction false} SumOverFoldsSplitLast(x: seq<seq<bool>>, samples: seq<Sample>, c: Column)
    requires |samples| > 0 && Shaped(x, |x|, |samples|)
    ensures SumOverFolds(x, samples, c)
         == SumOverFolds(Prefixes(x, |samples| - 1), samples[..|samples| - 1], c)
            + Members(x, |samples| - 1) * Count(samples[|samples| - 1], c)
  {
    var n := |samples|;
    if |x| > 0 {
      var init := x[..|x| - 1];
      assert Prefixes(x, n - 1)[..|x| - 1] == Prefixes(init, n - 1);
      SumOverFoldsSplitLast(init, samples, c);
      var s := Count(samples[n - 1], c);
      var b := if x[|x| - 1][n - 1] then 1 else 0;
      assert Members(x, n - 1) * s == Members(init, n - 1) * s + b * s;
    }
  }

  lemma {:induction false} SumOverFoldsNoSamples(x: seq<seq<bool>>, c: Column)
    requires Shaped(x, |x|, 0)
    ensures SumOverFolds(x, [], c) == 0
  {
    if |x| > 0 {
      SumOverFoldsNoSamples(x[..|x| - 1], c);
    }
  }

  /**
   * Because the assignment is an exact partition, the fold totals of a column
   * add up to that column's total over all documents.
   */
  lemma {:induction false} TotalsConserved(x: seq<seq<bool>>, samples: seq<Sample>, c: Column)
    requires IsPartition(x, |x|, |samples|)
    ensures SumOverFolds(x, samples, c) == ColumnTotal(samples, c)
    decreases |samples|
  {
    var n := |samples|;
    if n == 0 {
      SumOverFoldsNoSamples(x, c);
    } else {
      var p := Prefixes(x, n - 1);
      forall i | 0 <= i < n - 1 ensures Members(p, i) == 1 {
        MembersOfPrefixes(x, n - 1, i);
      }
      TotalsConserved(p, samples[..n - 1], c);
      SumOverFoldsSplitLast(x, samples, c);
    }
  }
}
