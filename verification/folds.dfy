/**
 * `compute_folds` from vjp/folds.py: the integer program it builds, the
 * solver call (through FoldSearch.Solve), the optional verbose tally and the
 * decoding of the solver's variable values into one boolean list per fold.
 */
module Folds {
  import opened Wrappers
  import opened FoldSpec
  import opened FoldSearch

  /** `len(range(num_folds))`. */
  function FoldCount(numFolds: int): nat {
    if numFolds < 0 then 0 else numFolds
  }

  // ---------------------------------------------------------------------
  // The integer program

  /** The model's variables: `folds_x[fold][sample]` and `max_`. */
  datatype Var = X(fold: nat, sample: nat) | MaxVar

  /** `coef * var` inside an `xsum`. */
  datatype Term = Term(coef: int, v: Var)

  /** `xsum(terms) == rhs`, or `bound >= xsum(terms)`. */
  datatype Constraint = Exactly(terms: seq<Term>, rhs: int) | AtLeast(bound: Var, terms: seq<Term>)

  /** The value of a variable at the point (`x`, `m`); variables outside `x` read as 0. */
  function Value(v: Var, x: seq<seq<bool>>, m: nat): int {
    match v
    case MaxVar => m
    case X(f, i) => if f < |x| && i < |x[f]| && x[f][i] then 1 else 0
  }

  function Eval(terms: seq<Term>, x: seq<seq<bool>>, m: nat): int {
    if |terms| == 0 then 0
    else Eval(terms[..|terms| - 1], x, m) + terms[|terms| - 1].coef * Value(terms[|terms| - 1].v, x, m)
  }

  predicate Satisfied(c: Constraint, x: seq<seq<bool>>, m: nat) {
    match c
    case Exactly(terms, rhs) => Eval(terms, x, m) == rhs
    case AtLeast(bound, terms) => Value(bound, x, m) >= Eval(terms, x, m)
  }

  predicate SatisfiesAll(cons: seq<Constraint>, x: seq<seq<bool>>, m: nat) {
    forall j :: 0 <= j < |cons| ==> Satisfied(cons[j], x, m)
  }

  /** `xsum(folds_x[f][i] for f in folds_range)` over the first `k` folds. */
  function ExclusiveTerms(i: nat, k: nat): seq<Term> {
    seq(k, f requires 0 <= f < k => Term(1, X(f, i)))
  }

  /** `xsum(folds_x[f][i] * samples[i][c] for i in samples_range)`. */
  function TotalTerms(f: nat, samples: seq<Sample>, c: Column): seq<Term> {
    seq(|samples|, i requires 0 <= i < |samples| => Term(Count(samples[i], c), X(f, i)))
  }

  lemma {:induction false} EvalExclusive(x: seq<seq<bool>>, n: nat, i: nat, g: nat, m: nat)
    requires Shaped(x, |x|, n) && i < n && g <= |x|
    ensures Eval(ExclusiveTerms(i, g), x, m) == Members(x[..g], i)
  {
    if g > 0 {
      assert ExclusiveTerms(i, g)[..g - 1] == ExclusiveTerms(i, g - 1);
      assert x[..g][..g - 1] == x[..g - 1];
      EvalExclusive(x, n, i, g - 1, m);
    }
  }

  lemma {:induction false} EvalTotal(x: seq<seq<bool>>, samples: seq<Sample>, f: nat, c: Column, j: nat, m: nat)
    requires Shaped(x, |x|, |samples|) && f < |x| && j <= |samples|
    ensures Eval(TotalTerms(f, samples[..j], c), x, m) == FoldTotal(x[f][..j], samples[..j], c)
  {
    if j > 0 {
      assert TotalTerms(f, samples[..j], c)[..j - 1] == TotalTerms(f, samples[..j - 1], c);
      assert x[f][..j][..j - 1] == x[f][..j - 1];
      assert samples[..j][..j - 1] == samples[..j - 1];
      EvalTotal(x, samples, f, c, j - 1, m);
    }
  }

  /** The constraint list `BuildConstraints` produces, described position by position. */
  predicate Built(cons: seq<Constraint>, samples: seq<Sample>, k: nat) {
    var n := |samples|;
    && |cons| == n + 2 * k
    && (forall i :: 0 <= i < n ==> cons[i] == Exactly(ExclusiveTerms(i, k), 1))
    && (forall j :: n <= j < n + k ==> cons[j] == AtLeast(MaxVar, TotalTerms(j - n, samples, Col1)))
    && (forall j :: n + k <= j < n + 2 * k ==> cons[j] == AtLeast(MaxVar, TotalTerms(j - n - k, samples, Col0)))
  }

  /** Each built constraint, read at a point of the right shape. */
  lemma BuiltConstraintMeaning(cons: seq<Constraint>, samples: seq<Sample>, k: nat, x: seq<seq<bool>>, m: nat, j: nat)
    requires Built(cons, samples, k) && Shaped(x, k, |samples|) && j < |cons|
    ensures j < |samples| ==> (Satisfied(cons[j], x, m) <==> Members(x, j) == 1)
    ensures |samples| <= j < |samples| + k ==>
      (Satisfied(cons[j], x, m) <==> FoldTotal(x[j - |samples|], samples, Col1) <= m)
    ensures |samples| + k <= j ==>
      (Satisfied(cons[j], x, m) <==> FoldTotal(x[j - |samples| - k], samples, Col0) <= m)
  {
    var n := |samples|;
    assert samples[..n] == samples;
    if j < n {
      assert x[..k] == x;
      EvalExclusive(x, n, j, k, m);
    } else {
      var f := if j < n + k then j - n else j - n - k;
      assert x[f][..n] == x[f];
      EvalTotal(x, samples, f, Col1, n, m);
      EvalTotal(x, samples, f, Col0, n, m);
    }
  }

  /** A point satisfies the built constraints iff it is an exact partition with `max_` above every fold total. */
  lemma ConstraintsMeaning(cons: seq<Constraint>, samples: seq<Sample>, k: nat, x: seq<seq<bool>>, m: nat)
    requires Built(cons, samples, k) && Shaped(x, k, |samples|)
    ensures SatisfiesAll(cons, x, m) <==> IsPartition(x, k, |samples|) && Bounds(x, samples, m)
  {
    var n := |samples|;
    if SatisfiesAll(cons, x, m) {
      forall i | 0 <= i < n ensures Members(x, i) == 1 {
        BuiltConstraintMeaning(cons, samples, k, x, m, i);
      }
      forall f | 0 <= f < k ensures FoldTotal(x[f], samples, Col1) <= m && FoldTotal(x[f], samples, Col0) <= m {
        BuiltConstraintMeaning(cons, samples, k, x, m, n + f);
        BuiltConstraintMeaning(cons, samples, k, x, m, n + k + f);
      }
    }
    if IsPartition(x, k, n) && Bounds(x, samples, m) {
      forall j | 0 <= j < |cons| ensures Satisfied(cons[j], x, m) {
        BuiltConstraintMeaning(cons, samples, k, x, m, j);
      }
    }
  }

  /**
   * The model-building loops of `compute_folds`: one exclusivity constraint
   * per document, then `max_ >= value` for every value in
   * `chain(positives, negatives)`.
   */
  method BuildConstraints(samples: seq<Sample>, numFolds: int) returns (cons: seq<Constraint>)
    ensures |cons| == |samples| + 2 * FoldCount(numFolds)
    ensures Built(cons, samples, FoldCount(numFolds))
    ensures forall x, m: nat :: Shaped(x, FoldCount(numFolds), |samples|) ==>
      (SatisfiesAll(cons, x, m) <==> IsPartition(x, FoldCount(numFolds), |samples|) && Bounds(x, samples, m))
  {
    var k := FoldCount(numFolds);
    var n := |samples|;
    cons := [];
    for i := 0 to n
      invariant |cons| == i
      invariant forall j :: 0 <= j < i ==> cons[j] == Exactly(ExclusiveTerms(j, k), 1)
    {
      cons := cons + [Exactly(ExclusiveTerms(i, k), 1)];
    }
    var positives := seq(k, f requires 0 <= f < k => TotalTerms(f, samples, Col1));
    var negatives := seq(k, f requires 0 <= f < k => TotalTerms(f, samples, Col0));
    var values := positives + negatives;
    for j := 0 to |values|
      invariant |cons| == n + j
      invariant forall i :: 0 <= i < n ==> cons[i] == Exactly(ExclusiveTerms(i, k), 1)
      invariant forall j' :: 0 <= j' < j ==> cons[n + j'] == AtLeast(MaxVar, values[j'])
    {
      cons := cons + [AtLeast(MaxVar, values[j])];
    }
    assert forall j :: n <= j < n + 2 * k ==> cons[j] == AtLeast(MaxVar, values[j - n]);
    assert Built(cons, samples, k);
    forall x, m: nat | Shaped(x, k, n)
      ensures SatisfiesAll(cons, x, m) <==> IsPartition(x, k, n) && Bounds(x, samples, m)
    {
      ConstraintsMeaning(cons, samples, k, x, m);
    }
  }

  // ---------------------------------------------------------------------
  // Reading the solution

  /** The value `.x` a solver reports for a binary variable fixed to `b`. */
  function Indicator(b: bool): real {
    if b then 1.0 else 0.0
  }

  function VariableValues(x: seq<seq<bool>>): (v: seq<seq<real>>)
    ensures |v| == |x| && forall f :: 0 <= f < |x| ==> |v[f]| == |x[f]|
  {
    seq(|x|, f requires 0 <= f < |x| => seq(|x[f]|, i requires 0 <= i < |x[f]| => Indicator(x[f][i])))
  }

  /**
   * `bool(round(v))`. Python rounds half to even, so exactly the values in
   * [-0.5, 0.5] round to 0.
   */
  function RoundToBool(v: real): bool {
    v > 0.5 || v < -0.5
  }

  /** A value within one half of 0 or 1 decodes to that bit. */
  lemma RoundToBoolWithinTolerance(v: real, b: bool)
    requires -0.5 < v - Indicator(b) < 0.5
    ensures RoundToBool(v) == b
  {
  }

  /** `tuple(list(map(lambda x: bool(round(x.x)), fold_vars)) for fold_vars in folds_x)`. */
  function Decode(values: seq<seq<real>>): (masks: seq<seq<bool>>)
    ensures |masks| == |values|
    ensures forall f :: 0 <= f < |values| ==> |masks[f]| == |values[f]|
  {
    seq(|values|, f requires 0 <= f < |values| => seq(|values[f]|, i requires 0 <= i < |values[f]| => RoundToBool(values[f][i])))
  }

  /** Decoding the exact values of a binary solution gives that solution back. */
  lemma DecodeValues(x: seq<seq<bool>>)
    ensures Decode(VariableValues(x)) == x
  {
    var d := Decode(VariableValues(x));
    forall f | 0 <= f < |x| ensures d[f] == x[f] {
      forall i | 0 <= i < |x[f]| ensures d[f][i] == x[f][i] {
        RoundToBoolWithinTolerance(VariableValues(x)[f][i], x[f][i]);
      }
    }
  }

  // ---------------------------------------------------------------------
  // The verbose tally

  /** The test `if folds_x[f][i].x:` of the tally: a float is true when nonzero. */
  function NonZero(row: seq<real>): (r: seq<bool>)
    ensures |r| == |row|
  {
    seq(|row|, i requires 0 <= i < |row| => row[i] != 0.0)
  }

  /** The indices of the nonzero entries of `row`, in increasing order. */
  function SetIndices(row: seq<real>): seq<nat> {
    if |row| == 0 then []
    else SetIndices(row[..|row| - 1]) + (if row[|row| - 1] != 0.0 then [|row| - 1] else [])
  }

  /** SetIndices lists each nonzero position exactly once, strictly increasing. */
  lemma {:induction false} SetIndicesSpec(row: seq<real>)
    ensures forall j :: 0 <= j < |SetIndices(row)| ==> SetIndices(row)[j] < |row|
    ensures forall j, l :: 0 <= j < l < |SetIndices(row)| ==> SetIndices(row)[j] < SetIndices(row)[l]
    ensures forall i :: 0 <= i < |row| ==> (i in SetIndices(row) <==> row[i] != 0.0)
  {
    if |row| > 0 {
      var init := row[..|row| - 1];
      SetIndicesSpec(init);
      assert forall i :: 0 <= i < |init| ==> init[i] == row[i];
    }
  }

  /** What the verbose block prints: the fold contents and their two column totals. */
  datatype Report = Report(folds: seq<seq<nat>>, positives: seq<int>, negatives: seq<int>)

  /**
   * The verbose block of `compute_folds`: for every fold, the increasing
   * list of documents whose variable is set, with their column 1
   * ("positives") and column 0 ("negatives") sums.
   */
  method Tally(samples: seq<Sample>, values: seq<seq<real>>) returns (report: Report)
    requires forall f :: 0 <= f < |values| ==> |values[f]| == |samples|
    ensures |report.folds| == |report.positives| == |report.negatives| == |values|
    ensures forall f :: 0 <= f < |values| ==>
      && report.folds[f] == SetIndices(values[f])
      && report.positives[f] == FoldTotal(NonZero(values[f]), samples, Col1)
      && report.negatives[f] == FoldTotal(NonZero(values[f]), samples, Col0)
  {
    var k, n := |values|, |samples|;
    var outputFolds: seq<seq<nat>> := seq(k, _ => []);
    var positives: seq<int> := seq(k, _ => 0);
    var negatives: seq<int> := seq(k, _ => 0);
    for f := 0 to k
      invariant |outputFolds| == |positives| == |negatives| == k
      invariant forall g :: 0 <= g < f ==>
        && outputFolds[g] == SetIndices(values[g])
        && positives[g] == FoldTotal(NonZero(values[g]), samples, Col1)
        && negatives[g] == FoldTotal(NonZero(values[g]), samples, Col0)
      invariant forall g :: f <= g < k ==> outputFolds[g] == [] && positives[g] == 0 && negatives[g] == 0
    {
      for i := 0 to n
        invariant |outputFolds| == |positives| == |negatives| == k
        invariant forall g :: 0 <= g < f ==>
          && outputFolds[g] == SetIndices(values[g])
          && positives[g] == FoldTotal(NonZero(values[g]), samples, Col1)
          && negatives[g] == FoldTotal(NonZero(values[g]), samples, Col0)
        invariant forall g :: f < g < k ==> outputFolds[g] == [] && positives[g] == 0 && negatives[g] == 0
        invariant outputFolds[f] == SetIndices(values[f][..i])
        invariant positives[f] == FoldTotal(NonZero(values[f])[..i], samples[..i], Col1)
        invariant negatives[f] == FoldTotal(NonZero(values[f])[..i], samples[..i], Col0)
      {
        assert values[f][..i + 1][..i] == values[f][..i];
        assert NonZero(values[f])[..i + 1][..i] == NonZero(values[f])[..i];
        assert samples[..i + 1][..i] == samples[..i];
        if values[f][i] != 0.0 {
          outputFolds := outputFolds[f := outputFolds[f] + [i]];
          positives := positives[f := positives[f] + samples[i].col1];
          negatives := negatives[f := negatives[f] + samples[i].col0];
        }
      }
      assert values[f][..n] == values[f];
      assert NonZero(values[f])[..n] == NonZero(values[f]);
      assert samples[..n] == samples;
    }
    report := Report(outputFolds, positives, negatives);
  }

  // ---------------------------------------------------------------------
  // compute_folds

  /**
   * Building the model and `model.optimize()`: the solution the solver
   * reports meets every constraint of the model that was built.
   */
  method Optimize(samples: seq<Sample>, numFolds: int) returns (solution: Solution)
    ensures solution == Solve(samples, FoldCount(numFolds))
    ensures solution.Optimal? ==> exists cons ::
      Built(cons, samples, FoldCount(numFolds)) && SatisfiesAll(cons, solution.x, solution.objective)
  {
    var cons := BuildConstraints(samples, numFolds);
    solution := Solve(samples, FoldCount(numFolds));
    assert solution.Optimal? ==> SatisfiesAll(cons, solution.x, solution.objective);
  }

  /**
   * `compute_folds(samples, num_folds, verbose)`: `num_folds` boolean lists
   * over the documents (none when `num_folds <= 0`) forming an exact partition
   * whose largest fold total is minimal; with `verbose`, also the tally the
   * source prints.
   */
  method ComputeFolds(samples: seq<Sample>, numFolds: int := 5, verbose: bool := false)
    returns (folds: seq<seq<bool>>, report: Option<Report>)
    ensures |folds| == FoldCount(numFolds)
    ensures forall f :: 0 <= f < |folds| ==> |folds[f]| == |samples|
    ensures numFolds > 0 ==> IsPartition(folds, numFolds, |samples|)
    ensures numFolds > 0 ==> forall y :: IsPartition(y, numFolds, |samples|) ==> MaxTotal(folds, samples) <= MaxTotal(y, samples)
    ensures report.Some? <==> verbose
    ensures verbose ==> |report.value.folds| == |report.value.positives| == |report.value.negatives| == |folds|
    ensures verbose ==> forall f :: 0 <= f < |folds| ==>
      && report.value.folds[f] == SetIndices(VariableValues(folds)[f])
      && report.value.positives[f] == FoldTotal(folds[f], samples, Col1)
      && report.value.negatives[f] == FoldTotal(folds[f], samples, Col0)
  {
    var k := FoldCount(numFolds);
    var solution := Optimize(samples, numFolds);
    var x := if solution.Optimal? then solution.x else [];
    var values := VariableValues(x);
    if verbose {
      var tally := Tally(samples, values);
      report := Some(tally);
      NonZeroOfValues(x);
    } else {
      report := None;
    }
    folds := Decode(values);
    DecodeValues(x);
    if numFolds > 0 {
      SolutionIsOptimal(samples, numFolds);
    }
  }

  /** The tally's non-zero test on exact 0/1 values reads the masks back. */
  lemma NonZeroOfValues(x: seq<seq<bool>>)
    ensures forall f :: 0 <= f < |x| ==> NonZero(VariableValues(x)[f]) == x[f]
  {
    forall f | 0 <= f < |x| ensures NonZero(VariableValues(x)[f]) == x[f] {
      assert forall i :: 0 <= i < |x[f]| ==> NonZero(VariableValues(x)[f])[i] == x[f][i];
    }
  }

  /** With folds, the solver's split has the least largest fold total among all exact partitions. */
  lemma SolutionIsOptimal(samples: seq<Sample>, numFolds: int)
    requires numFolds > 0
    ensures Solve(samples, numFolds).Optimal?
    ensures IsPartition(Solve(samples, numFolds).x, numFolds, |samples|)
    ensures forall y :: IsPartition(y, numFolds, |samples|) ==>
      MaxTotal(Solve(samples, numFolds).x, samples) <= MaxTotal(y, samples)
  {
    var x := Solve(samples, numFolds).x;
    forall y | IsPartition(y, numFolds, |samples|)
      ensures MaxTotal(x, samples) <= MaxTotal(y, samples)
    {
      assert Bounds(y, samples, MaxTotal(y, samples));
    }
  }

  // ---------------------------------------------------------------------
  // A worked example

  /** Two documents with one count in column 0 and two with one count in column 1. */
  function ExampleSamples(): seq<Sample> {
    [Sample(1, 0), Sample(0, 1), Sample(1, 0), Sample(0, 1)]
  }

  /** Fold rows in which every fold holds one document of each kind. */
  predicate EachFoldMixed(x: seq<seq<bool>>)
    requires Shaped(x, 2, 4)
  {
    forall f :: 0 <= f < 2 ==> x[f][0] != x[f][2] && x[f][1] != x[f][3]
  }

  lemma ExampleFoldTotal(row: seq<bool>, c: Column)
    requires |row| == 4
    ensures FoldTotal(row, ExampleSamples(), c)
         == if c == Col0 then (if row[0] then 1 else 0) + (if row[2] then 1 else 0)
            else (if row[1] then 1 else 0) + (if row[3] then 1 else 0)
  {
    var s := ExampleSamples();
    assert s[..3][..2] == s[..2] && s[..2][..1] == s[..1] && s[..1][..0] == [];
    assert row[..3][..2] == row[..2] && row[..2][..1] == row[..1] && row[..1][..0] == [];
    assert row[..1][0] == row[0] && s[..1][0] == s[0];
    assert FoldTotal(row[..1][..0], s[..1][..0], c) == 0;
    var t0 := FoldTotal(row[..1], s[..1], c);
    assert t0 == if row[0] then Count(s[0], c) else 0;
    var t1 := FoldTotal(row[..2], s[..2], c);
    assert t1 == t0 + if row[1] then Count(s[1], c) else 0;
    var t2 := FoldTotal(row[..3], s[..3], c);
    assert t2 == t1 + if row[2] then Count(s[2], c) else 0;
    assert FoldTotal(row, s, c) == t2 + if row[3] then Count(s[3], c) else 0;
  }

  /** With two folds, an exact partition puts each document in exactly one of the two rows. */
  lemma TwoFoldsComplement(x: seq<seq<bool>>, n: nat)
    requires IsPartition(x, 2, n)
    ensures forall i :: 0 <= i < n ==> x[1][i] == !x[0][i]
  {
    forall i | 0 <= i < n ensures x[1][i] == !x[0][i] {
      assert x[..1][..0] == [] && x[..1][0] == x[0];
      assert Members(x, i) == Members(x[..1], i) + (if x[1][i] then 1 else 0);
      assert Members(x[..1], i) == if x[0][i] then 1 else 0;
    }
  }

  /**
   * For the example with two folds, an exact partition reaches objective 1
   * exactly when each fold holds one document of each kind.
   */
  lemma ExampleOptimum(x: seq<seq<bool>>)
    requires IsPartition(x, 2, 4)
    ensures MaxTotal(x, ExampleSamples()) <= 1 <==> EachFoldMixed(x)
  {
    var s := ExampleSamples();
    ExampleFoldTotal(x[0], Col0);
    ExampleFoldTotal(x[0], Col1);
    ExampleFoldTotal(x[1], Col0);
    ExampleFoldTotal(x[1], Col1);
    TwoFoldsComplement(x, 4);
    if MaxTotal(x, s) <= 1 {
      assert Bounds(x, s, 1);
    } else {
      assert !Bounds(x, s, 1);
    }
  }

  /**
   * The solver, given the example and two folds, returns a split in which
   * each fold holds one document of each kind.
   */
  lemma ExampleSolvedMixed()
    ensures Solve(ExampleSamples(), 2).Optimal?
    ensures EachFoldMixed(Solve(ExampleSamples(), 2).x)
  {
    var s := ExampleSamples();
    var y := Masks([0, 0, 1, 1], 2);
    MasksArePartition([0, 0, 1, 1], 2);
    ExampleOptimumReached();
    assert Bounds(y, s, 1);
    ExampleOptimum(Solve(s, 2).x);
  }

  /** Splitting the example as [0, 0, 1, 1] reaches objective 1. */
  lemma ExampleOptimumReached()
    ensures MaxTotal(Masks([0, 0, 1, 1], 2), ExampleSamples()) == 1
  {
    var y := Masks([0, 0, 1, 1], 2);
    assert y[0] == [true, true, false, false] && y[1] == [false, false, true, true];
    ExampleFoldTotal(y[0], Col0);
    ExampleFoldTotal(y[0], Col1);
    ExampleFoldTotal(y[1], Col0);
    ExampleFoldTotal(y[1], Col1);
  }
}
