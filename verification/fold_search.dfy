/**
 * A verified stand-in for `model.optimize()` in vjp/folds.py: an exhaustive
 * search over every assignment of documents to folds that returns one whose
 * objective is minimal, so it meets the same constraints and reaches the same
 * optimal value as the integer-programming solver.
 */
module FoldSearch {
  import opened FoldSpec

  /** `a[i]` is the fold of document `i`. */
  predicate Assignment(a: seq<nat>, k: nat) {
    forall i :: 0 <= i < |a| ==> a[i] < k
  }

  /** The 0/1 variable matrix that an assignment sets. */
  function Masks(a: seq<nat>, k: nat): (x: seq<seq<bool>>)
    ensures Shaped(x, k, |a|)
  {
    seq(k, f => seq(|a|, i requires 0 <= i < |a| => a[i] == f))
  }

  lemma {:induction false} MembersOfMasks(a: seq<nat>, k: nat, i: nat)
    requires i < |a|
    ensures Members(Masks(a, k), i) == if a[i] < k then 1 else 0
  {
    if k > 0 {
      assert Masks(a, k)[..k - 1] == Masks(a, k - 1);
      MembersOfMasks(a, k - 1, i);
    }
  }

  /** Every assignment sets an exact partition. */
  lemma MasksArePartition(a: seq<nat>, k: nat)
    requires Assignment(a, k)
    ensures IsPartition(Masks(a, k), k, |a|)
  {
    forall i | 0 <= i < |a| ensures Members(Masks(a, k), i) == 1 {
      MembersOfMasks(a, k, i);
    }
  }

  /** The last fold whose variable for document `i` is set. */
  function Owner(x: seq<seq<bool>>, i: nat): (f: nat)
    requires forall g :: 0 <= g < |x| ==> i < |x[g]|
    requires Members(x, i) > 0
    ensures f < |x| && x[f][i]
  {
    if x[|x| - 1][i] then |x| - 1
    else Owner(x[..|x| - 1], i)
  }

  lemma {:induction false} MembersCountsBoth(x: seq<seq<bool>>, i: nat, f: nat, g: nat)
    requires forall h :: 0 <= h < |x| ==> i < |x[h]|
    requires f < g < |x| && x[f][i] && x[g][i]
    ensures Members(x, i) >= 2
  {
    if g < |x| - 1 {
      MembersCountsBoth(x[..|x| - 1], i, f, g);
    } else {
      assert x[..|x| - 1][f] == x[f];
      MembersPositive(x[..|x| - 1], i, f);
    }
  }

  lemma {:induction false} MembersPositive(x: seq<seq<bool>>, i: nat, f: nat)
    requires forall h :: 0 <= h < |x| ==> i < |x[h]|
    requires f < |x| && x[f][i]
    ensures Members(x, i) >= 1
  {
    if f < |x| - 1 {
      MembersPositive(x[..|x| - 1], i, f);
    }
  }

  /** Under the exclusivity constraint the owner is the only fold holding `i`. */
  lemma OwnerIsUnique(x: seq<seq<bool>>, i: nat, g: nat)
    requires forall h :: 0 <= h < |x| ==> i < |x[h]|
    requires Members(x, i) == 1
    requires g < |x| && x[g][i]
    ensures g == Owner(x, i)
  {
    var f := Owner(x, i);
    if f < g {
      MembersCountsBoth(x, i, f, g);
    } else if g < f {
      MembersCountsBoth(x, i, g, f);
    }
  }

  /** The assignment an exact partition encodes. */
  function Owners(x: seq<seq<bool>>, n: nat): (a: seq<nat>)
    requires IsPartition(x, |x|, n)
    ensures |a| == n
  {
    seq(n, i requires 0 <= i < n => Owner(x, i))
  }

  /** Exact partitions and assignments are the same thing. */
  lemma PartitionIsMasks(x: seq<seq<bool>>, k: nat, n: nat)
    requires IsPartition(x, k, n)
    ensures Assignment(Owners(x, n), k)
    ensures Masks(Owners(x, n), k) == x
  {
    var a := Owners(x, n);
    forall f | 0 <= f < k ensures Masks(a, k)[f] == x[f] {
      forall i | 0 <= i < n ensures Masks(a, k)[f][i] == x[f][i] {
        if x[f][i] {
          OwnerIsUnique(x, i, f);
        }
      }
    }
  }

  /** The objective value of an assignment. */
  function Cost(samples: seq<Sample>, a: seq<nat>, k: nat): nat
    requires |a| == |samples|
  {
    MaxTotal(Masks(a, k), samples)
  }

  /** `b` is a complete assignment that starts with `prefix`. */
  predicate Extends(b: seq<nat>, prefix: seq<nat>, n: nat, k: nat) {
    |b| == n && prefix <= b && Assignment(b, k)
  }

  /** The first cheapest completion of `prefix`, trying folds in increasing order. */
  function Best(samples: seq<Sample>, k: nat, prefix: seq<nat>): (a: seq<nat>)
    requires k > 0 && |prefix| <= |samples| && Assignment(prefix, k)
    ensures Extends(a, prefix, |samples|, k)
    decreases |samples| - |prefix|, k + 1
  {
    if |prefix| == |samples| then prefix
    else BestFrom(samples, k, prefix, 0)
  }

  /** The first cheapest completion of `prefix` whose next document goes to a fold `>= f`. */
  function BestFrom(samples: seq<Sample>, k: nat, prefix: seq<nat>, f: nat): (a: seq<nat>)
    requires k > 0 && |prefix| < |samples| && Assignment(prefix, k) && f < k
    ensures Extends(a, prefix, |samples|, k) && a[|prefix|] >= f
    decreases |samples| - |prefix|, k - f
  {
    var here := Best(samples, k, prefix + [f]);
    if f == k - 1 then here
    else
      var later := BestFrom(samples, k, prefix, f + 1);
      if Cost(samples, later, k) < Cost(samples, here, k) then later else here
  }

  lemma {:induction false} BestIsOptimal(samples: seq<Sample>, k: nat, prefix: seq<nat>, b: seq<nat>)
    requires k > 0 && |prefix| <= |samples| && Assignment(prefix, k)
    requires Extends(b, prefix, |samples|, k)
    ensures Cost(samples, Best(samples, k, prefix), k) <= Cost(samples, b, k)
    decreases |samples| - |prefix|, k + 1
  {
    if |prefix| == |samples| {
      assert b == prefix;
    } else {
      BestFromIsOptimal(samples, k, prefix, 0, b);
    }
  }

  lemma {:induction false} BestFromIsOptimal(samples: seq<Sample>, k: nat, prefix: seq<nat>, f: nat, b: seq<nat>)
    requires k > 0 && |prefix| < |samples| && Assignment(prefix, k) && f < k
    requires Extends(b, prefix, |samples|, k) && b[|prefix|] >= f
    ensures Cost(samples, BestFrom(samples, k, prefix, f), k) <= Cost(samples, b, k)
    decreases |samples| - |prefix|, k - f
  {
    if b[|prefix|] == f {
      assert prefix + [f] == b[..|prefix| + 1];
      BestIsOptimal(samples, k, prefix + [f], b);
    } else {
      BestFromIsOptimal(samples, k, prefix, f + 1, b);
    }
  }

  /** What the solver reports: an optimal assignment with its objective, or infeasibility. */
  datatype Solution = Optimal(x: seq<seq<bool>>, objective: nat) | Infeasible

  /**
   * The optimum of the integer program over `k` folds: the variables meet the
   * exclusivity constraints, `objective` meets every `max_ >= value`
   * constraint, and no feasible point has a smaller `max_`. The program is
   * infeasible exactly when there are documents but no folds.
   */
  function Solve(samples: seq<Sample>, k: nat): (s: Solution)
    ensures s.Infeasible? <==> k == 0 && |samples| > 0
    ensures s.Optimal? ==> IsPartition(s.x, k, |samples|) && Bounds(s.x, samples, s.objective)
    ensures s.Optimal? ==> forall y, m: nat :: IsPartition(y, k, |samples|) && Bounds(y, samples, m) ==> s.objective <= m
    ensures s.Optimal? ==> s.objective == MaxTotal(s.x, samples)
  {
    if k == 0 then
      if |samples| == 0 then Optimal([], 0) else Infeasible
    else
      var a := Best(samples, k, []);
      MasksArePartition(a, k);
      AllPartitionsCostMore(samples, k, a);
      Optimal(Masks(a, k), Cost(samples, a, k))
  }

  lemma AllPartitionsCostMore(samples: seq<Sample>, k: nat, a: seq<nat>)
    requires k > 0 && a == Best(samples, k, [])
    ensures forall y, m: nat :: IsPartition(y, k, |samples|) && Bounds(y, samples, m) ==> Cost(samples, a, k) <= m
  {
    forall y, m: nat | IsPartition(y, k, |samples|) && Bounds(y, samples, m)
      ensures Cost(samples, a, k) <= m
    {
      PartitionIsMasks(y, k, |samples|);
      var b := Owners(y, |samples|);
      BestIsOptimal(samples, k, [], b);
      MaxTotalIsLeast(y, samples, m);
    }
  }
}
