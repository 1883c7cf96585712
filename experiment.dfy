/**
 * The experiment harness: run random search and hill climbing once per run
 * on the same instance and collect one result per algorithm per run. The
 * random vectors each run would draw are inputs; elapsed times are not
 * modelled.
 */
module Experiment {
  import opened Solutions
  import opened Sampling
  import opened HillClimbing

  /** The results of every run, per algorithm, in run order. */
  datatype Results = Results(randomSearch: seq<RandomResult>, sahc: seq<ClimbResult>)

  /** For every run, `numIterations` candidate vectors of the weight list's length. */
  predicate DrawsFit(draws: seq<seq<Solution>>, weights: seq<int>, numIterations: int)
  {
    && (forall r :: 0 <= r < |draws| ==> |draws[r]| == RangeLen(numIterations))
    && (forall r, i :: 0 <= r < |draws| && 0 <= i < |draws[r]| ==> |draws[r][i]| == |weights|)
  }

  /** For every run, `numIterations + 1` feasible starting vectors of the weight list's length. */
  predicate StartsFit(starts: seq<seq<Solution>>, values: seq<int>, weights: seq<int>, capacity: int, numIterations: int)
  {
    forall r :: 0 <= r < |starts| ==>
      |starts[r]| == RangeLen(numIterations + 1) && ValidStarts(starts[r], values, weights, capacity)
  }

  /** The random search results of the first k runs. */
  function RandomRuns(weights: seq<int>, values: seq<int>, capacity: int, numIterations: int,
                      draws: seq<seq<Solution>>, k: nat): (rs: seq<RandomResult>)
    requires |values| <= |weights| && DrawsFit(draws, weights, numIterations) && k <= |draws|
    ensures |rs| == k
    ensures forall r :: 0 <= r < k ==> rs[r] == RandomSearch(weights, values, capacity, numIterations, draws[r])
  {
    if k == 0 then []
    else
      var p := RandomRuns(weights, values, capacity, numIterations, draws, k - 1);
      var d := draws[k - 1];
      assert |d| == RangeLen(numIterations) && forall i :: 0 <= i < |d| ==> |d[i]| == |weights|;
      var rs := p + [RandomSearch(weights, values, capacity, numIterations, d)];
      assert forall r :: 0 <= r < k - 1 ==> rs[r] == p[r];
      rs
  }

  /** The hill climbing results of the first k runs. */
  function SahcRuns(values: seq<int>, weights: seq<int>, capacity: int, numIterations: int,
                    starts: seq<seq<Solution>>, k: nat): (rs: seq<ClimbResult>)
    requires StartsFit(starts, values, weights, capacity, numIterations) && k <= |starts|
    ensures |rs| == k
    ensures forall r :: 0 <= r < k ==>
      rs[r] == BestSoFar(Optima(starts[r], values, weights, capacity), values, |starts[r]|) && rs[r].fitness >= -1
  {
    if k == 0 then []
    else
      var p := SahcRuns(values, weights, capacity, numIterations, starts, k - 1);
      var last := BestSoFar(Optima(starts[k - 1], values, weights, capacity), values, |starts[k - 1]|);
      assert forall r :: 0 <= r < k - 1 ==> (p + [last])[r] == p[r];
      p + [last]
  }

  /**
   * `run_experiment`: for each of the `numRuns` runs (none when numRuns <= 0),
   * append the random search result and then the hill climbing result.
   */
  method RunExperiment(values: seq<int>, weights: seq<int>, capacity: int, numIterations: int, numRuns: int,
                       draws: seq<seq<Solution>>, starts: seq<seq<Solution>>)
    returns (results: Results)
    requires |values| <= |weights|
    requires |draws| == RangeLen(numRuns) && DrawsFit(draws, weights, numIterations)
    requires |starts| == RangeLen(numRuns) && StartsFit(starts, values, weights, capacity, numIterations)
    ensures results.randomSearch == RandomRuns(weights, values, capacity, numIterations, draws, RangeLen(numRuns))
    ensures results.sahc == SahcRuns(values, weights, capacity, numIterations, starts, RangeLen(numRuns))
    ensures |results.randomSearch| == RangeLen(numRuns) && |results.sahc| == RangeLen(numRuns)
  {
    var randomSearch: seq<RandomResult> := [];
    var sahc: seq<ClimbResult> := [];
    for run := 0 to RangeLen(numRuns)
      invariant randomSearch == RandomRuns(weights, values, capacity, numIterations, draws, run)
      invariant sahc == SahcRuns(values, weights, capacity, numIterations, starts, run)
    {
      var found := RandomSearch(weights, values, capacity, numIterations, draws[run]);
      randomSearch := randomSearch + [found];
      var bestSol, bestFit := HillClimb(weights, values, capacity, numIterations, starts[run]);
      sahc := sahc + [ClimbResult(bestSol, bestFit)];
    }
    results := Results(randomSearch, sahc);
  }

  /**
   * With non-negative values every recorded fitness is at least -1: random
   * search reports -1 or the fitness of a feasible candidate.
   */
  lemma RandomSearchFitnessAtLeastSentinel(weights: seq<int>, values: seq<int>, capacity: int, numIterations: int,
                                            draws: seq<Solution>)
    requires |values| <= |weights| && NonNegative(values)
    requires |draws| == RangeLen(numIterations)
    requires forall i :: 0 <= i < |draws| ==> |draws[i]| == |weights|
    ensures RandomSearch(weights, values, capacity, numIterations, draws).fitness >= -1
  {
    var r := RandomSearch(weights, values, capacity, numIterations, draws);
    if r.solution.Some? {
      DotBounds(r.solution.value, values);
      FindBestSpec(draws, values, weights, capacity);
      var k :| 0 <= k < |draws| && FirstWith(draws, values, weights, capacity, k, r.fitness)
        && draws[k] == r.solution.value;
    }
  }

  /**
   * The built-in instance (values 10..50, weights 1..5, capacity 10): every
   * value is ten times its weight, so no feasible packing is worth more
   * than 100, and packing items 1, 4 and 5 reaches 100.
   */
  lemma DefaultInstanceOptimum()
    ensures forall s: Solution :: |s| == 5 && IsValid(s, [1, 2, 3, 4, 5], 10) ==> Dot(s, [10, 20, 30, 40, 50]) <= 100
    ensures IsValid([1, 0, 0, 1, 1], [1, 2, 3, 4, 5], 10) && Dot([1, 0, 0, 1, 1], [10, 20, 30, 40, 50]) == 100
  {
    var weights, values := [1, 2, 3, 4, 5], [10, 20, 30, 40, 50];
    forall s: Solution | |s| == 5 && IsValid(s, weights, 10) ensures Dot(s, values) <= 100 {
      DotScale(s, weights, values, 10);
    }
    var best: Solution := [1, 0, 0, 1, 1];
    DotScale(best, weights, values, 10);
    assert Dot(best, weights) == 10 by {
      assert weights[..4] == [1, 2, 3, 4] && weights[..4][..3] == [1, 2, 3];
      assert [1, 2, 3][..2] == [1, 2] && [1, 2][..1] == [1] && [1][..0] == [];
      assert Dot(best, [1]) == 1;
      assert Dot(best, [1, 2]) == 1;
      assert Dot(best, [1, 2, 3]) == 1;
      assert Dot(best, [1, 2, 3, 4]) == 5;
    }
  }
}
