/**
 * Random search: score a batch of candidate solutions and keep the best
 * feasible one. The random draws are an input of the model.
 */
module Sampling {
  import opened Wrappers
  import opened Solutions

  /** A feasible candidate paired with its fitness. */
  datatype Scored = Scored(solution: Solution, fitness: int)

  /** What `find_best_solution` returns: a solution and its fitness, or `(None, -1)`. */
  datatype RandomResult = RandomResult(solution: Option<Solution>, fitness: int)

  /** Every candidate is long enough to be scored against both lists. */
  predicate Fits(ss: seq<Solution>, values: seq<int>, weights: seq<int>)
  {
    forall s :: s in ss ==> |values| <= |s| && |weights| <= |s|
  }

  /** The feasible candidates with their fitness, in candidate order. */
  function Feasible(ss: seq<Solution>, values: seq<int>, weights: seq<int>, capacity: int): (r: seq<Scored>)
    requires Fits(ss, values, weights)
    ensures |r| <= |ss|
    ensures forall c :: c in r ==>
      c.solution in ss && IsValid(c.solution, weights, capacity) && c.fitness == Dot(c.solution, values)
    decreases |ss|
  {
    if ss == [] then []
    else
      var n := |ss| - 1;
      var s := ss[n];
      assert Fits(ss[..n], values, weights) by {
        forall t | t in ss[..n] ensures t in ss { }
      }
      var rest := Feasible(ss[..n], values, weights, capacity);
      assert forall c :: c in rest ==> c.solution in ss by {
        forall c | c in rest ensures c.solution in ss { assert c.solution in ss[..n]; }
      }
      if IsValid(s, weights, capacity) then rest + [Scored(s, Dot(s, values))] else rest
  }

  /**
   * `max` with a fitness key: a left-to-right scan that replaces the running
   * maximum only on a strictly greater fitness, so the first of equally fit
   * elements is returned.
   */
  function MaxByFitness(cs: seq<Scored>): (m: Scored)
    requires cs != []
    ensures forall j :: 0 <= j < |cs| ==> cs[j].fitness <= m.fitness
    ensures exists k :: 0 <= k < |cs| && cs[k] == m && forall j :: 0 <= j < k ==> cs[j].fitness < m.fitness
    decreases |cs|
  {
    if |cs| == 1 then cs[0]
    else
      var n := |cs| - 1;
      var init := cs[..n];
      var p := MaxByFitness(init);
      assert forall j :: 0 <= j < n ==> init[j] == cs[j];
      if cs[n].fitness > p.fitness then cs[n] else p
  }

  /** `find_best_solution`: the fittest feasible candidate, or `(None, -1)` when none is feasible. */
  function FindBest(ss: seq<Solution>, values: seq<int>, weights: seq<int>, capacity: int): (r: RandomResult)
    requires Fits(ss, values, weights)
  {
    var valid := Feasible(ss, values, weights, capacity);
    if valid == [] then RandomResult(None, -1)
    else
      var m := MaxByFitness(valid);
      RandomResult(Some(m.solution), m.fitness)
  }

  /**
   * `random_search`: `draws` are the `numIterations` vectors the program would
   * draw at random (none when numIterations <= 0), each of the weight list's length.
   */
  function RandomSearch(weights: seq<int>, values: seq<int>, capacity: int, numIterations: int,
                        draws: seq<Solution>): (r: RandomResult)
    requires |values| <= |weights|
    requires |draws| == RangeLen(numIterations)
    requires forall i :: 0 <= i < |draws| ==> |draws[i]| == |weights|
    ensures numIterations <= 0 ==> r == RandomResult(None, -1)
    ensures r.solution.Some? ==> r.solution.value in draws && IsValid(r.solution.value, weights, capacity)
  {
    var m := FindBest(draws, values, weights, capacity);
    FindBestSpec(draws, values, weights, capacity);
    m
  }

  /** Scoring one more candidate is one more step of the strict-improvement scan. */
  lemma FindBestAppend(ss: seq<Solution>, s: Solution, values: seq<int>, weights: seq<int>, capacity: int)
    requires Fits(ss + [s], values, weights)
    ensures Fits(ss, values, weights)
    ensures var p := FindBest(ss, values, weights, capacity);
      FindBest(ss + [s], values, weights, capacity) ==
        if IsValid(s, weights, capacity) && (p.solution.None? || Dot(s, values) > p.fitness)
        then RandomResult(Some(s), Dot(s, values))
        else p
  {
    var all := ss + [s];
    assert all[..|ss|] == ss;
    assert Fits(ss, values, weights) by {
      forall t | t in ss ensures t in all { }
    }
    var f := Feasible(ss, values, weights, capacity);
    var c := Scored(s, Dot(s, values));
    assert Feasible(all, values, weights, capacity) == if IsValid(s, weights, capacity) then f + [c] else f;
    if IsValid(s, weights, capacity) && f != [] {
      MaxByFitnessAppend(f, c);
    }
  }

  /** Extending the list by one element is one more step of `max`'s scan. */
  lemma MaxByFitnessAppend(f: seq<Scored>, c: Scored)
    requires f != []
    ensures var m := MaxByFitness(f);
      MaxByFitness(f + [c]) == if c.fitness > m.fitness then c else m
  {
    var g := f + [c];
    assert g[..|f|] == f;
  }

  /** No candidate is feasible. */
  predicate NoneFeasible(ss: seq<Solution>, values: seq<int>, weights: seq<int>, capacity: int)
    requires Fits(ss, values, weights)
  {
    forall j :: 0 <= j < |ss| ==> !IsValid(ss[j], weights, capacity)
  }

  /** Every feasible candidate has fitness at most `fit`. */
  predicate Dominates(ss: seq<Solution>, values: seq<int>, weights: seq<int>, capacity: int, fit: int)
    requires Fits(ss, values, weights)
  {
    forall j :: 0 <= j < |ss| && IsValid(ss[j], weights, capacity) ==> Dot(ss[j], values) <= fit
  }

  /** Candidate k is feasible with fitness `fit`, and every feasible candidate before it is strictly less fit. */
  predicate FirstWith(ss: seq<Solution>, values: seq<int>, weights: seq<int>, capacity: int, k: int, fit: int)
    requires Fits(ss, values, weights)
  {
    && 0 <= k < |ss| && IsValid(ss[k], weights, capacity) && fit == Dot(ss[k], values)
    && forall j :: 0 <= j < k && IsValid(ss[j], weights, capacity) ==> Dot(ss[j], values) < fit
  }

  /**
   * `r` is a correct answer of `find_best_solution` for `ss`: `(None, -1)`
   * exactly when no candidate is feasible; otherwise a feasible candidate
   * with its true fitness, at least as fit as every feasible candidate, and
   * the first in list order among equally fit ones.
   */
  predicate IsBestOf(r: RandomResult, ss: seq<Solution>, values: seq<int>, weights: seq<int>, capacity: int)
    requires Fits(ss, values, weights)
  {
    && (r.solution.None? <==> NoneFeasible(ss, values, weights, capacity))
    && (r.solution.None? ==> r.fitness == -1)
    && (r.solution.Some? ==>
          && (exists k :: 0 <= k < |ss| && FirstWith(ss, values, weights, capacity, k, r.fitness) && ss[k] == r.solution.value)
          && Dominates(ss, values, weights, capacity, r.fitness))
  }

  /** Appending a candidate that beats the answer for `p` (or finds the first feasible one) makes it the answer. */
  lemma IsBestOfTakeOver(p: seq<Solution>, s: Solution, q: RandomResult, values: seq<int>, weights: seq<int>, capacity: int)
    requires Fits(p + [s], values, weights)
    requires Fits(p, values, weights) && IsBestOf(q, p, values, weights, capacity)
    requires IsValid(s, weights, capacity) && (q.solution.None? || Dot(s, values) > q.fitness)
    ensures IsBestOf(RandomResult(Some(s), Dot(s, values)), p + [s], values, weights, capacity)
  {
    var ss := p + [s];
    var n := |p|;
    assert forall j :: 0 <= j < n ==> ss[j] == p[j];
    assert ss[n] == s;
    assert FirstWith(ss, values, weights, capacity, n, Dot(s, values)) by {
      if q.solution.Some? {
        assert Dominates(p, values, weights, capacity, q.fitness);
      } else {
        assert NoneFeasible(p, values, weights, capacity);
      }
    }
  }

  /** Appending a candidate that does not beat the answer for `p` leaves the answer as it was. */
  lemma IsBestOfKeep(p: seq<Solution>, s: Solution, q: RandomResult, values: seq<int>, weights: seq<int>, capacity: int)
    requires Fits(p + [s], values, weights)
    requires Fits(p, values, weights) && IsBestOf(q, p, values, weights, capacity)
    requires !(IsValid(s, weights, capacity) && (q.solution.None? || Dot(s, values) > q.fitness))
    ensures IsBestOf(q, p + [s], values, weights, capacity)
  {
    var ss := p + [s];
    var n := |p|;
    assert forall j :: 0 <= j < n ==> ss[j] == p[j];
    assert ss[n] == s;
    if q.solution.Some? {
      var k :| 0 <= k < n && FirstWith(p, values, weights, capacity, k, q.fitness) && p[k] == q.solution.value;
      assert FirstWith(ss, values, weights, capacity, k, q.fitness) && ss[k] == p[k];
    }
  }

  /** What `find_best_solution` promises, for every list of candidates. */
  lemma {:induction false} FindBestSpec(ss: seq<Solution>, values: seq<int>, weights: seq<int>, capacity: int)
    requires Fits(ss, values, weights)
    ensures IsBestOf(FindBest(ss, values, weights, capacity), ss, values, weights, capacity)
    decreases |ss|
  {
    if ss != [] {
      var n := |ss| - 1;
      var p, s := ss[..n], ss[n];
      assert ss == p + [s];
      FindBestAppend(p, s, values, weights, capacity);
      FindBestSpec(p, values, weights, capacity);
      var q := FindBest(p, values, weights, capacity);
      if IsValid(s, weights, capacity) && (q.solution.None? || Dot(s, values) > q.fitness) {
        IsBestOfTakeOver(p, s, q, values, weights, capacity);
      } else {
        IsBestOfKeep(p, s, q, values, weights, capacity);
      }
    }
  }

  /**
   * With non-negative values, scoring more candidates never lowers the best
   * fitness: the same draws followed by more draws do at least as well.
   */
  lemma FindBestMonotone(ss: seq<Solution>, more: seq<Solution>, values: seq<int>, weights: seq<int>, capacity: int)
    requires Fits(ss + more, values, weights) && NonNegative(values)
    ensures Fits(ss, values, weights)
    ensures FindBest(ss + more, values, weights, capacity).fitness >= FindBest(ss, values, weights, capacity).fitness
  {
    var all := ss + more;
    assert Fits(ss, values, weights) by {
      forall t | t in ss ensures t in all { }
    }
    FindBestSpec(ss, values, weights, capacity);
    FindBestSpec(all, values, weights, capacity);
    var r := FindBest(ss, values, weights, capacity);
    var big := FindBest(all, values, weights, capacity);
    if r.solution.Some? {
      var k :| 0 <= k < |ss| && FirstWith(ss, values, weights, capacity, k, r.fitness);
      assert all[k] == ss[k];
      assert !NoneFeasible(all, values, weights, capacity);
      assert Dominates(all, values, weights, capacity, big.fitness);
    } else if big.solution.Some? {
      var k :| 0 <= k < |all| && FirstWith(all, values, weights, capacity, k, big.fitness);
      DotBounds(all[k], values);
    }
  }
}
