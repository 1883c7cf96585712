/**
 * Steepest-ascent hill climbing with restarts. Each restart begins at a
 * feasible vector supplied by the caller (the program draws it at random),
 * repeatedly moves to the fittest feasible single-bit-flip neighbour that
 * strictly improves, and stops at a local optimum; the best local optimum
 * over all restarts is returned.
 */
module HillClimbing {
  import opened Solutions

  /** The state of one neighbour scan: whether an improving neighbour was found, which, and its fitness. */
  datatype Scan = Scan(found: bool, neighbour: Solution, fitness: int)

  /** What `steepest_ascent_hill_climbing_alg` returns: the best solution and its fitness, `([], -1)` at first. */
  datatype ClimbResult = ClimbResult(solution: Solution, fitness: int)

  /** No single-bit flip of `s` is both feasible and strictly fitter than `s`. */
  predicate IsLocalOptimum(s: Solution, values: seq<int>, weights: seq<int>, capacity: int)
    requires |values| <= |s| && |weights| <= |s|
  {
    forall j :: 0 <= j < |s| ==> !Improves(s, values, weights, capacity, j, Dot(s, values))
  }

  /** The flip at position i is feasible and strictly fitter than `fit`. */
  predicate Improves(cur: Solution, values: seq<int>, weights: seq<int>, capacity: int, i: nat, fit: int)
    requires |values| <= |cur| && |weights| <= |cur| && i < |cur|
  {
    IsValid(Flip(cur, i), weights, capacity) && Dot(Flip(cur, i), values) > fit
  }

  /** The flip at position i is infeasible or strictly less fit than `fit`. */
  predicate FallsShort(cur: Solution, values: seq<int>, weights: seq<int>, capacity: int, i: nat, fit: int)
    requires |values| <= |cur| && |weights| <= |cur| && i < |cur|
  {
    IsValid(Flip(cur, i), weights, capacity) ==> Dot(Flip(cur, i), values) < fit
  }

  /**
   * The neighbour scan after its first k positions, starting from fitness
   * `curFit`: position i replaces the running best only when its flip is
   * feasible and strictly fitter than the running best. A neighbour it
   * reports is feasible, of the same length and strictly fitter than `curFit`.
   */
  function ScanUpTo(cur: Solution, values: seq<int>, weights: seq<int>, capacity: int, curFit: int, k: nat): (r: Scan)
    requires |values| <= |cur| && |weights| <= |cur| && k <= |cur|
    ensures r.fitness >= curFit
    ensures !r.found ==> r.neighbour == [] && r.fitness == curFit
    ensures r.found ==>
      && r.fitness > curFit && |r.neighbour| == |cur|
      && IsValid(r.neighbour, weights, capacity) && r.fitness == Dot(r.neighbour, values)
    decreases k
  {
    if k == 0 then Scan(false, [], curFit)
    else
      var p := ScanUpTo(cur, values, weights, capacity, curFit, k - 1);
      var t := Flip(cur, k - 1);
      if IsValid(t, weights, capacity) && Dot(t, values) > p.fitness then Scan(true, t, Dot(t, values))
      else p
  }

  /**
   * What a scan of the first k positions finds: no feasible flip among them
   * is fitter than the reported fitness, so when nothing is found no flip
   * improves on `curFit`; a found neighbour is the flip at some position i,
   * and every feasible flip before i is strictly less fit (the earliest of
   * equally fit neighbours wins).
   */
  lemma {:induction false} ScanUpToSpec(cur: Solution, values: seq<int>, weights: seq<int>, capacity: int, curFit: int, k: nat)
    requires |values| <= |cur| && |weights| <= |cur| && k <= |cur|
    ensures var r := ScanUpTo(cur, values, weights, capacity, curFit, k);
      && (forall j :: 0 <= j < k ==> !Improves(cur, values, weights, capacity, j, r.fitness))
      && (!r.found ==> forall j :: 0 <= j < k ==> !Improves(cur, values, weights, capacity, j, curFit))
      && (r.found ==>
            exists i :: 0 <= i < k && r.neighbour == Flip(cur, i)
              && forall j :: 0 <= j < i ==> FallsShort(cur, values, weights, capacity, j, r.fitness))
    decreases k
  {
    if k > 0 {
      ScanUpToSpec(cur, values, weights, capacity, curFit, k - 1);
      var p := ScanUpTo(cur, values, weights, capacity, curFit, k - 1);
      var r := ScanUpTo(cur, values, weights, capacity, curFit, k);
      if Improves(cur, values, weights, capacity, k - 1, p.fitness) {
        assert r.neighbour == Flip(cur, k - 1) && r.fitness > p.fitness;
        forall j | 0 <= j < k - 1
          ensures !Improves(cur, values, weights, capacity, j, r.fitness)
          ensures FallsShort(cur, values, weights, capacity, j, r.fitness)
        {
          assert !Improves(cur, values, weights, capacity, j, p.fitness);
        }
      } else {
        assert r == p;
      }
    }
  }

  /**
   * The climb from a feasible vector: scan its neighbours; stop when none
   * improves, otherwise move to the scan's choice and climb again. Every
   * move strictly raises the fitness, which no vector can push above
   * PosSum(values), so the climb ends.
   */
  function ClimbFrom(cur: Solution, values: seq<int>, weights: seq<int>, capacity: int): (r: Solution)
    requires |values| <= |cur| && |weights| <= |cur| && IsValid(cur, weights, capacity)
    ensures |r| == |cur| && IsValid(r, weights, capacity)
    ensures Dot(r, values) >= Dot(cur, values)
    decreases PosSum(values) - Dot(cur, values)
  {
    var scan := ScanUpTo(cur, values, weights, capacity, Dot(cur, values), |cur|);
    if !scan.found then cur
    else
      DotBounds(scan.neighbour, values);
      ClimbFrom(scan.neighbour, values, weights, capacity)
  }

  /** The climb stops only at a local optimum. */
  lemma {:induction false} ClimbFromIsLocalOptimum(cur: Solution, values: seq<int>, weights: seq<int>, capacity: int)
    requires |values| <= |cur| && |weights| <= |cur| && IsValid(cur, weights, capacity)
    ensures IsLocalOptimum(ClimbFrom(cur, values, weights, capacity), values, weights, capacity)
    decreases PosSum(values) - Dot(cur, values)
  {
    var scan := ScanUpTo(cur, values, weights, capacity, Dot(cur, values), |cur|);
    if scan.found {
      DotBounds(scan.neighbour, values);
      ClimbFromIsLocalOptimum(scan.neighbour, values, weights, capacity);
    } else {
      ScanUpToSpec(cur, values, weights, capacity, Dot(cur, values), |cur|);
    }
  }

  /**
   * With non-negative weights a feasible local optimum never scores below 0,
   * whatever the signs of the values: unpacking an item of negative value
   * keeps the packing feasible and is strictly fitter.
   */
  lemma LocalOptimumNonNegative(s: Solution, values: seq<int>, weights: seq<int>, capacity: int)
    requires |values| <= |s| && |weights| <= |s| && NonNegative(weights)
    requires IsValid(s, weights, capacity) && IsLocalOptimum(s, values, weights, capacity)
    ensures Dot(s, values) >= 0
  {
    if Dot(s, values) < 0 {
      NegativeScoreHasNegativeItem(s, values);
      var i :| 0 <= i < |values| && s[i] == 1 && values[i] < 0;
      RemovingKeepsValid(s, weights, capacity, i);
      DotFlip(s, values, i);
      assert Improves(s, values, weights, capacity, i, Dot(s, values));
    }
  }

  /** The restarts are feasible vectors of the weight list's length. */
  predicate ValidStarts(starts: seq<Solution>, values: seq<int>, weights: seq<int>, capacity: int)
  {
    && |values| <= |weights|
    && forall i :: 0 <= i < |starts| ==> |starts[i]| == |weights| && IsValid(starts[i], weights, capacity)
  }

  /** The local optimum each restart climbs to, in restart order. */
  function Optima(starts: seq<Solution>, values: seq<int>, weights: seq<int>, capacity: int): (r: seq<Solution>)
    requires ValidStarts(starts, values, weights, capacity)
    ensures |r| == |starts|
    ensures forall i :: 0 <= i < |r| ==> r[i] == ClimbFrom(starts[i], values, weights, capacity)
    ensures forall i :: 0 <= i < |r| ==> |r[i]| == |weights| && IsValid(r[i], weights, capacity)
  {
    seq(|starts|, i requires 0 <= i < |starts| => ClimbFrom(starts[i], values, weights, capacity))
  }

  /** Every optimum is long enough to be scored against the value list. */
  predicate Scorable(opts: seq<Solution>, values: seq<int>)
  {
    forall i :: 0 <= i < |opts| ==> |values| <= |opts[i]|
  }

  /**
   * The global best after the first k restarts, given their optima: an
   * optimum replaces the best so far only when strictly fitter, starting
   * from `([], -1)`.
   */
  function BestSoFar(opts: seq<Solution>, values: seq<int>, k: nat): (r: ClimbResult)
    requires Scorable(opts, values) && k <= |opts|
    ensures r.fitness >= -1
    decreases k
  {
    if k == 0 then ClimbResult([], -1)
    else
      var p := BestSoFar(opts, values, k - 1);
      var opt := opts[k - 1];
      if Dot(opt, values) > p.fitness then ClimbResult(opt, Dot(opt, values)) else p
  }

  /** No optimum among the first k is fitter than `fit`. */
  predicate NoneFitter(opts: seq<Solution>, values: seq<int>, k: nat, fit: int)
    requires Scorable(opts, values) && k <= |opts|
  {
    forall j :: 0 <= j < k ==> Dot(opts[j], values) <= fit
  }

  /** Optimum i has fitness `fit`, and every optimum before it is strictly less fit. */
  predicate FirstReaching(opts: seq<Solution>, values: seq<int>, i: nat, fit: int)
    requires Scorable(opts, values) && i < |opts|
  {
    && Dot(opts[i], values) == fit
    && forall j :: 0 <= j < i ==> Dot(opts[j], values) < fit
  }

  /**
   * The global best is the maximum of -1 and the optima's fitnesses: at
   * least as fit as every optimum, and either still `([], -1)` or the first
   * optimum that reached that fitness.
   */
  lemma {:induction false} BestSoFarSpec(opts: seq<Solution>, values: seq<int>, k: nat)
    requires Scorable(opts, values) && k <= |opts|
    ensures var r := BestSoFar(opts, values, k);
      && NoneFitter(opts, values, k, r.fitness)
      && (|| (r.solution == [] && r.fitness == -1)
          || (&& r.fitness > -1
              && exists i :: 0 <= i < k && r.solution == opts[i] && FirstReaching(opts, values, i, r.fitness)))
    decreases k
  {
    if k > 0 {
      BestSoFarSpec(opts, values, k - 1);
      var p := BestSoFar(opts, values, k - 1);
      var f := Dot(opts[k - 1], values);
      if f > p.fitness {
        assert FirstReaching(opts, values, k - 1, f);
      } else if p.fitness > -1 {
        var i :| 0 <= i < k - 1 && p.solution == opts[i] && FirstReaching(opts, values, i, p.fitness);
        assert FirstReaching(opts, values, i, p.fitness);
      }
    }
  }

  /**
   * With non-negative values or non-negative weights, and at least one
   * restart, the global best is a restart's local optimum: feasible, a local
   * optimum, with its true (non-negative) fitness, and as fit as every
   * restart's optimum.
   */
  lemma BestOfRestarts(starts: seq<Solution>, values: seq<int>, weights: seq<int>, capacity: int)
    requires ValidStarts(starts, values, weights, capacity) && |starts| > 0
    requires NonNegative(values) || NonNegative(weights)
    ensures var opts := Optima(starts, values, weights, capacity);
      && Scorable(opts, values)
      && var r := BestSoFar(opts, values, |opts|);
      && |r.solution| == |weights| && IsValid(r.solution, weights, capacity)
      && IsLocalOptimum(r.solution, values, weights, capacity)
      && r.fitness == Dot(r.solution, values) >= 0
      && NoneFitter(opts, values, |opts|, r.fitness)
      && exists i :: 0 <= i < |starts| && r.solution == ClimbFrom(starts[i], values, weights, capacity)
  {
    var opts := Optima(starts, values, weights, capacity);
    var r := BestSoFar(opts, values, |opts|);
    BestSoFarSpec(opts, values, |opts|);
    if NonNegative(values) {
      DotBounds(opts[0], values);
    } else {
      ClimbFromIsLocalOptimum(starts[0], values, weights, capacity);
      LocalOptimumNonNegative(opts[0], values, weights, capacity);
    }
    var i :| 0 <= i < |opts| && r.solution == opts[i] && FirstReaching(opts, values, i, r.fitness);
    ClimbFromIsLocalOptimum(starts[i], values, weights, capacity);
  }

  /**
   * Without the sign conditions of BestOfRestarts the initial `([], -1)` can
   * survive a restart: with value -1, weight -5 and capacity -5 the only
   * feasible vector packs the item, it is already a local optimum, and its
   * fitness -1 does not beat the initial -1.
   */
  lemma SentinelSurvivesRestart()
    ensures ValidStarts([[1]], [-1], [-5], -5)
    ensures BestSoFar(Optima([[1]], [-1], [-5], -5), [-1], 1) == ClimbResult([], -1)
  {
    var start: Solution := [1];
    assert Dot(start, [-5]) == -5 && Dot(start, [-1]) == -1;
    assert Flip(start, 0) == [0];
    assert Dot([0], [-5]) == 0;
    var scan := ScanUpTo(start, [-1], [-5], -5, -1, 1);
    assert !scan.found;
    assert ClimbFrom(start, [-1], [-5], -5) == start;
  }

  /** The neighbour scan of one climb step (the `for` loop over positions). */
  method ScanNeighbours(cur: Solution, values: seq<int>, weights: seq<int>, capacity: int, curFit: int)
    returns (found: bool, bestNeighbour: Solution, neighbourFit: int)
    requires |values| <= |cur| && |weights| <= |cur|
    ensures Scan(found, bestNeighbour, neighbourFit) == ScanUpTo(cur, values, weights, capacity, curFit, |cur|)
  {
    neighbourFit := curFit;
    bestNeighbour := [];
    found := false;
    for i := 0 to |cur|
      invariant Scan(found, bestNeighbour, neighbourFit) == ScanUpTo(cur, values, weights, capacity, curFit, i)
    {
      var newState := Flip(cur, i);
      if Dot(newState, weights) <= capacity && Dot(newState, values) > neighbourFit {
        bestNeighbour := newState;
        neighbourFit := Dot(newState, values);
        found := true;
      }
    }
  }

  /** One restart's climb (the inner `while True` loop) from a feasible vector to a local optimum. */
  method Climb(start: Solution, values: seq<int>, weights: seq<int>, capacity: int)
    returns (opt: Solution, optFit: int)
    requires |values| <= |start| && |weights| <= |start| && IsValid(start, weights, capacity)
    ensures opt == ClimbFrom(start, values, weights, capacity)
    ensures optFit == Dot(opt, values) >= Dot(start, values)
    ensures IsValid(opt, weights, capacity) && IsLocalOptimum(opt, values, weights, capacity)
  {
    ClimbFromIsLocalOptimum(start, values, weights, capacity);
    var cur, curFit := start, Dot(start, values);
    while true
      invariant |cur| == |start| && IsValid(cur, weights, capacity)
      invariant curFit == Dot(cur, values)
      invariant ClimbFrom(cur, values, weights, capacity) == ClimbFrom(start, values, weights, capacity)
      decreases PosSum(values) - curFit
    {
      var found, bestNeighbour, neighbourFit := ScanNeighbours(cur, values, weights, capacity, curFit);
      if !found {
        break;
      }
      DotBounds(bestNeighbour, values);
      cur, curFit := bestNeighbour, neighbourFit;
    }
    opt, optFit := cur, curFit;
  }

  /**
   * `steepest_ascent_hill_climbing_alg`: while the counter, starting at
   * `numIterations`, is not negative, climb from the next supplied start and
   * keep the result when strictly fitter than the best so far. That is
   * numIterations + 1 restarts, and none when numIterations < 0.
   */
  method HillClimb(weights: seq<int>, values: seq<int>, capacity: int, numIterations: int, starts: seq<Solution>)
    returns (bestSol: Solution, bestFit: int)
    requires |starts| == RangeLen(numIterations + 1)
    requires ValidStarts(starts, values, weights, capacity)
    ensures Scorable(Optima(starts, values, weights, capacity), values)
    ensures ClimbResult(bestSol, bestFit) == BestSoFar(Optima(starts, values, weights, capacity), values, |starts|)
    ensures numIterations < 0 ==> bestSol == [] && bestFit == -1
    ensures NoneFitter(Optima(starts, values, weights, capacity), values, |starts|, bestFit)
  {
    ghost var opts := Optima(starts, values, weights, capacity);
    assert |opts| == |starts| && Scorable(opts, values);
    bestSol, bestFit := [], -1;
    var counter := numIterations;
    var restart := 0;
    while counter >= 0
      invariant restart <= |starts|
      invariant counter == numIterations - restart
      invariant numIterations >= 0 ==> counter >= -1
      invariant ClimbResult(bestSol, bestFit) == BestSoFar(opts, values, restart)
      decreases counter + 1
    {
      var opt, optFit := Climb(starts[restart], values, weights, capacity);
      assert opts[restart] == opt && optFit == Dot(opt, values);
      counter := counter - 1;
      if optFit > bestFit {
        bestFit := optFit;
        bestSol := opt;
      }
      restart := restart + 1;
    }
    assert restart == |starts|;
    BestSoFarSpec(opts, values, |starts|);
  }
}
