# Knapsack search: random search and steepest-ascent hill climbing

This project models the 0/1 knapsack search logic of `main.py`. A solution
is a vector of bits, one per item: 1 means the item is packed. The model covers:

- the dot product used both for the total value (fitness) and for the total weight;
- the feasibility test (the total weight does not exceed the capacity);
- the single-bit flip;
- random search, which keeps the fittest feasible candidate or reports `(None, -1)`;
- steepest-ascent hill climbing with restarts;
- the experiment harness, which runs both algorithms once per run.

Modules, one per file:

- `Solutions` (`solutions.dfy`): bits, `Dot`, `IsValid`, `Flip` and their algebra.
  It also holds a small `Wrappers` module with `Option`.
- `Sampling` (`sampling.dfy`): `find_best_solution` and `random_search`.
  They are pure functions over a list of candidates.
- `HillClimbing` (`hill_climbing.dfy`): the climber written as three methods
  with loops: the neighbour scan, the climb and the restart loop. Each method
  is proved equal to a specification function. The properties the program
  promises are proved about those functions as lemmas.
- `Experiment` (`experiment.dfy`): `run_experiment` as a loop that appends one
  result per algorithm per run. It also holds a lemma about the built-in instance.

The random vectors are inputs. Random search receives the candidates it would
draw. Hill climbing receives one feasible starting vector per restart. With
these inputs both algorithms are deterministic.

Ties are broken the way the code does it. The neighbour scan (`main.py:69`)
and the restart loop (`main.py:75`) replace their running best only on a
strictly greater fitness, and Python's `max` keeps the first of equal maxima.
In all three places the EARLIEST candidate, neighbour or restart among
equally fit ones is kept.

## Model

| member | source | states |
|---|---|---|
| Solutions.Dot | main.py:23-24 | the left-to-right sum of `solution[i] * used_list[i]` over `i < len(used_list)`; what it promises is stated by DotBounds, DotZero, DotAgree, DotFlip and DotScale below |
| Solutions.PosSum | main.py:23-24 | the sum of the positive coefficients is never negative; it is the upper bound on any score |
| Solutions.DotBounds | main.py:23-24 | no solution scores more than the sum of the positive coefficients; with non-negative coefficients no score is negative |
| Solutions.DotZero | main.py:23-24 | the all-zero vector scores 0 against any list |
| Solutions.DotAgree | main.py:23-24 | the score reads only the first `len(used_list)` bits; vectors that agree there score the same |
| Solutions.DotFlip | main.py:23-24 | flipping bit i from 0 to 1 adds exactly `used_list[i]`; from 1 to 0 it subtracts it; a bit beyond the list changes nothing |
| Solutions.NegativeScoreHasNegativeItem | main.py:23-24 | a negative score needs a packed item with a negative coefficient |
| Solutions.DotScale | main.py:23-24 | scaling every coefficient by c scales every score by c |
| Solutions.IsValid | main.py:31-32 | feasible exactly when the weight sum is at most the capacity; EmptyIsValid and RemovingKeepsValid state its consequences, and ScanNeighbours shows the inline test at main.py:68 is this test |
| Solutions.EmptyIsValid | main.py:31-32 | the empty knapsack is feasible exactly when the capacity is not negative (equality counts as feasible) |
| Solutions.RemovingKeepsValid | main.py:31-32 | with non-negative weights, unpacking an item of a feasible knapsack keeps it feasible |
| Solutions.Flip | main.py:46-49 | the flip has the same length, the bit at `position` inverted and every other bit unchanged |
| Solutions.FlipInvolution | main.py:46-49 | flipping the same position twice gives back the original vector |
| Sampling.Feasible | main.py:36-37 | the kept pairs are no more than the candidates; each one is a feasible candidate paired with its true fitness |
| Sampling.MaxByFitness | main.py:38 | the result is at least as fit as every element, and it is the first element with that fitness |
| Sampling.MaxByFitnessAppend | main.py:38 | one more element becomes the maximum exactly when strictly fitter than the maximum so far |
| Sampling.FindBestAppend | main.py:36-38 | one more candidate replaces the answer exactly when it is feasible and either nothing was feasible before or it is strictly fitter |
| Sampling.FindBest | main.py:35-38 | the feasible candidates' `max` by fitness, or `(None, -1)`; its promises are stated by FindBestSpec, FindBestAppend and FindBestMonotone |
| Sampling.FindBestSpec | main.py:35-38 | `(None, -1)` exactly when no candidate is feasible; otherwise a feasible candidate with its true fitness, at least as fit as every feasible candidate, and the first such in list order |
| Sampling.FindBestMonotone | main.py:35-38 | with non-negative values, scoring more candidates never lowers the reported fitness |
| Sampling.RandomSearch | main.py:41-43 | with `num_iterations <= 0` the result is `(None, -1)`; a returned solution is one of the draws and is feasible |
| HillClimbing.ScanUpTo | main.py:63-72 | a reported neighbour is feasible, of the same length and strictly fitter than the current solution; when nothing is found the fitness stays the current one |
| HillClimbing.ScanUpToSpec | main.py:63-72 | no feasible flip is fitter than the reported neighbour; when nothing is found no flip improves; a found neighbour is the flip at some i, and every feasible flip before i is strictly less fit (the earliest wins ties) |
| HillClimbing.ScanNeighbours | main.py:63-72 | the `for` loop over positions computes exactly the scan; its inline weight test is the feasibility test |
| HillClimbing.ClimbFrom | main.py:62-81 | the climb keeps the vector's length and feasibility and never lowers the fitness; it terminates because every move strictly raises a fitness bounded by the sum of the positive values |
| HillClimbing.ClimbFromIsLocalOptimum | main.py:62-81 | the climb stops only at a local optimum: no single-bit flip is both feasible and strictly fitter |
| HillClimbing.LocalOptimumNonNegative | main.py:62-81 | with non-negative weights a feasible local optimum never scores below 0, whatever the signs of the values |
| HillClimbing.Climb | main.py:62-81 | the inner `while True` loop reaches the climb's result: a feasible local optimum whose fitness is its true score and at least the start's |
| HillClimbing.Optima | main.py:55-81 | there is one local optimum per restart, each the climb from that restart's start, of the weight list's length and feasible |
| HillClimbing.BestSoFar | main.py:53-54 | the global best's fitness never drops below the initial -1 |
| HillClimbing.BestSoFarSpec | main.py:74-77 | the global best is at least as fit as every restart's optimum; it is either still `([], -1)` or the first optimum that reached its fitness, which is above -1 |
| HillClimbing.BestOfRestarts | main.py:52-82 | with non-negative values or non-negative weights, and at least one restart, the answer is the climb from one of the starts: feasible, a local optimum, with its true fitness (at least 0), and as fit as every restart's optimum |
| HillClimbing.SentinelSurvivesRestart | main.py:53-55 | with value -1, weight -5 and capacity -5, one restart still leaves the initial `([], -1)` as the answer |
| HillClimbing.HillClimb | main.py:52-82 | the restart loop consumes every start (`num_iterations + 1` of them) and returns the strict-improvement best of their optima, which no optimum beats; with `num_iterations < 0` the result is `([], -1)` |
| Experiment.RandomRuns | main.py:87-90 | the random-search results of the first k runs, one per run, each the random search over that run's draws |
| Experiment.SahcRuns | main.py:87-95 | the hill-climbing results of the first k runs, one per run, each the best of that run's optima and never below -1 |
| Experiment.RunExperiment | main.py:85-97 | each result list gets exactly one entry per run (none when `num_runs <= 0`), in run order, each the algorithm's result for that run |
| Experiment.RandomSearchFitnessAtLeastSentinel | main.py:38-43 | with non-negative values the random-search fitness is never below -1 |
| Experiment.DefaultInstanceOptimum | main.py:121 | on the built-in instance no feasible packing is worth more than 100, and items 1, 4 and 5 reach 100 |

## Left out

- `read_input` (main.py:5-20): file I/O, text parsing and the `FileNotFoundError` path are not part of this model.
- `print_results` and `main` (main.py:100-130): console output, floating-point averages and the interactive `input()` are not modelled.
- `generate_random_solution` (main.py:27-28): the random bits are inputs. Random search receives its draws; hill climbing receives its starts.
- The "sample until feasible" retry loop (main.py:56-61) is not modelled. Instead, each start must be feasible and of the weight list's length (`ValidStarts`). A loop that never finds a feasible sample is therefore out of scope.
- The elapsed times recorded by `run_experiment` (main.py:88-95) are left out, because wall-clock time is not modellable. `Results` holds the solution and fitness of each run.
- The `IndexError` raised when the value list is longer than the solution vectors (`solution[i]` at main.py:24, the vectors having the weight list's length) is not modelled. `Dot` requires the list to be no longer than the vector, and random search, hill climbing and the experiment require `len(values) <= len(weights)`.
- Python's negative indices are not modelled. `Flip` requires `0 <= position < len(solution)`, which is how the program calls it.
- Solutions are immutable values, so "the input list is not modified" holds by construction.
- HillClimbing.HillClimb: the method's contract gives the result as the strict-improvement best over the optima. It does not itself state that the result is feasible. That statement is `BestOfRestarts`, which needs non-negative values or non-negative weights. With non-negative weights every feasible local optimum scores at least 0 (`LocalOptimumNonNegative`), so some optimum beats the initial -1. With negative values and negative weights the initial `([], -1)` can survive the restarts (`SentinelSurvivesRestart`), and the program then returns the empty list, which is not a vector of the right length.
- HillClimbing.BestSoFar: its contract states only the lower bound -1. Its meaning (the maximum of -1 and the optima's fitnesses, with the earliest winning ties) is stated by `BestSoFarSpec`.
