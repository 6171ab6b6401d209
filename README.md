# FER Evolutionary Computing labs in Dafny

This project models the optimisation core of the FER "Evolutionary Computing"
laboratory repository. It covers three parts.

- **Lab 1, part 1: the SAT solvers.** Bit-vector assignments, the mutable bit
  vector that counts through all assignments, and the one-flip neighbourhood
  generator. Clauses and formulas in conjunctive normal form. Five
  optimisation algorithms: brute force, greedy hill climbing, GSAT,
  RandomWalkSAT and a perturbating iterated local search.
- **Lab 2: the genetic-programming engine.** The expression-tree node and its
  size and depth caches, random node selection, cloning and printing. The GP
  driver with its operator table, grow and full generators, mutation,
  crossover, tournament selection and generation step. Also `split` from the
  Lab 2 `main.cpp`.
- **Lab 4: NSGA-II.** Non-dominated sorting into Pareto fronts, truncation by
  crowding distance, crowded-tournament selection, arithmetic crossover,
  clamped mutation and the training loop.

Each module follows one source file or one class of the repository.

| module | models |
|---|---|
| `BitVectors` | `BitVector`, `MutableBitVector` |
| `Neighbourhoods` | `BitVectorNGenerator` and its iterator |
| `Clauses`, `SatFormulas` | `Clause`, `SATFormula` |
| `BruteForce`, `GreedyHillClimb`, `Gsat`, `RandomWalkSat`, `PerturbatingIls` | the `OA*` solvers |
| `LocalSearch` | the neighbourhood scans those solvers share |
| `Tokenizer` | `split` in Lab 2 `main.cpp` |
| `GpTrees`, `GpArena` | `GPNode` |
| `GpCatalog`, `GpGenerators`, `GpEngine`, `GpPopulation`, `GpGeneration`, `Gp` | `GP` |
| `Nsga2` | `NSGA2` |
| `Random`, `Sorting`, `Text`, `Wrappers` | the standard-library services the code uses |

How the source's machinery is represented:

- **Randomness.** The random engines become an oracle value `Random.Rng`
  passed in and returned. Every draw is proved to lie in the range the
  source's distribution object gives, whatever the oracle answers.
- **GP trees.** A GP tree is an arena of nodes (`seq<Node>`) with child
  indices and parent links. The predicate `GpArena.Represents` ties an arena
  root to an abstract `GpTrees.Tree`, so every proof about the linked
  structure is stated on the abstract tree.
- **Penalties and objectives.** The penalty function (`IPenalty`) and the
  NSGA-II objective function are parameters.

## Model

| member | source | states |
|---|---|---|
| BitVectors.BitVector.SetBit | Lab1/Part1/MutableBitVector.cpp:7-9 | the size is kept; bit `index` becomes the given value and every other bit is unchanged |
| BitVectors.BitVector.ToString | Lab1/Part1/BitVector.cpp:29-33 | one character per bit; character k is '1' exactly when bit k is set |
| BitVectors.Zero | Lab1/Part1/BitVector.cpp:17-19 | `BitVector(n)` has n bits, all false |
| BitVectors.RandomBitVector | Lab1/Part1/BitVector.cpp:4-13 | the random constructor yields exactly numberOfBits bits |
| BitVectors.FromNatToNat | Lab1/Part1/MutableBitVector.cpp:11-18 | reading n bits as a binary number and writing them back is the identity |
| BitVectors.ToNatFromNat | Lab1/Part1/MutableBitVector.cpp:11-18 | every number below 2^n is the value of exactly the bit vector written for it |
| BitVectors.ToNatInjective | Lab1/Part1/MutableBitVector.cpp:11-18 | two vectors of the same size with the same value are equal, so counting never visits one twice |
| BitVectors.ToNatBound | Lab1/Part1/MutableBitVector.cpp:11-18 | the value of n bits is below 2^n |
| BitVectors.CarryAdds | Lab1/Part1/MutableBitVector.cpp:11-18 | clearing a run of trailing ones and setting the next bit adds exactly one to the value |
| BitVectors.MutableBitVector.Set | Lab1/Part1/MutableBitVector.cpp:7-9 | the new value is the old one with bit `index` set to the given value |
| BitVectors.MutableBitVector.Increment | Lab1/Part1/MutableBitVector.cpp:11-18 | the value steps to old+1, or wraps to 0; the carry is returned exactly when every bit was 1, that is when old+1 == 2^n |
| BitVectors.Copy | Lab1/Part1/BitVector.cpp:35-37 | a fresh mutable vector holding the same bits |
| Neighbourhoods.Flip | Lab1/Part1/BitVectorNGenerator.h:24-28 | the neighbour differs from the assignment in exactly the flipped bit |
| Neighbourhoods.CreateNeighbourhood | Lab1/Part1/BitVectorNGenerator.cpp:12-20 | one neighbour per variable; neighbour k differs from the assignment only at k |
| Neighbourhoods.NeighboursDistinct | Lab1/Part1/BitVectorNGenerator.cpp:12-20 | the neighbours are pairwise distinct, none equals the assignment, each is at Hamming distance 1 |
| Neighbourhoods.Generator.Begin | Lab1/Part1/BitVectorNGenerator.cpp:5-7 | the iterator starts at variable 0 over the same assignment |
| Neighbourhoods.Generator.End | Lab1/Part1/BitVectorNGenerator.cpp:8-10 | the end iterator sits at index Size() |
| Neighbourhoods.Iterator.Next | Lab1/Part1/BitVectorNGenerator.h:15-18 | advancing moves the index by one and keeps the assignment |
| Neighbourhoods.Iterator.Current | Lab1/Part1/BitVectorNGenerator.h:24-28 | dereferencing gives the assignment with the current variable flipped |
| Neighbourhoods.Enumerate | Lab1/Part1/BitVectorNGenerator.h:11-28 | iterating from begin to end visits exactly createNeighbourhood's vectors, in order |
| Clauses.Variable | Lab1/Part1/Clause.cpp:14-25 | literal l names variable abs(l)-1 |
| Clauses.AnyHolds | Lab1/Part1/Clause.cpp:14-25 | a clause holds iff some literal holds: a positive literal whose bit is set, or a negative one whose bit is clear |
| Clauses.EmptyNeverSatisfied | Lab1/Part1/Clause.cpp:14-25 | the empty clause is satisfied by no assignment |
| Clauses.FlipSatisfies | Lab1/Part1/Clause.cpp:14-25 | flipping the variable of a false literal makes that literal, and so the clause, hold |
| Clauses.LiteralTexts | Lab1/Part1/Clause.cpp:27-35 | one decimal text per literal, in order |
| Clauses.ToStringRoundTrip | Lab1/Part1/Clause.cpp:27-35 | splitting the printed clause on spaces gives tokens that parse back to exactly its literals |
| SatFormulas.SatFormula.IsSatisfied | Lab1/Part1/SATFormula.cpp:18-24 | the formula holds iff every clause holds |
| SatFormulas.SatFormula.NSatisfied | Lab1/Part1/SATFormula.cpp:26-33 | the count is at most the number of clauses, and equals it iff the formula is satisfied |
| SatFormulas.SatFormula.ClauseTexts | Lab1/Part1/SATFormula.cpp:48-56 | each clause is printed inside parentheses, in order |
| SatFormulas.WhichSatisfied | Lab1/Part1/SATFormula.cpp:35-46 | entry i of the flag array records whether clause i holds; entries past the clauses are kept; the returned count equals nSatisfied |
| SatFormulas.CountTrueMatches | Lab1/Part1/SATFormula.cpp:35-46 | the number of set flags equals nSatisfied |
| Text.DecimalRoundTrip | Lab1/Part1/Clause.cpp:27-35 | the decimal text of a natural number parses back to it |
| Text.IntRoundTrip | Lab1/Part1/Clause.cpp:27-35 | the text of a signed integer, with its minus sign, parses back to it |
| Random.Rng.Uniform | Lab1/Part1/BitVector.cpp:4-13 | a uniform_int_distribution draw lies in [lo, hi] and consumes one call |
| Random.Rng.UniformReal | Lab4/NSGA2.cpp:154-163 | a uniform_real_distribution draw lies in its interval |
| Sorting.SortBy | Lab2/GPTree.h:487-492 | std::sort yields a permutation of its input, ordered by the key |
| Sorting.Shuffle | Lab1/Part1/OAPerturbatingILS.cpp:29-37 | std::shuffle yields a permutation of its input |
| Sorting.PermutationKeepsDistinct | Lab2/GPTree.h:369-383 | a permutation of a sequence without repeats has no repeats |
| BruteForce.Solve | Lab1/Part1/OABruteForce.cpp:7-19 | the loop visits the assignments in counting order and returns the last satisfying one it sees, or nothing |
| BruteForce.Enumeration | Lab1/Part1/OABruteForce.cpp:7-19 | after k increments the counter holds the binary numeral for k |
| BruteForce.SolveFindsGreatest | Lab1/Part1/OABruteForce.cpp:7-19 | when any assignment satisfies the formula a solution is returned, and its binary value is at least that assignment's: the answer is the greatest satisfying assignment |
| BruteForce.Answer | Lab1/Part1/OABruteForce.cpp:7-19 | a returned answer satisfies the formula |
| BruteForce.LastWhereIsLast | Lab1/Part1/OABruteForce.cpp:7-19 | the kept index satisfies the predicate and no later index does |
| GreedyHillClimb.Solve | Lab1/Part1/OAGreedyHillClimb.cpp:8-35 | a returned assignment satisfies the formula; with no iterations nothing is returned |
| Gsat.Solve | Lab1/Part1/OAGSAT.cpp:8-38 | a returned assignment satisfies the formula; with no tries nothing is returned |
| RandomWalkSat.Solve | Lab1/Part1/OARandomWalkSAT.cpp:8-60 | a returned assignment satisfies the formula; with no tries or no flips nothing is returned |
| RandomWalkSat.RollOf | Lab1/Part1/OARandomWalkSAT.cpp:22-23 | the walk probability is compared with a draw in [0, 1) |
| RandomWalkSat.WalkMove | Lab1/Part1/OARandomWalkSAT.cpp:22-36 | the step flips a variable of an unsatisfied clause, which then holds |
| RandomWalkSat.GreedyMoveAsWritten | Lab1/Part1/OARandomWalkSAT.cpp:37-55 | as written, the greedy step moves to neighbour d for some d below the number of maximal neighbours |
| RandomWalkSat.MaximalCount | Lab1/Part1/OARandomWalkSAT.cpp:37-55 | bestIndices holds as many entries as there are maximal neighbours |
| RandomWalkSat.AsWrittenMovesToNonMaximal | Lab1/Part1/OARandomWalkSAT.cpp:53-54 | with two variables, the clause (2) and the all-false assignment, the as-written step can only move to a neighbour that is not maximal |
| PerturbatingIls.New | Lab1/Part1/OAPerturbatingILS.cpp:6 | toChange is the number of variables times the fraction, truncated toward zero |
| PerturbatingIls.Truncate | Lab1/Part1/OAPerturbatingILS.cpp:6 | the conversion to int truncates toward zero |
| PerturbatingIls.FractionFits | Lab1/Part1/OAPerturbatingILS.cpp:6 | a fraction in [0,1] gives 0 <= toChange <= n |
| PerturbatingIls.ShuffledDeck | Lab1/Part1/OAPerturbatingILS.cpp:11-12 | the shuffled deck is still a permutation of 0..n-1 |
| PerturbatingIls.Perturb | Lab1/Part1/OAPerturbatingILS.cpp:29-37 | exactly the first toChange deck variables are flipped: the changed bits are those variables, so the Hamming distance is toChange |
| PerturbatingIls.Solve | Lab1/Part1/OAPerturbatingILS.cpp:8-46 | a returned assignment satisfies the formula |
| LocalSearch.CandidatesImprove | Lab1/Part1/OAGreedyHillClimb.cpp:17-24 | the candidates are in index order; each reaches the best fitness seen so far and is no worse than the candidate before |
| LocalSearch.Scan | Lab1/Part1/OAGreedyHillClimb.cpp:17-24 | a found neighbour is a one-flip neighbour that satisfies the formula; when none is found, no neighbour does, and the candidates are the recorded improvements |
| LocalSearch.MoveToCandidate | Lab1/Part1/OAGreedyHillClimb.cpp:26-31 | the move goes to a one-flip neighbour that reaches the best fitness |
| LocalSearch.BestNeighbours | Lab1/Part1/OAGSAT.cpp:16-29 | the indices are exactly those of the neighbours with maximal nSatisfied, ascending |
| LocalSearch.GreedyMove | Lab1/Part1/OAGSAT.cpp:31-33 | the move goes to a neighbour with maximal nSatisfied |
| Tokenizer.Split | Lab2/main.cpp:8-20 | split is the trimmed getline tokens |
| Tokenizer.TrimToken | Lab2/main.cpp:14-15 | at most one leading and one trailing space are removed |
| Tokenizer.TokensRoundTrip | Lab2/main.cpp:8-20 | no token contains the separator, and joining the tokens gives back the input minus at most one trailing separator |
| Tokenizer.SplitOfJoin | Lab2/main.cpp:8-20 | splitting the join of separator-free, space-free tokens gives the tokens back |
| Tokenizer.TrimDropsAtMostOneEach | Lab2/main.cpp:14-15 | trimming removes at most one character from each end and keeps the rest in order |
| Nsga2.DominatesCheck | Lab4/NSGA2.cpp:36-47 | the early-exit loop decides Pareto dominance: no objective worse and at least one strictly better |
| Nsga2.DominatesMeaning | Lab4/NSGA2.cpp:36-47 | dominance is exactly "no objective worse and some objective better" |
| Nsga2.DominatesStrictOrder | Lab4/NSGA2.cpp:36-47 | dominance is irreflexive and transitive |
| Nsga2.DominationPass | Lab4/NSGA2.cpp:29-53 | after the pass, each rank counts its dominators and each dominating list is the set it dominates, in index order |
| Nsga2.PlaceFront | Lab4/NSGA2.cpp:55-87 | front members take the front's index as rank and distance 0; every other solution's rank drops by the number of its dominators in the front |
| Nsga2.PeelFronts | Lab4/NSGA2.cpp:55-87 | the front loop stops once at least populationSize solutions are placed; every dominator of a placed solution lies in an earlier front, and each solution is placed or left over exactly once |
| Nsga2.FrontIsPeel | Lab4/NSGA2.cpp:55-87 | front g is exactly the solutions outside earlier fronts all of whose dominators are in earlier fronts |
| Nsga2.FirstFrontNonDominated | Lab4/NSGA2.cpp:55-87 | the first front is exactly the non-dominated solutions |
| Nsga2.Truncate | Lab4/NSGA2.cpp:116-140 | whole fronts are kept while they fit; the first front that overflows is sorted by descending crowding distance and cut to fill populationSize |
| Nsga2.Select | Lab4/NSGA2.cpp:142-152 | three draws from the first populationSize; the winner is beaten by none of them and beats every earlier one |
| Nsga2.Cross | Lab4/NSGA2.cpp:154-163 | each child coordinate lies between the parents' coordinates |
| Nsga2.Mutate | Lab4/NSGA2.cpp:180-198 | a coordinate whose roll exceeds the chance is unchanged; any other ends inside its boundary |
| Nsga2.ChildInBox | Lab4/NSGA2.cpp:154-163 | a child of two in-box parents is in the box |
| Nsga2.Optimizer.constructor | Lab4/NSGA2.cpp:6-21 | the settings and problem are stored and the population must be initialised before training |
| Nsga2.Optimizer.SetProblem | Lab4/NSGA2.cpp:209-217 | the problem is installed and the population must be initialised again |
| Nsga2.Optimizer.InitializePopulation | Lab4/NSGA2.cpp:219-230 | populationSize solutions inside the box, each evaluated |
| Nsga2.Optimizer.NonDominatedSort | Lab4/NSGA2.cpp:23-88 | the fronts are the peel layering of the population's dominance; they hold at least populationSize solutions; coordinates and fitness are untouched |
| Nsga2.Optimizer.CalculateCrowdingDistances | Lab4/NSGA2.cpp:90-114 | each front keeps its solutions and ends sorted by the last objective (unchanged with no objectives); exactly the solutions in some front get a new crowding distance; coordinates and fitness are untouched |
| Nsga2.SortFront | Lab4/NSGA2.cpp:92-97 | sorting a front by each objective in turn keeps its solutions and leaves it ordered by the last objective |
| Nsga2.SortFronts | Lab4/NSGA2.cpp:91-97 | every front is sorted as SortFront does: each keeps its solutions and is ordered by the last objective, and nothing moves with no objectives |
| Nsga2.PermutedBelow | Lab4/NSGA2.cpp:92-97 | reordering within fronts keeps every front's indices inside the population and its size |
| Nsga2.PermutedPlaced | Lab4/NSGA2.cpp:92-97 | reordering within fronts places the same solutions |
| Nsga2.PermutedLayered | Lab4/NSGA2.cpp:92-97 | reordering within fronts keeps them layered by dominance, so reducePopulation still sees the fronts nonDominatedSort built |
| Nsga2.Optimizer.SortAndCrowd | Lab4/NSGA2.cpp:238-239 | after the sort and the crowding sort, the fronts are layered by dominance and place at least populationSize solutions |
| Nsga2.Optimizer.ReducePopulation | Lab4/NSGA2.cpp:116-140 | the population becomes the truncation of the old one by fronts and crowding distance |
| Nsga2.Optimizer.ExpandPopulation | Lab4/NSGA2.cpp:200-207 | the old population stays as a prefix and populationSize evaluated in-box children are appended |
| Nsga2.Optimizer.Train | Lab4/NSGA2.cpp:232-248 | without initialisation nothing changes; otherwise the final fronts layer the population by dominance |
| GpTrees.CachedIsRecurrence | Lab2/GPTree.h:38-48 | a tree's caches are correct iff each node's size is 1 plus its children's sizes and its depth 1 plus their maximum |
| GpTrees.RecalcKeeps | Lab2/GPTree.h:38-48 | recalculation makes every cache correct and keeps the shape and operators |
| GpTrees.ReplaceSize | Lab2/GPTree.h:322-367 | after a subtree swap, the new size plus the removed subtree's size equals the old size plus the inserted one |
| GpTrees.ReplaceDepth | Lab2/GPTree.h:322-367 | after a swap at path p, the depth is at most the larger of the old depth and depth(p) plus the inserted depth |
| GpTrees.ReplaceShaped | Lab2/GPTree.h:300-367 | swapping in a well-formed subtree keeps the tree well-formed |
| GpTrees.PathOfRank | Lab2/GPTree.h:141-162 | a node's pre-order rank leads back to its path |
| GpTrees.RankOfPath | Lab2/GPTree.h:141-162 | the path found for a rank has that rank: ranks and paths are in bijection |
| GpTrees.RefreshCached | Lab2/GPTree.h:120-138 | recalculating below a node and then up its ancestors makes every cache correct again |
| GpTrees.LeavesAtDepth | Lab2/GPTree.h:222-263 | a tree with every leaf at depth d has depth d |
| GpTrees.ToStringBalanced | Lab2/GPTree.h:168-180 | the printed tree has balanced parentheses |
| GpArena.Clone | Lab2/GPTree.h:63-73 | the clone is a fresh copy of the same tree, with the new parent, built wholly in new nodes; the old arena is unchanged |
| GpArena.RecalculateSubtreeSizesRecursive | Lab2/GPTree.h:38-48 | the subtree's caches are set to their true sizes and depths and the subtree's size is returned; nodes outside are unchanged |
| GpArena.RecalculateSubtreeSizes | Lab2/GPTree.h:120-138 | after the call the root's tree has correct caches along the path and below the node, and nothing else changed |
| GpArena.GetRandomNode | Lab2/GPTree.h:141-162 | a rank in [1, size-1] is drawn, and the node returned is the one of that pre-order rank, with its index among its parent's children |
| GpCatalog.SortByArity | Lab2/GPTree.h:415-419 | the operators are permuted into ascending arity |
| GpCatalog.CountTable | Lab2/GPTree.h:423-433 | counts[a] is the number of operators of arity at most a; minNonZero is the least positive arity |
| GpCatalog.ArityPresent | Lab2/GPTree.h:423-433 | counts[a-1] < counts[a] iff some operator has arity a |
| GpCatalog.MinNonZeroIsLeast | Lab2/GPTree.h:423-433 | minNonZero is SIZE_MAX iff every operator is a terminal; otherwise it is the least positive arity present |
| GpCatalog.GeometricSeries | Lab2/GPTree.h:435-440 | entry k is 1 + m + ... + m^k computed in 64-bit size_t arithmetic |
| GpCatalog.NoWrap | Lab2/GPTree.h:435-440 | while the exact sum fits in 64 bits, the wrapped series equals the exact one |
| GpCatalog.SeriesLevels | Lab2/GPTree.h:435-440 | without overflow, each entry is 1 plus m times the previous, the node count of a full m-ary tree |
| GpCatalog.MaxDepthFull | Lab2/GPTree.h:442-448 | maxDepthFull is the largest d in [2, maxTreeDepth] with maxTreeNodes >= series[d-1], or unset when there is none |
| GpGenerators.Splitters | Lab2/GPTree.h:237-243 | the split points start at 0, end at the budget, and ascend |
| GpGenerators.GrowArity | Lab2/GPTree.h:266-269 | the arity bound respects the node budget and the operators, and is 0 at the last depth |
| GpGenerators.Grow | Lab2/GPTree.h:265-298 | the grown tree respects the depth and node limits, is well-formed, and is not a terminal when terminals are banned |
| GpGenerators.FullArity | Lab2/GPTree.h:224-236 | the largest available arity whose full subtrees fit the node budget |
| GpGenerators.Full | Lab2/GPTree.h:222-263 | every leaf lies at exactly the requested depth and the node limit holds |
| GpEngine.Finish | Lab2/GPTree.h:313-315 | recalculateSubtreeSizes then setPenalty: the tree gets correct caches and the penalty IPenalty gives on the recalculated tree; only its own records change |
| GpEngine.MutateTree | Lab2/GPTree.h:300-319 | the mutant is a clone with one non-root subtree regrown inside the limits left by the rest, keeps the root operator, has correct caches and carries the penalty of the recalculated mutant |
| GpEngine.SizeCheckExact | Lab2/GPTree.h:337-341 | crossover's size test accepts exactly the swaps whose result fits maxTreeNodes |
| GpEngine.CrossSound | Lab2/GPTree.h:337-341 | an offspring that passes both checks respects the depth and node limits and keeps its root operator |
| GpEngine.DepthCheckRejectsFitting | Lab2/GPTree.h:337-341 | the depth check is conservative: it rejects a swap whose result would fit |
| GpEngine.CrossTrees | Lab2/GPTree.h:322-367 | the offspring are the clones that pass the checks, in order; each is built in fresh nodes, recalculated and scored once, and carries the penalty of its recalculated tree |
| GpPopulation.Tournament | Lab2/GPTree.h:369-383 | the population is permuted; the winners are the winnersCount lowest-penalty among the first tournamentSize, ascending, without repeats |
| GpPopulation.BestIndex | Lab2/GPTree.h:455-466 | the index of the first member of least penalty |
| GpPopulation.CycledDepth | Lab2/GPTree.h:468-482 | the depth handed to grow or full for a slot lies in [2, top], where top is maxTreeDepth or maxDepthFull |
| GpPopulation.InitializePopulation | Lab2/GPTree.h:468-482 | half the population is full trees of cycling depths, half grown trees within cycling depth limits; each is recalculated and carries the penalty of its recalculated tree, one evaluation each |
| GpGeneration.Elites | Lab2/GPTree.h:494-496 | the elitism best are cloned into the new population, in penalty order |
| GpGeneration.Round | Lab2/GPTree.h:498-513 | one round adds, without exceeding populationSize, an exact clone of an old member, a scored mutant of one (a non-root subtree regrown within the limits), or scored crossover survivors of two |
| GpGeneration.NewGeneration | Lab2/GPTree.h:484-517 | the old population sorted by penalty, the elites cloned first, every other new member an exact clone, a scored mutant or a scored crossover survivor of old members; evaluations are bounded by the members added |
| Gp.GP.constructor | Lab2/GPTree.h:386-449 | the settings are stored, the population is empty and maxDepthFull is the deepest full tree that fits maxTreeNodes |
| Gp.GP.Mutate | Lab2/GPTree.h:300-319 | one evaluation; the mutant is the member with one non-root subtree regrown within the limits, recalculated and scored, and keeps the root operator; the population is untouched |
| Gp.GP.Cross | Lab2/GPTree.h:322-367 | one evaluation per surviving offspring; the offspring are the survivors, in order, each recalculated and scored |
| Gp.GP.Tournament | Lab2/GPTree.h:369-383 | the population is permuted in place and the winners are its lowest-penalty sampled members |
| Gp.GP.GetBestSolution | Lab2/GPTree.h:455-466 | the first population member of least penalty |
| Gp.GP.GetCostEvaluations | Lab2/GPTree.h:451-453 | the number of penalty evaluations so far |
| Gp.GP.InitializePopulation | Lab2/GPTree.h:468-482 | populationSize evaluations; the fresh population mixes full and grown trees with the cycling depths, each recalculated and scored |
| Gp.GP.NewGeneration | Lab2/GPTree.h:484-517 | a completed generation holds the elites by penalty rank, then clones, scored mutants and scored crossover survivors of old members, with at most populationSize - elitism + 1 evaluations; an incomplete one keeps the old population |

## Left out

- I/O: reading formulas from files, `writeResults`, and console output. The solvers' `solve` loops have their I/O removed.
- `OAStatsSearch`, `TriSATSolver`, Lab 1 part 2, Lab 3, and the Lab 4 problem classes with their `main`. These lie outside the modelled core.
- Distributions: the random engines and their seeds are an oracle. Any value in range is admitted, so uniformity is not modelled.
- Floating point: `double` becomes `real`. Rounding, infinities and NaN are not modelled.
- Nsga2.Optimizer.CalculateCrowdingDistances: the distance arithmetic is a parameter `crowding`. The contract says which solutions receive a distance, not its value; the reordering of the fronts is stated.
- Nsga2.Cross: the draw is between the parents' coordinates, whatever the real distribution.
- Evaluation: the NSGA-II objective function and the GP `IPenalty` are parameters. `GPNode::evaluate` and the operator functions are left out with them.
- Memory: `unique_ptr` ownership and freeing. Replaced subtrees stay in the arena as unreachable nodes.
- Integer width: `size_t` counters such as `costEvaluations` are unbounded. The geometric series is the only place where 64-bit wrap-around is written out.
- Sorting order among equal keys: `std::sort`, `std::partition` and `std::shuffle` are specified only as a permutation that is sorted, partitioned or shuffled.
- Gp.GP.NewGeneration: the fill loop takes a `fuel` bound on rounds. A generation that does not complete within it keeps the old population; the source loops until the population is full.
- Gp.GP.constructor: requires a non-empty operator table and maxTreeDepth at most 20, the length of the series. The source indexes out of range past that.
- GpGenerators.Full: requires that 1 + m + ... + m^(d-1) stays below 2^64, for the least positive arity m and the depth d (`FullReady`). With m = 11, maxTreeDepth = 20 and maxTreeNodes = SIZE_MAX, the series wraps and the wrapped entries steer the source's arity search. The model does not follow that case.
- Gp.GP.InitializePopulation: requires maxTreeDepth >= 2, a non-terminal, at least one terminal and a set maxDepthFull. The source has undefined behaviour without them. It also requires the same no-wrap bound for maxDepthFull (`FullHalfReady`), so the full half of the population is not modelled when the series wraps.
- GpPopulation.InitializePopulation: carries the same requirements as Gp.GP.InitializePopulation, the no-wrap bound included.
- Gp.GP.Tournament: requires winnersCount <= tournamentSize <= populationSize, where the source would read past the population.
- Gp.GP.NewGeneration: requires elitism <= populationSize and a tournament of at least two, for the same reason.
- Gsat.Solve: requires at least one variable when a flip can happen. Drawing a neighbour of an empty assignment is undefined in the source.
- RandomWalkSat.Solve: requires at least one variable, and no empty clause unless the walk probability is 0. The walk step draws a literal from an unsatisfied clause.
- PerturbatingIls.Solve: requires toChange <= the number of variables, as the deck has only that many cards.
- GreedyHillClimb.Solve: states soundness of the returned assignment. The step rules are stated by `LocalSearch.Scan` and `LocalSearch.MoveToCandidate`, not by Solve.
- Gsat.Solve: states soundness of the returned assignment. Its moves are stated by `LocalSearch.BestNeighbours` and `LocalSearch.GreedyMove`.
- PerturbatingIls.Solve: states soundness of the returned assignment. The perturbation is stated by `PerturbatingIls.Perturb`.
- RandomWalkSat.Solve: states soundness of the returned assignment. Its greedy step is the corrected `LocalSearch.GreedyMove` (see Findings); its walk step is `RandomWalkSat.WalkMove`.
- GpTrees.ToStringBalanced: the printed text is stated only to be balanced, not parsed back.

## Findings

| source | as written | input that shows it | evidently intended | confidence | as-written member | corrected member |
|---|---|---|---|---|---|---|
| Lab1/Part1/OARandomWalkSAT.cpp:53-54 | the greedy step moves to `neighbourhood[indices_dist(rng)]`, indexing the neighbourhood with a position in `bestIndices` | two variables, the single clause (2), the all-false assignment: only neighbour 1 is maximal, the draw is in [0, 0], and the step moves to neighbour 0 | move to `neighbourhood[bestIndices[indices_dist(rng)]]`, a maximal neighbour, as GSAT does | high, not executed | RandomWalkSat.GreedyMoveAsWritten, RandomWalkSat.AsWrittenMovesToNonMaximal | LocalSearch.GreedyMove |
