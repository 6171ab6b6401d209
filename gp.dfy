/**
 * The GP class: the settings the constructor fixes, the tables it builds,
 * the population (one root per slot, empty until initializePopulation),
 * the evaluation counter and the random engine, with the public
 * operations and the selection, variation and generation steps they use.
 * Every GPNode the class has ever built lives in `heap`; the ghost map
 * `trees` gives the Tree each population root stands for.
 */
module Gp {
  import opened Wrappers
  import opened GpTrees
  import opened GpArena
  import opened GpCatalog
  import opened GpGenerators
  import opened GpEngine
  import opened GpPopulation
  import opened GpGeneration
  import opened Random
  import opened Sorting

  /** The roots of a population whose every slot is set. */
  function Roots(slots: seq<Option<nat>>): (r: seq<nat>)
    requires forall i :: 0 <= i < |slots| ==> slots[i].Some?
    ensures |r| == |slots| && forall i :: 0 <= i < |slots| ==> slots[i] == Some(r[i])
  {
    if slots == [] then [] else [slots[0].value] + Roots(slots[1..])
  }

  /** Population slots holding the given roots. */
  function Slots(roots: seq<nat>): (s: seq<Option<nat>>)
    ensures |s| == |roots| && (forall i :: 0 <= i < |s| ==> s[i].Some?) && Roots(s) == roots
  {
    var s := seq(|roots|, i requires 0 <= i < |roots| => Some(roots[i]));
    assert Roots(s) == roots by {
      var r := Roots(s);
      assert forall i :: 0 <= i < |r| ==> r[i] == roots[i] by {
        forall i | 0 <= i < |r| ensures r[i] == roots[i] { assert s[i] == Some(r[i]); }
      }
    }
    s
  }

  class GP {
    const populationSize: nat
    const maxTreeDepth: nat
    const maxTreeNodes: nat
    const tournamentSize: nat
    const elitism: nat
    const pClone: real
    const pMutate: real
    const pCross: real
    /** IPenalty::calculate over the fixed contexts, on the tree rooted at a heap index. */
    const penalty: (seq<Node>, nat) -> real
    ghost const ops: seq<Operator>
    /** The sorted operators, operCountUpToArity, minNonZeroArity, maxArity and minArityGeometricSeries. */
    const catalog: Catalog
    /** None while the field is unset: no depth of at least 2 admits a full tree within maxTreeNodes. */
    const maxDepthFull: Option<nat>

    var population: seq<Option<nat>>
    var costEvaluations: nat
    var rng: Rng
    var heap: seq<Node>
    ghost var trees: map<nat, Tree>

    /** The tables are those the constructor builds, and the population has populationSize slots. */
    ghost predicate Valid()
      reads this
    {
      && Built(catalog, ops) && rng.Valid() && |population| == populationSize
    }

    /** Every slot holds a member of the population, no two slots the same tree. */
    ghost predicate Ready()
      reads this
    {
      && Valid() && (forall i :: 0 <= i < |population| ==> population[i].Some?)
      && Planted(heap, Roots(population), trees, maxTreeDepth, maxTreeNodes)
    }

    /**
     * GP::GP: the settings stored, populationSize empty slots, the
     * operators sorted by arity with their tables, and maxDepthFull the
     * largest depth from maxTreeDepth down to 2 whose fewest-node full tree
     * fits maxTreeNodes. The engine's seed is the parameter rng.
     */
    constructor (ops: seq<Operator>, populationSize: nat, maxTreeDepth: nat, maxTreeNodes: nat, tournamentSize: nat,
                 elitism: nat, pClone: real, pMutate: real, pCross: real, penalty: (seq<Node>, nat) -> real, rng: Rng)
      requires ops != [] && maxTreeDepth <= SeriesLength && rng.Valid()
      ensures Valid() && this.ops == ops && costEvaluations == 0 && heap == [] && this.rng == rng
      ensures population == seq(populationSize, _ => None)
      ensures this.populationSize == populationSize && this.maxTreeDepth == maxTreeDepth && this.maxTreeNodes == maxTreeNodes
      ensures this.tournamentSize == tournamentSize && this.elitism == elitism
      ensures this.pClone == pClone && this.pMutate == pMutate && this.pCross == pCross && this.penalty == penalty
      ensures maxDepthFull.Some? ==> 2 <= maxDepthFull.value <= maxTreeDepth && maxTreeNodes >= catalog.series[maxDepthFull.value - 1]
      ensures maxDepthFull.Some? ==> forall k :: maxDepthFull.value <= k < maxTreeDepth ==> maxTreeNodes < catalog.series[k]
      ensures maxDepthFull.None? ==> forall k :: 1 <= k < maxTreeDepth ==> maxTreeNodes < catalog.series[k]
    {
      var cat := Build(ops);
      var mdf := MaxDepthFull(cat.series, maxTreeDepth, maxTreeNodes);
      this.populationSize := populationSize;
      this.maxTreeDepth := maxTreeDepth;
      this.maxTreeNodes := maxTreeNodes;
      this.tournamentSize := tournamentSize;
      this.elitism := elitism;
      this.pClone := pClone;
      this.pMutate := pMutate;
      this.pCross := pCross;
      this.penalty := penalty;
      this.ops := ops;
      catalog := cat;
      maxDepthFull := mdf;
      population := seq(populationSize, _ => None);
      costEvaluations := 0;
      this.rng := rng;
      heap := [];
      trees := map[];
    }

    /** GP::getCostEvaluations. */
    method GetCostEvaluations() returns (n: nat)
      ensures n == costEvaluations
    {
      n := costEvaluations;
    }

    /**
     * GP::mutate on the member at root x: the mutant is appended to the
     * heap, keeps x's root operator, replaces one non-root subtree by a
     * grown one within the slack, and costs one evaluation.
     */
    method Mutate(x: nat) returns (y: nat, ghost t': Tree, ghost p: seq<nat>, ghost g: Tree)
      requires Ready() && 1 <= catalog.counts[0] && x in Roots(population)
      modifies this
      ensures Ready() && population == old(population) && trees == old(trees) && Kept(old(heap), heap)
      ensures costEvaluations == old(costEvaluations) + 1
      ensures Appended(old(heap), heap, y, t', None) && Member(t', maxTreeDepth, maxTreeNodes)
      ensures t'.oper == trees[x].oper && Regrown(trees[x], p, g, maxTreeDepth, maxTreeNodes)
      ensures Scored(t', Replace(trees[x], p, g), penalty)
    {
      var h';
      h', y, t', rng, p, g := MutateTree(ops, catalog, heap, x, trees[x], maxTreeDepth, maxTreeNodes, penalty, rng);
      PlantedKept(heap, h', Roots(population), trees, maxTreeDepth, maxTreeNodes);
      heap := h';
      costEvaluations := costEvaluations + 1;
    }

    /**
     * GP::cross on the members at roots x1 and x2: the survivors of the
     * exchange in order, each appended to the heap and evaluated once.
     */
    method Cross(x1: nat, x2: nat)
      returns (first: Option<nat>, second: Option<nat>, ghost p1: seq<nat>, ghost p2: seq<nat>, ghost o1: Tree, ghost o2: Tree)
      requires Ready() && x1 in Roots(population) && x2 in Roots(population)
      modifies this
      ensures Ready() && population == old(population) && trees == old(trees) && Kept(old(heap), heap)
      ensures CrossPoints(trees[x1], p1, trees[x2], p2)
      ensures var kept := Survivors(trees[x1], p1, trees[x2], p2, maxTreeDepth, maxTreeNodes);
        && costEvaluations == old(costEvaluations) + |kept|
        && (first.Some? <==> 1 <= |kept|) && (second.Some? <==> |kept| == 2)
        && (first.Some? ==> Offspring(|old(heap)|, heap, first.value, o1, kept[0], maxTreeDepth, maxTreeNodes, penalty))
        && (second.Some? ==> Offspring(|old(heap)|, heap, second.value, o2, kept[1], maxTreeDepth, maxTreeNodes, penalty))
    {
      var h', evaluated;
      h', first, second, evaluated, rng, p1, p2, o1, o2 := CrossTrees(heap, x1, trees[x1], x2, trees[x2],
                                                                     maxTreeDepth, maxTreeNodes, penalty, rng);
      PlantedKept(heap, h', Roots(population), trees, maxTreeDepth, maxTreeNodes);
      heap := h';
      costEvaluations := costEvaluations + evaluated;
    }

    /**
     * GP::tournament(winnersCount): the population shuffled in place; the
     * winners are the winnersCount lowest-penalty of the first
     * tournamentSize members, in ascending penalty, no member twice.
     */
    method Tournament(winnersCount: nat) returns (winners: seq<nat>, ghost ranked: seq<nat>)
      requires Ready() && winnersCount <= tournamentSize <= populationSize
      modifies this
      ensures Ready() && heap == old(heap) && trees == old(trees) && costEvaluations == old(costEvaluations)
      ensures multiset(Roots(population)) == multiset(Roots(old(population)))
      ensures |ranked| == tournamentSize && multiset(ranked) == multiset(Roots(population)[..tournamentSize])
      ensures SortedBy(ranked, ByPenalty(heap)) && winners == ranked[..winnersCount]
      ensures Distinct(winners) && forall w :: w in winners ==> w in Roots(old(population))
    {
      var pop';
      pop', winners, rng, ranked := GpPopulation.Tournament(heap, Roots(population), tournamentSize, winnersCount, rng);
      PlantedPerm(heap, Roots(population), pop', trees, maxTreeDepth, maxTreeNodes);
      population := Slots(pop');
    }

    /** GP::getBestSolution: the root of the first member of least penalty. */
    method GetBestSolution() returns (best: nat)
      requires Ready() && 1 <= populationSize
      ensures exists i ::
        && 0 <= i < |population| && population[i] == Some(best)
        && (forall j :: 0 <= j < |population| ==> PenaltyOf(heap, best) <= PenaltyOf(heap, population[j].value))
        && (forall j :: 0 <= j < i ==> PenaltyOf(heap, best) < PenaltyOf(heap, population[j].value))
    {
      var roots := Roots(population);
      var i := BestIndex(heap, roots);
      best := roots[i];
      assert population[i] == Some(best);
    }

    /**
     * GP::initializePopulation: slots populationSize / 2 and up grown with
     * a non-terminal root to depth 2 + i mod (maxTreeDepth - 1), the slots
     * below built by full to depth 2 + i mod (maxDepthFull - 1), then every
     * tree recalculated and scored: populationSize evaluations.
     */
    method InitializePopulation() returns (ghost roots: seq<nat>, ghost raw: map<nat, Tree>)
      requires Valid() && 1 <= catalog.counts[0]
      requires populationSize >= 1 ==> GrowReady(catalog, maxTreeDepth, maxTreeNodes)
      requires populationSize / 2 >= 1 ==> FullHalfReady(catalog, maxDepthFull, maxTreeDepth, maxTreeNodes)
      modifies this
      ensures Ready() && Kept(old(heap), heap) && costEvaluations == old(costEvaluations) + populationSize
      ensures population == Slots(roots) && |roots| == populationSize
      ensures forall i :: 0 <= i < populationSize ==>
        roots[i] in raw && Scored(trees[roots[i]], raw[roots[i]], penalty)
      ensures forall i :: populationSize / 2 <= i < populationSize ==> Depth(raw[roots[i]]) <= CycledDepth(i, maxTreeDepth)
      ensures forall i :: 0 <= i < populationSize / 2 ==> LeavesAt(raw[roots[i]], CycledDepth(i, maxDepthFull.value))
    {
      var h', pop, evaluations;
      ghost var t;
      h', pop, t, raw, evaluations, rng := GpPopulation.InitializePopulation(ops, catalog, heap, populationSize, maxDepthFull,
                                                                           maxTreeDepth, maxTreeNodes, penalty, rng);
      roots := pop;
      heap, trees, population := h', t, Slots(pop);
      costEvaluations := costEvaluations + evaluations;
    }

    /**
     * GP::newGeneration with at most fuel rounds of its fill loop. When
     * the new population fills up it replaces the old one, whose first
     * elitism members by penalty reappear as clones at its front; the
     * evaluation count grows by the mutants and crossover survivors.
     */
    method NewGeneration(fuel: nat) returns (complete: bool, ghost ranked: seq<nat>)
      requires Ready() && 1 <= catalog.counts[0] && elitism <= populationSize
      requires elitism < populationSize ==> 1 <= tournamentSize <= populationSize
      requires elitism < populationSize && pClone + pMutate < 1.0 ==> 2 <= tournamentSize
      modifies this
      ensures Ready() && Kept(old(heap), heap) && old(costEvaluations) <= costEvaluations
      ensures multiset(ranked) == multiset(Roots(old(population))) && |ranked| == populationSize
      ensures SortedBy(ranked, ByPenalty(old(heap)))
      ensures complete ==> Descends(Roots(population), trees, ranked, Roots(old(population)), old(trees), elitism,
                                         maxTreeDepth, maxTreeNodes, penalty)
      ensures complete ==> costEvaluations - old(costEvaluations) <= populationSize - elitism + 1
      ensures !complete ==> multiset(Roots(population)) == multiset(Roots(old(population))) && trees == old(trees)
    {
      var h', r, cur, newPop, evaluations, rounds;
      ghost var born;
      h', r, cur, newPop, born, evaluations, rng, rounds := GpGeneration.NewGeneration(
        ops, catalog, heap, Roots(population), trees, populationSize, tournamentSize, elitism,
        maxTreeDepth, maxTreeNodes, pClone, pMutate, penalty, rng, fuel);
      ranked := r;
      complete := |newPop| == populationSize;
      if complete {
        Install(h', newPop, born, evaluations);
      } else {
        assert |cur| == |multiset(cur)|;
        Install(h', cur, trees, evaluations);
      }
    }

    /** The end of newGeneration: the heap, the population and its trees replaced, the evaluations counted. */
    method Install(h': seq<Node>, next: seq<nat>, ghost trees': map<nat, Tree>, evaluations: nat)
      requires Valid() && Planted(h', next, trees', maxTreeDepth, maxTreeNodes) && |next| == populationSize
      modifies this
      ensures Ready() && heap == h' && Roots(population) == next && trees == trees'
      ensures costEvaluations == old(costEvaluations) + evaluations && rng == old(rng)
    {
      heap := h';
      costEvaluations := costEvaluations + evaluations;
      population, trees := Slots(next), trees';
    }
  }
}
