/**
 * NSGA-II environmental selection (Lab4/NSGA2.cpp): Pareto dominance, the
 * dominator-count / front-peeling non-dominated sort, truncation back to the
 * population size, the crowded three-way tournament, crossover and clamped
 * mutation, and the `requiresInit` gate of `train`.
 *
 * Pointers into the population (`dominatingList`, the fronts) are modelled as
 * indices into the population sequence. Fitness values and coordinates are
 * `real`s; floating-point rounding and NaN are not modelled.
 */
module Nsga2 {
  import opened Random
  import Sorting

  datatype Solution = Solution(
    v: seq<real>,
    fitness: seq<real>,
    rank: int,
    dominatingList: seq<nat>,
    crowdingDistance: real)

  /**
   * A MOOPProblem: its dimension, one (lower, upper) boundary per objective,
   * and the objective functions `evaluateSolution` computes.
   */
  datatype Problem = Problem(
    dimensions: nat,
    boundaries: seq<(real, real)>,
    objective: (seq<real>, nat) -> real)
  {
    /** getNumberOfObjectives() is the number of boundary pairs. */
    function NumberOfObjectives(): nat
    {
      |boundaries|
    }

    /**
     * Each boundary pair is an interval (setProblem builds a
     * uniform_real_distribution over each) and every dimension has one
     * (getBoundary(i) is read for i < dimensions).
     */
    predicate Bounded()
    {
      dimensions <= |boundaries| && forall k :: 0 <= k < |boundaries| ==> boundaries[k].0 <= boundaries[k].1
    }

    /** A point of the search space: one coordinate per dimension, inside its boundary. */
    predicate InBox(v: seq<real>)
      requires Bounded()
    {
      |v| == dimensions && forall i :: 0 <= i < dimensions ==> boundaries[i].0 <= v[i] <= boundaries[i].1
    }

    /** evaluateSolution fills the preallocated fitness vector, one entry per objective. */
    function Evaluate(v: seq<real>): (fitness: seq<real>)
      ensures |fitness| == NumberOfObjectives()
      ensures forall k :: 0 <= k < |fitness| ==> fitness[k] == objective(v, k)
    {
      seq(|boundaries|, k requires 0 <= k < |boundaries| => objective(v, k))
    }
  }

  // ---------------------------------------------------------------------------
  // Pareto dominance (minimisation)
  // ---------------------------------------------------------------------------

  /** None of the first k objectives of `a` is larger than in `b`. */
  predicate NoneWorse(a: seq<real>, b: seq<real>, k: nat)
    requires k <= |a| && k <= |b|
  {
    k == 0 || (NoneWorse(a, b, k - 1) && a[k - 1] <= b[k - 1])
  }

  /** One of the first k objectives of `a` is smaller than in `b`. */
  predicate SomeBetter(a: seq<real>, b: seq<real>, k: nat)
    requires k <= |a| && k <= |b|
  {
    k > 0 && (SomeBetter(a, b, k - 1) || a[k - 1] < b[k - 1])
  }

  /** `a` dominates `b` (minimisation): no objective is larger and at least one is smaller. */
  predicate Dominates(a: seq<real>, b: seq<real>)
  {
    |a| == |b| && NoneWorse(a, b, |a|) && SomeBetter(a, b, |a|)
  }

  /** The recursive definition of dominance says what its doc comment says. */
  lemma {:induction false} DominatesMeaning(a: seq<real>, b: seq<real>, k: nat)
    requires k <= |a| && k <= |b|
    ensures NoneWorse(a, b, k) <==> forall t :: 0 <= t < k ==> a[t] <= b[t]
    ensures SomeBetter(a, b, k) <==> exists t :: 0 <= t < k && a[t] < b[t]
  {
    if k > 0 {
      DominatesMeaning(a, b, k - 1);
    }
  }

  function Sum(s: seq<real>, k: nat): real
    requires k <= |s|
  {
    if k == 0 then 0.0 else Sum(s, k - 1) + s[k - 1]
  }

  /** Dominance strictly decreases the sum of the objectives. */
  lemma {:induction false} DominatesDecreasesSum(a: seq<real>, b: seq<real>, k: nat)
    requires k <= |a| && k <= |b| && NoneWorse(a, b, k)
    ensures Sum(a, k) <= Sum(b, k)
    ensures SomeBetter(a, b, k) ==> Sum(a, k) < Sum(b, k)
  {
    if k > 0 {
      DominatesDecreasesSum(a, b, k - 1);
    }
  }

  /** Dominance is a strict partial order. */
  lemma DominatesStrictOrder(a: seq<real>, b: seq<real>, c: seq<real>)
    ensures !Dominates(a, a)
    ensures Dominates(a, b) ==> !Dominates(b, a)
    ensures Dominates(a, b) && Dominates(b, c) ==> Dominates(a, c)
  {
    DominatesMeaning(a, a, |a|);
    if Dominates(a, b) {
      DominatesMeaning(a, b, |a|);
      DominatesMeaning(b, a, |a|);
      if |b| == |c| {
        DominatesMeaning(b, c, |a|);
        DominatesMeaning(a, c, |a|);
      }
    }
  }

  /**
   * The comparison loop of the pairwise pass: stops at the first objective
   * where `a` is worse, and remembers whether one was strictly better.
   */
  method DominatesCheck(a: seq<real>, b: seq<real>, m: nat) returns (dominates: bool)
    requires |a| == m && |b| == m
    ensures dominates <==> Dominates(a, b)
  {
    var worse, better := false, false;
    var k := 0;
    while k < m && !worse
      invariant 0 <= k <= m
      invariant NoneWorse(a, b, k)
      invariant worse ==> k < m && a[k] > b[k]
      invariant better <==> SomeBetter(a, b, k)
      decreases m - k, if worse then 0 else 1
    {
      if a[k] > b[k] {
        worse := true;
      } else {
        if a[k] < b[k] {
          better := true;
        }
        k := k + 1;
      }
    }
    if worse {
      DominatesMeaning(a, b, m);
    }
    dominates := !worse && better;
  }

  /**
   * The dominance relation of a population, by index: solution `i` dominates
   * solution `j` (the pairwise pass skips i == j).
   */
  function DominanceOf(pop: seq<Solution>): (nat, nat) -> bool
  {
    (i: nat, j: nat) => i < |pop| && j < |pop| && i != j && Dominates(pop[i].fitness, pop[j].fitness)
  }

  predicate Below(s: seq<nat>, n: nat)
  {
    forall k :: 0 <= k < |s| ==> s[k] < n
  }

  /** The indices 0, 1, ..., n - 1. */
  function Range(n: nat): (r: seq<nat>)
    ensures |r| == n
    ensures forall k :: 0 <= k < n ==> r[k] == k
  {
    if n == 0 then [] else Range(n - 1) + [n - 1]
  }

  /** The number of solutions among 0 .. k - 1 that dominate `j`. */
  function DominatorCount(dom: (nat, nat) -> bool, k: nat, j: nat): (count: nat)
    ensures count <= k
  {
    if k == 0 then 0 else DominatorCount(dom, k - 1, j) + if dom(k - 1, j) then 1 else 0
  }

  /** The number of the first k entries of `s` that dominate `j`. */
  function DominatorsAmong(dom: (nat, nat) -> bool, s: seq<nat>, k: nat, j: nat): (count: nat)
    requires k <= |s|
    ensures count <= k
  {
    if k == 0 then 0 else DominatorsAmong(dom, s, k - 1, j) + if dom(s[k - 1], j) then 1 else 0
  }

  /** A count of 0 means that none of the first k entries dominates `j`. */
  lemma {:induction false} NoDominatorAmong(dom: (nat, nat) -> bool, s: seq<nat>, k: nat, j: nat)
    requires k <= |s|
    ensures DominatorsAmong(dom, s, k, j) == 0 <==> forall t :: 0 <= t < k ==> !dom(s[t], j)
  {
    if k > 0 {
      NoDominatorAmong(dom, s, k - 1, j);
    }
  }

  /** `x` is one of the first k entries of `s`. */
  function Occurs(s: seq<nat>, k: nat, x: nat): (r: bool)
    requires k <= |s|
    ensures r <==> exists t :: 0 <= t < k && s[t] == x
  {
    k > 0 && (s[k - 1] == x || Occurs(s, k - 1, x))
  }

  /** The indices among 0 .. k - 1 that `i` dominates, in increasing order. */
  function DominatedList(dom: (nat, nat) -> bool, i: nat, k: nat): (list: seq<nat>)
    ensures forall t :: 0 <= t < |list| ==> list[t] < k
    ensures forall x: nat {:trigger x in list} :: x in list <==> x < k && dom(i, x)
    ensures forall a, b :: 0 <= a < b < |list| ==> list[a] < list[b]
  {
    if k == 0 then []
    else DominatedList(dom, i, k - 1) + (if dom(i, k - 1) then [k - 1] else [])
  }

  // ---------------------------------------------------------------------------
  // nonDominatedSort, first half: the pairwise pass (Lab4/NSGA2.cpp:24-53)
  //
  // The fields the sort rewrites in place (rank, dominatingList,
  // crowdingDistance) are held in sequences indexed like the population and
  // written back into it at the end of the sort.
  // ---------------------------------------------------------------------------

  /**
   * Resets every rank, then for each ordered pair (i, j), i != j, where i
   * dominates j appends j to i's dominatingList and increments j's rank.
   * Afterwards each dominatingList is exactly the dominated solutions and each
   * rank is the number of dominators.
   */
  method DominationPass(pop: seq<Solution>, m: nat) returns (ranks: seq<int>, lists: seq<seq<nat>>)
    requires forall x :: 0 <= x < |pop| ==> |pop[x].fitness| == m
    ensures |ranks| == |lists| == |pop|
    ensures forall x :: 0 <= x < |pop| ==>
      ranks[x] == DominatorCount(DominanceOf(pop), |pop|, x) &&
      lists[x] == DominatedList(DominanceOf(pop), x, |pop|)
  {
    var n := |pop|;
    var dom := DominanceOf(pop);
    ranks := seq(n, x requires 0 <= x < n => pop[x].rank);
    lists := seq(n, x requires 0 <= x < n => pop[x].dominatingList);
    for j := 0 to n
      invariant |ranks| == n
      invariant forall x :: 0 <= x < j ==> ranks[x] == 0
    {
      ranks := ranks[j := 0];
    }
    for i := 0 to n
      invariant |ranks| == |lists| == n
      invariant forall x :: 0 <= x < n ==> ranks[x] == DominatorCount(dom, i, x)
      invariant forall x :: 0 <= x < i ==> lists[x] == DominatedList(dom, x, n)
    {
      ranks, lists := PassRow(pop, m, i, ranks, lists);
    }
  }

  /** The `i == j` skip and the comparison loop for one ordered pair. */
  method ComparePair(pop: seq<Solution>, m: nat, i: nat, j: nat) returns (dominates: bool)
    requires forall x :: 0 <= x < |pop| ==> |pop[x].fitness| == m
    requires i < |pop| && j < |pop|
    ensures dominates == DominanceOf(pop)(i, j)
  {
    dominates := false;
    if i != j {
      dominates := DominatesCheck(pop[i].fitness, pop[j].fitness, m);
    }
  }

  /** Row i of the pairwise pass: solution i against every other solution. */
  method PassRow(pop: seq<Solution>, m: nat, i: nat, ranks: seq<int>, lists: seq<seq<nat>>)
    returns (ranks': seq<int>, lists': seq<seq<nat>>)
    requires forall x :: 0 <= x < |pop| ==> |pop[x].fitness| == m
    requires i < |pop| == |ranks| == |lists|
    requires forall x :: 0 <= x < |pop| ==> ranks[x] == DominatorCount(DominanceOf(pop), i, x)
    ensures |ranks'| == |lists'| == |pop|
    ensures forall x :: 0 <= x < |pop| ==> ranks'[x] == DominatorCount(DominanceOf(pop), i + 1, x)
    ensures lists' == lists[i := DominatedList(DominanceOf(pop), i, |pop|)]
  {
    var n := |pop|;
    var dom := DominanceOf(pop);
    ranks', lists' := ranks, lists[i := []];
    for j := 0 to n
      invariant |ranks'| == |lists'| == n
      invariant forall x :: 0 <= x < n ==>
        ranks'[x] == DominatorCount(dom, i, x) + if x < j && dom(i, x) then 1 else 0
      invariant lists'[i] == DominatedList(dom, i, j)
      invariant forall x :: 0 <= x < n && x != i ==> lists'[x] == lists[x]
    {
      var dominates := ComparePair(pop, m, i, j);
      if dominates {
        lists' := lists'[i := lists'[i] + [j]];
        ranks' := ranks'[j := ranks'[j] + 1];
      }
    }
  }

  // ---------------------------------------------------------------------------
  // nonDominatedSort, second half: peeling fronts (Lab4/NSGA2.cpp:55-87)
  // ---------------------------------------------------------------------------

  /** `d->rank--` for every d in a dominatingList (strictly increasing, so once each). */
  method DecrementRanks(ranks: seq<int>, list: seq<nat>) returns (ranks': seq<int>)
    requires Below(list, |ranks|)
    requires forall a, b :: 0 <= a < b < |list| ==> list[a] < list[b]
    ensures |ranks'| == |ranks|
    ensures forall x :: 0 <= x < |ranks| ==> ranks'[x] == ranks[x] - if x in list then 1 else 0
  {
    ranks' := ranks;
    for t := 0 to |list|
      invariant |ranks'| == |ranks|
      invariant forall x :: 0 <= x < |ranks| ==> ranks'[x] == ranks[x] - if Occurs(list, t, x) then 1 else 0
    {
      var d := list[t];
      ranks' := ranks'[d := ranks'[d] - 1];
    }
  }

  /**
   * The body of one peeling round: every member of the front gets crowding
   * distance 0 and rank `f`, and decrements the counter of every solution it
   * dominates. Members of a front never dominate each other.
   */
  method PlaceFront(ranks: seq<int>, distances: seq<real>, lists: seq<seq<nat>>, front: seq<nat>,
                    f: nat, dom: (nat, nat) -> bool)
    returns (ranks': seq<int>, distances': seq<real>)
    requires |ranks| == |distances| == |lists| && Below(front, |ranks|)
    requires forall x :: 0 <= x < |lists| ==> lists[x] == DominatedList(dom, x, |ranks|)
    requires forall a, b :: 0 <= a < |front| && 0 <= b < |front| ==> !dom(front[a], front[b])
    ensures |ranks'| == |distances'| == |ranks|
    ensures forall x :: 0 <= x < |ranks| ==>
      && distances'[x] == (if x in front then 0.0 else distances[x])
      && ranks'[x] == if x in front then f else ranks[x] - DominatorsAmong(dom, front, |front|, x)
  {
    ranks', distances' := ranks, distances;
    for k := 0 to |front|
      invariant |ranks'| == |distances'| == |ranks|
      invariant forall x :: 0 <= x < |ranks| ==>
        && distances'[x] == (if Occurs(front, k, x) then 0.0 else distances[x])
        && ranks'[x] == if Occurs(front, k, x) then f else ranks[x] - DominatorsAmong(dom, front, k, x)
    {
      var s := front[k];
      distances' := distances'[s := 0.0];
      ranks' := ranks'[s := f];
      ghost var before := ranks';
      ranks' := DecrementRanks(ranks', lists[s]);
      PlaceStep(ranks, before, ranks', lists[s], front, k, f, dom);
    }
  }

  /** One member of the front placed: the rank part of PlaceFront's loop invariant carries over. */
  lemma PlaceStep(ranks: seq<int>, before: seq<int>, after: seq<int>, list: seq<nat>,
                  front: seq<nat>, k: nat, f: nat, dom: (nat, nat) -> bool)
    requires |ranks| == |before| == |after| && k < |front| && front[k] < |ranks|
    requires list == DominatedList(dom, front[k], |ranks|)
    requires forall a, b :: 0 <= a < |front| && 0 <= b < |front| ==> !dom(front[a], front[b])
    requires before[front[k]] == f
    requires forall x :: 0 <= x < |ranks| && x != front[k] ==>
      before[x] == if Occurs(front, k, x) then f else ranks[x] - DominatorsAmong(dom, front, k, x)
    requires forall x :: 0 <= x < |ranks| ==> after[x] == before[x] - if x in list then 1 else 0
    ensures forall x :: 0 <= x < |ranks| ==>
      after[x] == if Occurs(front, k + 1, x) then f else ranks[x] - DominatorsAmong(dom, front, k + 1, x)
  {
    forall x | 0 <= x < |ranks|
      ensures after[x] == if Occurs(front, k + 1, x) then f else ranks[x] - DominatorsAmong(dom, front, k + 1, x)
    {
      if Occurs(front, k, x) {
        var t :| 0 <= t < k && front[t] == x;
        assert !dom(front[k], front[t]);
      }
      assert !dom(front[k], front[k]);
    }
  }

  // ---------------------------------------------------------------------------
  // The partition of the remaining solutions and the counts it splits
  // ---------------------------------------------------------------------------

  /** The first k entries of `s` whose counter has reached 0, in order. */
  function RankZero(ranks: seq<int>, s: seq<nat>, k: nat): (r: seq<nat>)
    requires k <= |s| && Below(s, |ranks|)
    ensures Below(r, |ranks|)
  {
    if k == 0 then []
    else RankZero(ranks, s, k - 1) + if ranks[s[k - 1]] == 0 then [s[k - 1]] else []
  }

  /** The first k entries of `s` whose counter has not reached 0, in order. */
  function RankNonZero(ranks: seq<int>, s: seq<nat>, k: nat): (r: seq<nat>)
    requires k <= |s| && Below(s, |ranks|)
    ensures Below(r, |ranks|)
  {
    if k == 0 then []
    else RankNonZero(ranks, s, k - 1) + if ranks[s[k - 1]] != 0 then [s[k - 1]] else []
  }

  /** The front is the remaining solutions whose counter is 0, the rest those whose counter is not. */
  lemma PartitionMembers(ranks: seq<int>, s: seq<nat>, k: nat, x: nat)
    requires k <= |s| && Below(s, |ranks|)
    ensures x in RankZero(ranks, s, k) <==> Occurs(s, k, x) && x < |ranks| && ranks[x] == 0
    ensures x in RankNonZero(ranks, s, k) <==> Occurs(s, k, x) && x < |ranks| && ranks[x] != 0
  {
    ZeroMembers(ranks, s, k, x);
    NonZeroMembers(ranks, s, k, x);
  }

  lemma {:induction false} ZeroMembers(ranks: seq<int>, s: seq<nat>, k: nat, x: nat)
    requires k <= |s| && Below(s, |ranks|)
    ensures x in RankZero(ranks, s, k) <==> Occurs(s, k, x) && x < |ranks| && ranks[x] == 0
  {
    if k > 0 {
      ZeroMembers(ranks, s, k - 1, x);
      PartitionMembersStep(ranks, s, k, x);
    }
  }

  lemma {:induction false} NonZeroMembers(ranks: seq<int>, s: seq<nat>, k: nat, x: nat)
    requires k <= |s| && Below(s, |ranks|)
    ensures x in RankNonZero(ranks, s, k) <==> Occurs(s, k, x) && x < |ranks| && ranks[x] != 0
  {
    if k > 0 {
      NonZeroMembers(ranks, s, k - 1, x);
      PartitionMembersStep(ranks, s, k, x);
    }
  }

  /** Membership in either part after k entries, from membership after k - 1. */
  lemma PartitionMembersStep(ranks: seq<int>, s: seq<nat>, k: nat, x: nat)
    requires 0 < k <= |s| && Below(s, |ranks|)
    ensures x in RankZero(ranks, s, k) <==> x in RankZero(ranks, s, k - 1) || (s[k - 1] == x && ranks[x] == 0)
    ensures x in RankNonZero(ranks, s, k) <==> x in RankNonZero(ranks, s, k - 1) || (s[k - 1] == x && ranks[x] != 0)
    ensures Occurs(s, k, x) == (s[k - 1] == x || Occurs(s, k - 1, x))
    ensures s[k - 1] < |ranks|
  {
  }

  lemma {:induction false} AmongPrefix(dom: (nat, nat) -> bool, s: seq<nat>, t: seq<nat>, k: nat, j: nat)
    requires k <= |s|
    ensures DominatorsAmong(dom, s + t, k, j) == DominatorsAmong(dom, s, k, j)
  {
    if k > 0 {
      AmongPrefix(dom, s, t, k - 1, j);
    }
  }

  lemma AmongSnoc(dom: (nat, nat) -> bool, s: seq<nat>, y: seq<nat>, j: nat)
    requires |y| <= 1
    ensures DominatorsAmong(dom, s + y, |s + y|, j)
         == DominatorsAmong(dom, s, |s|, j) + if |y| == 1 && dom(y[0], j) then 1 else 0
  {
    AmongPrefix(dom, s, y, |s|, j);
  }

  /** Splitting the remaining solutions by their counters splits every dominator count. */
  lemma {:induction false} PartitionSplits(dom: (nat, nat) -> bool, ranks: seq<int>, s: seq<nat>, k: nat, j: nat)
    requires k <= |s| && Below(s, |ranks|)
    ensures DominatorsAmong(dom, s, k, j)
         == DominatorsAmong(dom, RankZero(ranks, s, k), |RankZero(ranks, s, k)|, j)
          + DominatorsAmong(dom, RankNonZero(ranks, s, k), |RankNonZero(ranks, s, k)|, j)
  {
    if k > 0 {
      PartitionSplits(dom, ranks, s, k - 1, j);
      var y := s[k - 1];
      var z, nz := RankZero(ranks, s, k - 1), RankNonZero(ranks, s, k - 1);
      if ranks[y] == 0 {
        assert RankZero(ranks, s, k) == z + [y];
        assert RankNonZero(ranks, s, k) == nz + [];
        AmongSnoc(dom, z, [y], j);
        AmongSnoc(dom, nz, [], j);
      } else {
        assert RankZero(ranks, s, k) == z + [];
        assert RankNonZero(ranks, s, k) == nz + [y];
        AmongSnoc(dom, z, [], j);
        AmongSnoc(dom, nz, [y], j);
      }
    }
  }

  /** The two parts of the partition together are the remaining solutions. */
  lemma {:induction false} PartitionCovers(ranks: seq<int>, s: seq<nat>, k: nat)
    requires k <= |s| && Below(s, |ranks|)
    ensures multiset(s[..k]) == multiset(RankZero(ranks, s, k)) + multiset(RankNonZero(ranks, s, k))
  {
    if k > 0 {
      PartitionCovers(ranks, s, k - 1);
      var y := s[k - 1];
      assert multiset(s[..k]) == multiset(s[..k - 1]) + multiset{y} by {
        assert s[..k] == s[..k - 1] + [y];
      }
      PartitionCoversStep(ranks, s, k);
    }
  }

  /** The entry s[k - 1] lands in exactly one of the two parts. */
  lemma PartitionCoversStep(ranks: seq<int>, s: seq<nat>, k: nat)
    requires 0 < k <= |s| && Below(s, |ranks|)
    ensures multiset(RankZero(ranks, s, k)) + multiset(RankNonZero(ranks, s, k))
         == multiset(RankZero(ranks, s, k - 1)) + multiset(RankNonZero(ranks, s, k - 1)) + multiset{s[k - 1]}
  {
  }

  // ---------------------------------------------------------------------------
  // The state of the peeling loop
  // ---------------------------------------------------------------------------

  /** Every dominance step goes between solutions and strictly down a potential. */
  ghost predicate Graded(dom: (nat, nat) -> bool, pot: nat -> real, n: nat)
  {
    forall i: nat, j: nat :: dom(i, j) ==> i < n && j < n && pot(i) < pot(j)
  }

  /** The multiset of the solutions placed in the first g fronts. */
  function Placed(fronts: seq<seq<nat>>, g: nat): (placed: multiset<nat>)
    requires g <= |fronts|
  {
    if g == 0 then multiset{} else Placed(fronts, g - 1) + multiset(fronts[g - 1])
  }

  lemma {:induction false} PlacedPrefix(fronts: seq<seq<nat>>, extra: seq<seq<nat>>, g: nat)
    requires g <= |fronts|
    ensures Placed(fronts + extra, g) == Placed(fronts, g)
  {
    if g > 0 {
      PlacedPrefix(fronts, extra, g - 1);
    }
  }

  /**
   * The fronts found so far. `level[x]` is the front holding x, or -1 while x
   * is unplaced; each front is non-empty.
   */
  ghost predicate Levelled(n: nat, fronts: seq<seq<nat>>, level: seq<int>)
  {
    && |level| == n
    && (forall x :: 0 <= x < n ==> -1 <= level[x] < |fronts|)
    && (forall g, x {:trigger x in fronts[g]} :: 0 <= g < |fronts| && 0 <= x < n ==> (x in fronts[g] <==> level[x] == g))
    && (forall g :: 0 <= g < |fronts| ==> |fronts[g]| > 0 && Below(fronts[g], n))
  }

  /** A placed solution's dominators all sit in earlier fronts. */
  ghost predicate EarlierDominators(dom: (nat, nat) -> bool, n: nat, level: seq<int>)
    requires |level| == n
  {
    forall i, x :: 0 <= i < n && 0 <= x < n && dom(i, x) && level[x] >= 0 ==> 0 <= level[i] < level[x]
  }

  /** A solution in front g > 0 has a dominator in front g - 1. */
  ghost predicate LevelParents(dom: (nat, nat) -> bool, n: nat, level: seq<int>)
    requires |level| == n
  {
    forall x :: 0 <= x < n && level[x] > 0 ==> exists i :: 0 <= i < n && dom(i, x) && level[i] == level[x] - 1
  }

  /** Once a front exists, an unplaced solution has a dominator that is unplaced or in the last front. */
  ghost predicate PendingParents(dom: (nat, nat) -> bool, n: nat, f: nat, level: seq<int>)
    requires |level| == n
  {
    forall x :: 0 <= x < n && level[x] == -1 && f > 0 ==>
      exists i :: 0 <= i < n && dom(i, x) && (level[i] == -1 || level[i] == f - 1)
  }

  ghost predicate Layered(dom: (nat, nat) -> bool, n: nat, fronts: seq<seq<nat>>, level: seq<int>)
  {
    && Levelled(n, fronts, level)
    && EarlierDominators(dom, n, level)
    && LevelParents(dom, n, level)
    && PendingParents(dom, n, |fronts|, level)
  }

  /**
   * The counters: an unplaced solution's rank counts its unplaced dominators
   * (the populationPointers still to be partitioned); a placed one holds its
   * front index and crowding distance 0.
   */
  ghost predicate Counters(dom: (nat, nat) -> bool, n: nat, ranks: seq<int>, distances: seq<real>,
                           distances0: seq<real>, pointers: seq<nat>, level: seq<int>)
  {
    && |ranks| == |distances| == |distances0| == |level| == n && Below(pointers, n)
    && (forall x :: 0 <= x < n ==> (x in pointers <==> level[x] == -1))
    && (forall x :: 0 <= x < n && level[x] == -1 ==>
          ranks[x] == DominatorsAmong(dom, pointers, |pointers|, x) && distances[x] == distances0[x])
    && (forall x :: 0 <= x < n && level[x] >= 0 ==> ranks[x] == level[x] && distances[x] == 0.0)
  }

  /** One peeling round, as PlaceFront performs it on the partition of the remaining solutions. */
  ghost predicate Round(dom: (nat, nat) -> bool, n: nat, ranks: seq<int>, distances: seq<real>,
                        pointers: seq<nat>, f: nat, level: seq<int>, front: seq<nat>, rest: seq<nat>,
                        ranks': seq<int>, distances': seq<real>, level': seq<int>)
    requires |ranks| == n && Below(pointers, n)
  {
    && front == RankZero(ranks, pointers, |pointers|)
    && rest == RankNonZero(ranks, pointers, |pointers|)
    && |ranks'| == |distances'| == |distances| == |level| == |level'| == n
    && (forall x :: 0 <= x < n ==>
          && distances'[x] == (if x in front then 0.0 else distances[x])
          && ranks'[x] == (if x in front then f else ranks[x] - DominatorsAmong(dom, front, |front|, x))
          && level'[x] == if x in front then f else level[x])
  }

  lemma {:induction false} MinimalEntry(pot: nat -> real, s: seq<nat>, k: nat) returns (t: nat)
    requires 0 < k <= |s|
    ensures t < k && forall u :: 0 <= u < k ==> pot(s[t]) <= pot(s[u])
  {
    if k == 1 {
      t := 0;
    } else {
      t := MinimalEntry(pot, s, k - 1);
      if pot(s[k - 1]) < pot(s[t]) {
        t := k - 1;
      }
    }
  }

  /** A remaining solution is in the front exactly when no remaining solution dominates it. */
  lemma FrontMember(dom: (nat, nat) -> bool, n: nat, ranks: seq<int>, distances: seq<real>,
                    distances0: seq<real>, pointers: seq<nat>, level: seq<int>, x: nat)
    requires Counters(dom, n, ranks, distances, distances0, pointers, level) && x < n
    ensures x in RankZero(ranks, pointers, |pointers|)
        <==> level[x] == -1 && forall t :: 0 <= t < |pointers| ==> !dom(pointers[t], x)
    ensures x in RankNonZero(ranks, pointers, |pointers|)
        <==> level[x] == -1 && exists t :: 0 <= t < |pointers| && dom(pointers[t], x)
  {
    PartitionMembers(ranks, pointers, |pointers|, x);
    NoDominatorAmong(dom, pointers, |pointers|, x);
  }

  /**
   * While solutions remain, the front is non-empty (one of least potential is
   * not dominated), and its members do not dominate each other.
   */
  lemma FrontExists(dom: (nat, nat) -> bool, pot: nat -> real, n: nat, ranks: seq<int>, distances: seq<real>,
                    distances0: seq<real>, pointers: seq<nat>, level: seq<int>)
    requires Graded(dom, pot, n) && |pointers| > 0
    requires Counters(dom, n, ranks, distances, distances0, pointers, level)
    ensures |RankZero(ranks, pointers, |pointers|)| > 0
    ensures forall a, b :: 0 <= a < |RankZero(ranks, pointers, |pointers|)| && 0 <= b < |RankZero(ranks, pointers, |pointers|)|
              ==> !dom(RankZero(ranks, pointers, |pointers|)[a], RankZero(ranks, pointers, |pointers|)[b])
  {
    var front := RankZero(ranks, pointers, |pointers|);
    var t := MinimalEntry(pot, pointers, |pointers|);
    var x := pointers[t];
    FrontMember(dom, n, ranks, distances, distances0, pointers, level, x);
    assert x in front;
    forall a, b | 0 <= a < |front| && 0 <= b < |front|
      ensures !dom(front[a], front[b])
    {
      FrontMember(dom, n, ranks, distances, distances0, pointers, level, front[a]);
      FrontMember(dom, n, ranks, distances, distances0, pointers, level, front[b]);
      var u :| 0 <= u < |pointers| && pointers[u] == front[a];
    }
  }

  /** A round keeps the counters: what remains is `rest`, the front holds level f. */
  lemma PeelCounters(dom: (nat, nat) -> bool, n: nat, ranks: seq<int>, distances: seq<real>,
                     distances0: seq<real>, pointers: seq<nat>, fronts: seq<seq<nat>>, level: seq<int>,
                     front: seq<nat>, rest: seq<nat>, ranks': seq<int>, distances': seq<real>, level': seq<int>)
    requires Layered(dom, n, fronts, level)
    requires Counters(dom, n, ranks, distances, distances0, pointers, level)
    requires Round(dom, n, ranks, distances, pointers, |fronts|, level, front, rest, ranks', distances', level')
    ensures Counters(dom, n, ranks', distances', distances0, rest, level')
  {
    forall x | 0 <= x < n
      ensures x in rest <==> level'[x] == -1
      ensures level'[x] == -1 ==> ranks'[x] == DominatorsAmong(dom, rest, |rest|, x) && distances'[x] == distances0[x]
      ensures level'[x] >= 0 ==> ranks'[x] == level'[x] && distances'[x] == 0.0
    {
      FrontMember(dom, n, ranks, distances, distances0, pointers, level, x);
      PartitionSplits(dom, ranks, pointers, |pointers|, x);
      if level[x] >= 0 {
        forall t | 0 <= t < |front|
          ensures !dom(front[t], x)
        {
          FrontMember(dom, n, ranks, distances, distances0, pointers, level, front[t]);
        }
        NoDominatorAmong(dom, front, |front|, x);
      }
    }
  }

  /** A round extends the levels by the new front, which is not empty. */
  lemma PeelLevelled(dom: (nat, nat) -> bool, pot: nat -> real, n: nat, ranks: seq<int>, distances: seq<real>,
                    distances0: seq<real>, pointers: seq<nat>, fronts: seq<seq<nat>>, level: seq<int>,
                    front: seq<nat>, rest: seq<nat>, ranks': seq<int>, distances': seq<real>, level': seq<int>)
    requires Graded(dom, pot, n) && |pointers| > 0
    requires Layered(dom, n, fronts, level)
    requires Counters(dom, n, ranks, distances, distances0, pointers, level)
    requires Round(dom, n, ranks, distances, pointers, |fronts|, level, front, rest, ranks', distances', level')
    ensures Levelled(n, fronts + [front], level')
  {
    var fronts' := fronts + [front];
    FrontExists(dom, pot, n, ranks, distances, distances0, pointers, level);
    forall g, x | 0 <= g < |fronts'| && 0 <= x < n
      ensures x in fronts'[g] <==> level'[x] == g
    {
      FrontMember(dom, n, ranks, distances, distances0, pointers, level, x);
    }
  }

  /** A round keeps every placed solution's dominators in earlier fronts. */
  lemma PeelEarlier(dom: (nat, nat) -> bool, n: nat, ranks: seq<int>, distances: seq<real>,
                    distances0: seq<real>, pointers: seq<nat>, fronts: seq<seq<nat>>, level: seq<int>,
                    front: seq<nat>, rest: seq<nat>, ranks': seq<int>, distances': seq<real>, level': seq<int>)
    requires Layered(dom, n, fronts, level)
    requires Counters(dom, n, ranks, distances, distances0, pointers, level)
    requires Round(dom, n, ranks, distances, pointers, |fronts|, level, front, rest, ranks', distances', level')
    ensures EarlierDominators(dom, n, level')
  {
    forall i, x | 0 <= i < n && 0 <= x < n && dom(i, x) && level'[x] >= 0
      ensures 0 <= level'[i] < level'[x]
    {
      FrontMember(dom, n, ranks, distances, distances0, pointers, level, x);
      FrontMember(dom, n, ranks, distances, distances0, pointers, level, i);
    }
  }

  /** A round gives each member of the new front a dominator in the front before. */
  lemma PeelParents(dom: (nat, nat) -> bool, n: nat, ranks: seq<int>, distances: seq<real>,
                    distances0: seq<real>, pointers: seq<nat>, fronts: seq<seq<nat>>, level: seq<int>,
                    front: seq<nat>, rest: seq<nat>, ranks': seq<int>, distances': seq<real>, level': seq<int>)
    requires Layered(dom, n, fronts, level)
    requires Counters(dom, n, ranks, distances, distances0, pointers, level)
    requires Round(dom, n, ranks, distances, pointers, |fronts|, level, front, rest, ranks', distances', level')
    ensures LevelParents(dom, n, level')
  {
    var f := |fronts|;
    forall x | 0 <= x < n && level'[x] > 0
      ensures exists i :: 0 <= i < n && dom(i, x) && level'[i] == level'[x] - 1
    {
      FrontMember(dom, n, ranks, distances, distances0, pointers, level, x);
      if x in front {
        var i :| 0 <= i < n && dom(i, x) && (level[i] == -1 || level[i] == f - 1);
        FrontMember(dom, n, ranks, distances, distances0, pointers, level, i);
        assert level'[i] == level'[x] - 1;
      } else {
        var i :| 0 <= i < n && dom(i, x) && level[i] == level[x] - 1;
        FrontMember(dom, n, ranks, distances, distances0, pointers, level, i);
        assert level'[i] == level'[x] - 1;
      }
    }
  }

  /** After a round, a solution still unplaced has a dominator unplaced or in the new front. */
  lemma PeelPending(dom: (nat, nat) -> bool, n: nat, ranks: seq<int>, distances: seq<real>,
                    distances0: seq<real>, pointers: seq<nat>, fronts: seq<seq<nat>>, level: seq<int>,
                    front: seq<nat>, rest: seq<nat>, ranks': seq<int>, distances': seq<real>, level': seq<int>)
    requires Layered(dom, n, fronts, level)
    requires Counters(dom, n, ranks, distances, distances0, pointers, level)
    requires Round(dom, n, ranks, distances, pointers, |fronts|, level, front, rest, ranks', distances', level')
    ensures PendingParents(dom, n, |fronts| + 1, level')
  {
    forall x | 0 <= x < n && level'[x] == -1
      ensures exists i :: 0 <= i < n && dom(i, x) && (level'[i] == -1 || level'[i] == |fronts|)
    {
      FrontMember(dom, n, ranks, distances, distances0, pointers, level, x);
      var t :| 0 <= t < |pointers| && dom(pointers[t], x);
      var i := pointers[t];
      FrontMember(dom, n, ranks, distances, distances0, pointers, level, i);
      assert level'[i] == -1 || level'[i] == |fronts|;
    }
  }

  /** A round moves the front from the remaining solutions to the placed ones. */
  lemma PeelCover(ranks: seq<int>, pointers: seq<nat>, fronts: seq<seq<nat>>, front: seq<nat>, rest: seq<nat>, n: nat)
    requires Below(pointers, |ranks|)
    requires front == RankZero(ranks, pointers, |pointers|) && rest == RankNonZero(ranks, pointers, |pointers|)
    requires multiset(pointers) + Placed(fronts, |fronts|) == multiset(Range(n))
    ensures multiset(rest) + Placed(fronts + [front], |fronts| + 1) == multiset(Range(n))
    ensures |Placed(fronts + [front], |fronts| + 1)| == |Placed(fronts, |fronts|)| + |front|
    ensures |pointers| == |front| + |rest|
  {
    var placed := Placed(fronts, |fronts|);
    PartitionCovers(ranks, pointers, |pointers|);
    assert pointers[..|pointers|] == pointers;
    assert multiset(pointers) == multiset(front) + multiset(rest);
    PlacedPrefix(fronts, [front], |fronts|);
    assert (fronts + [front])[|fronts|] == front;
    assert Placed(fronts + [front], |fronts| + 1) == placed + multiset(front);
    assert |multiset(pointers)| == |multiset(front)| + |multiset(rest)|;
    MoveBetween(multiset(pointers), multiset(front), multiset(rest), placed, multiset(Range(n)));
  }

  /** Moving `front` out of `pointers` and into `placed` keeps their union. */
  lemma MoveBetween(pointers: multiset<nat>, front: multiset<nat>, rest: multiset<nat>,
                    placed: multiset<nat>, all: multiset<nat>)
    requires pointers == front + rest && pointers + placed == all
    ensures rest + (placed + front) == all
  {
    assert forall x :: (rest + (placed + front))[x] == (pointers + placed)[x];
  }

  /**
   * The state of the front loop after |fronts| rounds: the layering, the
   * counters, `pointers` and the fronts together hold every solution once,
   * and every front but the last was needed to reach `populationSize`.
   */
  ghost predicate Peeled(dom: (nat, nat) -> bool, n: nat, populationSize: nat, ranks: seq<int>,
                         distances: seq<real>, distances0: seq<real>, pointers: seq<nat>,
                         fronts: seq<seq<nat>>, level: seq<int>)
  {
    && Layered(dom, n, fronts, level)
    && Counters(dom, n, ranks, distances, distances0, pointers, level)
    && multiset(pointers) + Placed(fronts, |fronts|) == multiset(Range(n))
    && (|fronts| > 0 ==> |Placed(fronts, |fronts| - 1)| < populationSize)
  }

  /** One round of the front loop keeps all of its invariants. */
  lemma PeelStep(dom: (nat, nat) -> bool, pot: nat -> real, n: nat, populationSize: nat, ranks: seq<int>,
                 distances: seq<real>, distances0: seq<real>, pointers: seq<nat>, fronts: seq<seq<nat>>,
                 level: seq<int>, front: seq<nat>, rest: seq<nat>, ranks': seq<int>, distances': seq<real>,
                 level': seq<int>)
    requires Graded(dom, pot, n) && |pointers| > 0
    requires Peeled(dom, n, populationSize, ranks, distances, distances0, pointers, fronts, level)
    requires |Placed(fronts, |fronts|)| < populationSize
    requires Round(dom, n, ranks, distances, pointers, |fronts|, level, front, rest, ranks', distances', level')
    ensures Peeled(dom, n, populationSize, ranks', distances', distances0, rest, fronts + [front], level')
    ensures |Placed(fronts + [front], |fronts| + 1)| == |Placed(fronts, |fronts|)| + |front|
    ensures |rest| < |pointers|
  {
    FrontExists(dom, pot, n, ranks, distances, distances0, pointers, level);
    PeelCounters(dom, n, ranks, distances, distances0, pointers, fronts, level, front, rest, ranks', distances', level');
    PeelLevelled(dom, pot, n, ranks, distances, distances0, pointers, fronts, level, front, rest, ranks', distances', level');
    PeelEarlier(dom, n, ranks, distances, distances0, pointers, fronts, level, front, rest, ranks', distances', level');
    PeelParents(dom, n, ranks, distances, distances0, pointers, fronts, level, front, rest, ranks', distances', level');
    PeelPending(dom, n, ranks, distances, distances0, pointers, fronts, level, front, rest, ranks', distances', level');
    PeelCover(ranks, pointers, fronts, front, rest, n);
    PlacedPrefix(fronts, [front], |fronts|);
  }

  /**
   * One round of the front loop (Lab4/NSGA2.cpp:64-86): partition the
   * remaining solutions on their counters and place those at 0 as front
   * number |fronts|.
   */
  method PeelRound(ranks: seq<int>, distances: seq<real>, lists: seq<seq<nat>>, pointers: seq<nat>,
                   dom: (nat, nat) -> bool, f: nat, populationSize: nat, ghost pot: nat -> real,
                   ghost distances0: seq<real>, ghost fronts: seq<seq<nat>>, ghost level: seq<int>)
    returns (ranks': seq<int>, distances': seq<real>, front: seq<nat>, remaining: seq<nat>, ghost level': seq<int>)
    requires |lists| == |ranks| && forall x :: 0 <= x < |lists| ==> lists[x] == DominatedList(dom, x, |ranks|)
    requires Graded(dom, pot, |ranks|) && f == |fronts| && populationSize <= |ranks|
    requires Peeled(dom, |ranks|, populationSize, ranks, distances, distances0, pointers, fronts, level)
    requires |Placed(fronts, |fronts|)| < populationSize
    ensures Peeled(dom, |ranks|, populationSize, ranks', distances', distances0, remaining, fronts + [front], level')
    ensures |Placed(fronts + [front], |fronts| + 1)| == |Placed(fronts, |fronts|)| + |front|
    ensures |remaining| < |pointers|
  {
    var n := |ranks|;
    assert |multiset(Range(n))| == n;
    front := RankZero(ranks, pointers, |pointers|);
    remaining := RankNonZero(ranks, pointers, |pointers|);
    FrontExists(dom, pot, n, ranks, distances, distances0, pointers, level);
    ranks', distances' := PlaceFront(ranks, distances, lists, front, f, dom);
    level' := seq(n, x requires 0 <= x < n => if x in front then |fronts| else level[x]);
    PeelStep(dom, pot, n, populationSize, ranks, distances, distances0, pointers, fronts, level, front, remaining, ranks', distances', level');
  }

  /** Over all solutions, the dominators among the remaining ones are all dominators. */
  lemma {:induction false} AmongRange(dom: (nat, nat) -> bool, n: nat, k: nat, j: nat)
    requires k <= n
    ensures DominatorsAmong(dom, Range(n), k, j) == DominatorCount(dom, k, j)
  {
    if k > 0 {
      AmongRange(dom, n, k - 1, j);
    }
  }

  /** Before the first round nothing is placed and every counter counts all dominators. */
  lemma PeelStart(dom: (nat, nat) -> bool, n: nat, populationSize: nat, ranks: seq<int>, distances: seq<real>)
    requires |ranks| == |distances| == n
    requires forall x :: 0 <= x < n ==> ranks[x] == DominatorCount(dom, n, x)
    ensures Peeled(dom, n, populationSize, ranks, distances, distances, Range(n), [], seq(n, x => -1))
  {
    var pointers := Range(n);
    forall x | 0 <= x < n
      ensures x in pointers && ranks[x] == DominatorsAmong(dom, pointers, |pointers|, x)
    {
      assert pointers[x] == x;
      AmongRange(dom, n, n, x);
    }
  }

  /**
   * The front loop of nonDominatedSort (Lab4/NSGA2.cpp:55-87): while fewer
   * than `populationSize` solutions are placed, the remaining solutions whose
   * counter is 0 form the next front; each gets its front index as rank and
   * crowding distance 0, and the counters of the solutions it dominates drop.
   * `pot` is a potential that dominance strictly decreases; it only proves
   * that every round finds a non-empty front. `rest` are the solutions left
   * unplaced.
   */
  method PeelFronts(ranks0: seq<int>, distances0: seq<real>, lists: seq<seq<nat>>, dom: (nat, nat) -> bool,
                    ghost pot: nat -> real, populationSize: nat)
    returns (ranks: seq<int>, distances: seq<real>, fronts: seq<seq<nat>>, ghost level: seq<int>, ghost rest: seq<nat>)
    requires |ranks0| == |distances0| == |lists| && populationSize <= |ranks0|
    requires Graded(dom, pot, |ranks0|)
    requires forall x :: 0 <= x < |lists| ==> lists[x] == DominatedList(dom, x, |ranks0|)
    requires forall x :: 0 <= x < |ranks0| ==> ranks0[x] == DominatorCount(dom, |ranks0|, x)
    ensures Peeled(dom, |ranks0|, populationSize, ranks, distances, distances0, rest, fronts, level)
    ensures populationSize <= |Placed(fronts, |fronts|)|
  {
    var n := |ranks0|;
    ranks, distances, fronts := ranks0, distances0, [];
    var pointers := Range(n);
    level := seq(n, x => -1);
    var added := 0;
    PeelStart(dom, n, populationSize, ranks, distances);
    while added < populationSize
      invariant Peeled(dom, n, populationSize, ranks, distances, distances0, pointers, fronts, level)
      invariant added == |Placed(fronts, |fronts|)|
      decreases |pointers|
    {
      var ranks', distances', front, remaining, level' :=
        PeelRound(ranks, distances, lists, pointers, dom, |fronts|, populationSize, pot, distances0, fronts, level);
      ranks, distances, level := ranks', distances', level';
      fronts := fronts + [front];
      pointers := remaining;
      added := added + |front|;
    }
    rest := pointers;
  }

  /**
   * Front g is the peel of what the earlier fronts leave: exactly the
   * solutions outside fronts 0..g-1 all of whose dominators are inside them.
   */
  lemma FrontIsPeel(dom: (nat, nat) -> bool, n: nat, fronts: seq<seq<nat>>, level: seq<int>, g: nat, x: nat)
    requires Layered(dom, n, fronts, level) && g < |fronts| && x < n
    ensures x in fronts[g] <==>
      && (forall h :: 0 <= h < g ==> x !in fronts[h])
      && (forall i :: 0 <= i < n && dom(i, x) ==> exists h :: 0 <= h < g && i in fronts[h])
  {
    if level[x] >= 0 {
      assert x in fronts[level[x]];
    }
    if (forall h :: 0 <= h < g ==> x !in fronts[h])
       && (forall i :: 0 <= i < n && dom(i, x) ==> exists h :: 0 <= h < g && i in fronts[h])
    {
      if level[x] == -1 {
        assert false;
      } else if level[x] > g {
        assert false;
      } else if level[x] < g {
        assert false;
      }
    }
    if x in fronts[g] {
      forall i | 0 <= i < n && dom(i, x)
        ensures exists h :: 0 <= h < g && i in fronts[h]
      {
        assert i in fronts[level[i]];
      }
    }
  }

  /** The first front is the non-dominated set of the whole population. */
  lemma FirstFrontNonDominated(dom: (nat, nat) -> bool, n: nat, fronts: seq<seq<nat>>, level: seq<int>, x: nat)
    requires Layered(dom, n, fronts, level) && |fronts| > 0 && x < n
    ensures x in fronts[0] <==> forall i :: 0 <= i < n ==> !dom(i, x)
  {
    FrontIsPeel(dom, n, fronts, level, 0, x);
  }

  // ---------------------------------------------------------------------------
  // The non-dominated sort on a population
  // ---------------------------------------------------------------------------

  /** The sum of a solution's objectives: a potential that dominance strictly decreases. */
  function Potential(pop: seq<Solution>, m: nat): nat -> real
  {
    (i: nat) => if i < |pop| && m <= |pop[i].fitness| then Sum(pop[i].fitness, m) else 0.0
  }

  lemma DominanceGraded(pop: seq<Solution>, m: nat)
    requires forall x :: 0 <= x < |pop| ==> |pop[x].fitness| == m
    ensures Graded(DominanceOf(pop), Potential(pop, m), |pop|)
  {
    forall i: nat, j: nat | DominanceOf(pop)(i, j)
      ensures i < |pop| && j < |pop| && Potential(pop, m)(i) < Potential(pop, m)(j)
    {
      DominatesDecreasesSum(pop[i].fitness, pop[j].fitness, m);
    }
  }

  /** Dominance by index depends on the fitness vectors only. */
  lemma SameDominance(pop: seq<Solution>, pop': seq<Solution>, n: nat, fronts: seq<seq<nat>>, level: seq<int>)
    requires |pop| == |pop'| && forall x :: 0 <= x < |pop| ==> pop'[x].fitness == pop[x].fitness
    requires Layered(DominanceOf(pop), n, fronts, level)
    ensures Layered(DominanceOf(pop'), n, fronts, level)
    ensures forall i: nat, j: nat :: DominanceOf(pop')(i, j) == DominanceOf(pop)(i, j)
  {
    assert forall i: nat, j: nat :: DominanceOf(pop')(i, j) == DominanceOf(pop)(i, j);
  }

  // ---------------------------------------------------------------------------
  // reducePopulation
  // ---------------------------------------------------------------------------

  /** The first g fronts, one after the other. */
  function Concat(fronts: seq<seq<nat>>, g: nat): (all: seq<nat>)
    requires g <= |fronts|
  {
    if g == 0 then [] else Concat(fronts, g - 1) + fronts[g - 1]
  }

  /** The concatenated fronts hold as many entries as the fronts place. */
  lemma {:induction false} ConcatSize(fronts: seq<seq<nat>>, g: nat)
    requires g <= |fronts|
    ensures |Concat(fronts, g)| == |Placed(fronts, g)|
  {
    if g > 0 {
      ConcatSize(fronts, g - 1);
    }
  }

  /** Copies of the solutions at the given indices. */
  function Gather(pop: seq<Solution>, idx: seq<nat>): (copies: seq<Solution>)
    requires Below(idx, |pop|)
  {
    seq(|idx|, k requires 0 <= k < |idx| => pop[idx[k]])
  }

  lemma GatherAppend(pop: seq<Solution>, a: seq<nat>, b: seq<nat>)
    requires Below(a, |pop|) && Below(b, |pop|)
    ensures Below(a + b, |pop|) && Gather(pop, a + b) == Gather(pop, a) + Gather(pop, b)
  {
  }

  /** The sort key of objective i: ascending fitness[i]. */
  function ObjectiveKey(pop: seq<Solution>, i: nat): nat -> real
  {
    (j: nat) => if j < |pop| && i < |pop[j].fitness| then pop[j].fitness[i] else 0.0
  }

  /** Each front holds the same solutions, as often, as the matching one of the other list. */
  ghost predicate PermutedFronts(fronts: seq<seq<nat>>, fronts': seq<seq<nat>>)
  {
    |fronts'| == |fronts| && forall g :: 0 <= g < |fronts| ==> multiset(fronts'[g]) == multiset(fronts[g])
  }

  /**
   * The std::sort calls of calculateCrowdingDistances on one front: by
   * fitness[0], then fitness[1], and so on up to objective m - 1. The
   * front keeps its solutions and ends ordered by the last objective.
   */
  method SortFront(pop: seq<Solution>, front: seq<nat>, m: nat) returns (r: seq<nat>)
    ensures multiset(r) == multiset(front)
    ensures m > 0 ==> Sorting.SortedBy(r, ObjectiveKey(pop, m - 1))
    ensures m == 0 ==> r == front
  {
    r := front;
    for i := 0 to m
      invariant multiset(r) == multiset(front)
      invariant i > 0 ==> Sorting.SortedBy(r, ObjectiveKey(pop, i - 1))
      invariant i == 0 ==> r == front
    {
      r := Sorting.SortBy(r, ObjectiveKey(pop, i));
    }
  }

  /** The outer loop of calculateCrowdingDistances, as far as it reorders: SortFront on every front. */
  method SortFronts(pop: seq<Solution>, fronts: seq<seq<nat>>, m: nat) returns (sorted: seq<seq<nat>>)
    ensures PermutedFronts(fronts, sorted)
    ensures m > 0 ==> forall g :: 0 <= g < |sorted| ==> Sorting.SortedBy(sorted[g], ObjectiveKey(pop, m - 1))
    ensures m == 0 ==> sorted == fronts
  {
    sorted := [];
    for g := 0 to |fronts|
      invariant |sorted| == g
      invariant forall k :: 0 <= k < g ==> multiset(sorted[k]) == multiset(fronts[k])
      invariant m > 0 ==> forall k :: 0 <= k < g ==> Sorting.SortedBy(sorted[k], ObjectiveKey(pop, m - 1))
      invariant m == 0 ==> forall k :: 0 <= k < g ==> sorted[k] == fronts[k]
    {
      var front := SortFront(pop, fronts[g], m);
      sorted := sorted + [front];
    }
  }

  /** Reordering within fronts keeps every front below n and non-empty. */
  lemma PermutedBelow(fronts: seq<seq<nat>>, fronts': seq<seq<nat>>, n: nat)
    requires PermutedFronts(fronts, fronts') && forall g :: 0 <= g < |fronts| ==> Below(fronts[g], n)
    ensures forall g :: 0 <= g < |fronts'| ==> Below(fronts'[g], n) && |fronts'[g]| == |fronts[g]|
  {
    forall g | 0 <= g < |fronts'|
      ensures Below(fronts'[g], n) && |fronts'[g]| == |fronts[g]|
    {
      forall k | 0 <= k < |fronts'[g]|
        ensures fronts'[g][k] < n
      {
        assert fronts'[g][k] in multiset(fronts[g]);
      }
      assert |fronts'[g]| == |multiset(fronts'[g])| == |multiset(fronts[g])| == |fronts[g]|;
    }
  }

  /** Reordering within fronts places the same solutions. */
  lemma {:induction false} PermutedPlaced(fronts: seq<seq<nat>>, fronts': seq<seq<nat>>, g: nat)
    requires PermutedFronts(fronts, fronts') && g <= |fronts|
    ensures Placed(fronts', g) == Placed(fronts, g)
  {
    if g > 0 {
      PermutedPlaced(fronts, fronts', g - 1);
    }
  }

  /** Reordering within fronts keeps the fronts layered: membership is all Layered looks at. */
  lemma PermutedLayered(dom: (nat, nat) -> bool, n: nat, fronts: seq<seq<nat>>, fronts': seq<seq<nat>>, level: seq<int>)
    requires PermutedFronts(fronts, fronts') && Layered(dom, n, fronts, level)
    ensures Layered(dom, n, fronts', level)
  {
    PermutedBelow(fronts, fronts', n);
    forall g, x | 0 <= g < |fronts'| && 0 <= x < n
      ensures x in fronts'[g] <==> x in fronts[g]
    {
      assert x in fronts'[g] <==> x in multiset(fronts'[g]);
      assert x in fronts[g] <==> x in multiset(fronts[g]);
    }
  }

  /**
   * calculateCrowdingDistances leaves the fronts of nonDominatedSort layered
   * and placing the same solutions: it reorders within fronts and changes no
   * fitness.
   */
  lemma CrowdingKeepsLayers(pop: seq<Solution>, pop': seq<Solution>, fronts: seq<seq<nat>>, fronts': seq<seq<nat>>,
                            level: seq<int>)
    requires |pop'| == |pop| && forall x :: 0 <= x < |pop| ==> pop'[x].fitness == pop[x].fitness
    requires PermutedFronts(fronts, fronts') && Layered(DominanceOf(pop), |pop|, fronts, level)
    ensures Layered(DominanceOf(pop'), |pop'|, fronts', level)
    ensures Placed(fronts', |fronts'|) == Placed(fronts, |fronts|)
  {
    PermutedLayered(DominanceOf(pop), |pop|, fronts, fronts', level);
    PermutedPlaced(fronts, fronts', |fronts|);
    SameDominance(pop, pop', |pop|, fronts', level);
  }

  /** The sort key of the truncated front: descending crowding distance. */
  function CrowdingKey(pop: seq<Solution>): nat -> real
  {
    (j: nat) => if j < |pop| then -pop[j].crowdingDistance else 0.0
  }

  /**
   * reducePopulation (Lab4/NSGA2.cpp:116-140): copy whole fronts while they
   * fit; the first front that does not fit is sorted by descending crowding
   * distance and only its first `missing` members are copied. `cut` is the
   * index of that front (|fronts| if every front fits) and `best` its sorted
   * order.
   */
  method Truncate(pop: seq<Solution>, fronts: seq<seq<nat>>, populationSize: nat)
    returns (kept: seq<Solution>, ghost cut: nat, ghost best: seq<nat>)
    requires forall g :: 0 <= g < |fronts| ==> Below(fronts[g], |pop|)
    ensures cut <= |fronts| && Below(Concat(fronts, cut), |pop|) && |Concat(fronts, cut)| <= populationSize
    ensures cut == |fronts| ==> kept == Gather(pop, Concat(fronts, cut))
    ensures cut < |fronts| ==>
      && populationSize < |Concat(fronts, cut)| + |fronts[cut]|
      && multiset(best) == multiset(fronts[cut]) && |best| == |fronts[cut]| && Below(best, |pop|)
      && Sorting.SortedBy(best, CrowdingKey(pop))
      && kept == Gather(pop, Concat(fronts, cut)) + Gather(pop, best[..populationSize - |Concat(fronts, cut)|])
    ensures |kept| <= populationSize
    ensures populationSize <= |Concat(fronts, |fronts|)| ==> |kept| == populationSize
  {
    kept, best := [], [];
    var g := 0;
    var done := false;
    while g < |fronts| && !done
      invariant g <= |fronts| && Below(Concat(fronts, g), |pop|) && |Concat(fronts, g)| <= populationSize
      invariant !done ==> kept == Gather(pop, Concat(fronts, g))
      invariant done ==>
        && g < |fronts| && populationSize < |Concat(fronts, g)| + |fronts[g]|
        && multiset(best) == multiset(fronts[g]) && |best| == |fronts[g]| && Below(best, |pop|)
        && Sorting.SortedBy(best, CrowdingKey(pop))
        && kept == Gather(pop, Concat(fronts, g)) + Gather(pop, best[..populationSize - |Concat(fronts, g)|])
      decreases |fronts| - g, if done then 0 else 1
    {
      var front := fronts[g];
      var missing := populationSize - |kept|;
      if |front| <= missing {
        for k := 0 to |front|
          invariant kept == Gather(pop, Concat(fronts, g)) + Gather(pop, front[..k])
        {
          assert front[..k + 1] == front[..k] + [front[k]];
          GatherAppend(pop, front[..k], [front[k]]);
          kept := kept + [pop[front[k]]];
        }
        assert front[..|front|] == front;
        GatherAppend(pop, Concat(fronts, g), front);
        g := g + 1;
      } else {
        var sorted := Sorting.SortBy(front, CrowdingKey(pop));
        assert Below(sorted, |pop|) by {
          forall k | 0 <= k < |sorted| ensures sorted[k] < |pop| {
            assert sorted[k] in multiset(front);
          }
        }
        for k := 0 to missing
          invariant kept == Gather(pop, Concat(fronts, g)) + Gather(pop, sorted[..k])
        {
          assert sorted[..k + 1] == sorted[..k] + [sorted[k]];
          GatherAppend(pop, sorted[..k], [sorted[k]]);
          kept := kept + [pop[sorted[k]]];
        }
        assert |sorted| == |multiset(sorted)| == |multiset(front)| == |front|;
        best, done := sorted, true;
      }
    }
    cut := g;
  }

  // ---------------------------------------------------------------------------
  // select, cross, mutate
  // ---------------------------------------------------------------------------

  /** The crowded comparison of select: lower rank, or equal rank and larger crowding distance. */
  predicate Beats(a: Solution, b: Solution)
  {
    a.rank < b.rank || (a.rank == b.rank && a.crowdingDistance > b.crowdingDistance)
  }

  /**
   * select (Lab4/NSGA2.cpp:142-152): a tournament of three draws from the
   * first `populationSize` solutions; a later draw replaces the current
   * winner only when it beats it. Returns the index of the winner, which is
   * `draws[at]`.
   */
  method Select(pop: seq<Solution>, populationSize: nat, rng: Rng)
    returns (winner: nat, rng': Rng, ghost draws: seq<nat>, ghost at: nat)
    requires rng.Valid() && 0 < populationSize <= |pop|
    ensures |draws| == 3 && forall k :: 0 <= k < 3 ==> draws[k] < populationSize
    ensures at < 3 && winner == draws[at]
    ensures forall k :: 0 <= k < 3 ==> !Beats(pop[draws[k]], pop[winner])
    ensures forall k :: 0 <= k < at ==> Beats(pop[winner], pop[draws[k]])
    ensures rng'.Valid() && rng'.calls == rng.calls + 3
  {
    var (first, next) := rng.Uniform(0, populationSize - 1);
    winner, rng', draws, at := first, next, [first], 0;
    for i := 0 to 2
      invariant |draws| == i + 1 && at <= i && winner == draws[at]
      invariant forall k :: 0 <= k < |draws| ==> draws[k] < populationSize
      invariant forall k :: 0 <= k < |draws| ==> !Beats(pop[draws[k]], pop[winner])
      invariant forall k :: 0 <= k < at ==> Beats(pop[winner], pop[draws[k]])
      invariant rng'.Valid() && rng'.calls == rng.calls + i + 1
    {
      var (chosen, after) := rng'.Uniform(0, populationSize - 1);
      rng' := after;
      if Beats(pop[chosen], pop[winner]) {
        winner, at := chosen, |draws|;
      }
      draws := draws + [chosen];
    }
  }

  function Min(a: real, b: real): real { if a < b then a else b }

  function Max(a: real, b: real): real { if a < b then b else a }

  /**
   * cross (Lab4/NSGA2.cpp:154-163): a fresh solution whose every coordinate
   * is drawn between the parents' coordinates.
   */
  method Cross(p1: Solution, p2: Solution, problem: Problem, rng: Rng) returns (child: Solution, rng': Rng)
    requires rng.Valid() && problem.dimensions <= |p1.v| && problem.dimensions <= |p2.v|
    ensures |child.v| == problem.dimensions && |child.fitness| == problem.NumberOfObjectives()
    ensures forall i :: 0 <= i < problem.dimensions ==>
      Min(p1.v[i], p2.v[i]) <= child.v[i] <= Max(p1.v[i], p2.v[i])
    ensures child.rank == 0 && child.dominatingList == [] && child.crowdingDistance == 0.0
    ensures rng'.Valid()
  {
    var v := seq(problem.dimensions, i => 0.0);
    rng' := rng;
    for i := 0 to problem.dimensions
      invariant |v| == problem.dimensions && rng'.Valid()
      invariant forall k :: 0 <= k < i ==> Min(p1.v[k], p2.v[k]) <= v[k] <= Max(p1.v[k], p2.v[k])
    {
      var (x, next) := rng'.UniformReal(Min(p1.v[i], p2.v[i]), Max(p1.v[i], p2.v[i]));
      v, rng' := v[i := x], next;
    }
    child := Solution(v, seq(problem.NumberOfObjectives(), k => 0.0), 0, [], 0.0);
  }

  /**
   * mutate, the clamping version (Lab4/NSGA2.cpp:180-198): each coordinate
   * rolls against mutationChance; a coordinate that mutates is drawn within
   * one boundary width of its value and clamped into its boundary. `rolls`
   * are the rolls.
   */
  method Mutate(s: Solution, problem: Problem, mutationChance: real, rng: Rng)
    returns (s': Solution, rng': Rng, ghost rolls: seq<real>)
    requires rng.Valid() && problem.dimensions <= |s.v| && problem.Bounded()
    ensures s' == s.(v := s'.v) && |s'.v| == |s.v| && |rolls| == problem.dimensions
    ensures forall i :: 0 <= i < problem.dimensions ==>
      if rolls[i] > mutationChance then s'.v[i] == s.v[i]
      else problem.boundaries[i].0 <= s'.v[i] <= problem.boundaries[i].1
    ensures forall i :: problem.dimensions <= i < |s.v| ==> s'.v[i] == s.v[i]
    ensures rng'.Valid()
  {
    var v := s.v;
    rng', rolls := rng, [];
    for i := 0 to problem.dimensions
      invariant |v| == |s.v| && |rolls| == i && rng'.Valid()
      invariant forall k :: 0 <= k < i ==>
        if rolls[k] > mutationChance then v[k] == s.v[k]
        else problem.boundaries[k].0 <= v[k] <= problem.boundaries[k].1
      invariant forall k :: i <= k < |s.v| ==> v[k] == s.v[k]
    {
      var (roll, next) := rng'.Unit();
      rng', rolls := next, rolls + [roll];
      if roll > mutationChance {
        continue;
      }
      var (lowerBound, upperBound) := problem.boundaries[i];
      var diff := upperBound - lowerBound;
      var (x, after) := rng'.UniformReal(v[i] - diff, v[i] + diff);
      rng' := after;
      if x < lowerBound {
        x := lowerBound;
      } else if x > upperBound {
        x := upperBound;
      }
      v := v[i := x];
    }
    s' := s.(v := v);
  }

  // ---------------------------------------------------------------------------
  // The optimiser object
  // ---------------------------------------------------------------------------

  /** A solution as initializePopulation and expandPopulation leave it: inside the box and evaluated. */
  ghost predicate Evaluated(problem: Problem, s: Solution)
    requires problem.Bounded()
  {
    problem.InBox(s.v) && s.fitness == problem.Evaluate(s.v)
  }


  /**
   * The NSGA2 object. The problem is held by value, the engine by the `Rng`
   * oracle; boundaryDists, populationDist and chance are the ranges the
   * draws are taken from.
   */
  class Optimizer {
    var populationSize: nat
    var mutationChance: real
    var mutationStrength: real
    var iterations: nat
    var problem: Problem
    var population: seq<Solution>
    var fronts: seq<seq<nat>>
    var requiresInit: bool
    var rng: Rng

    /** Once initialised, the population has populationSize evaluated solutions inside the box. */
    ghost predicate Valid()
      reads this
    {
      && problem.Bounded() && rng.Valid()
      && (!requiresInit ==>
            |population| == populationSize && forall x :: 0 <= x < |population| ==> Evaluated(problem, population[x]))
    }

    /** The constructor stores the settings and ends with setProblem (Lab4/NSGA2.cpp:6-21). */
    constructor(populationSize: nat, mutationChance: real, mutationStrength: real, iterations: nat,
                problem: Problem, rng: Rng)
      requires problem.Bounded() && rng.Valid()
      ensures Valid() && requiresInit && this.problem == problem
      ensures this.populationSize == populationSize && this.mutationChance == mutationChance
      ensures this.mutationStrength == mutationStrength && this.iterations == iterations
    {
      this.populationSize := populationSize;
      this.mutationChance := mutationChance;
      this.mutationStrength := mutationStrength;
      this.iterations := iterations;
      this.problem := problem;
      this.rng := rng;
      population, fronts := [], [];
      requiresInit := true;
    }

    /** setProblem (Lab4/NSGA2.cpp:209-217): a new problem always requires a new population. */
    method SetProblem(problem: Problem)
      modifies this
      requires Valid() && problem.Bounded()
      ensures Valid() && requiresInit && this.problem == problem
      ensures population == old(population) && fronts == old(fronts) && rng == old(rng)
      ensures populationSize == old(populationSize) && mutationChance == old(mutationChance)
      ensures iterations == old(iterations)
    {
      this.problem := problem;
      requiresInit := true;
    }

    /**
     * initializePopulation (Lab4/NSGA2.cpp:219-230): populationSize fresh
     * solutions, each coordinate drawn inside its boundary, then evaluated.
     */
    method InitializePopulation()
      modifies this
      requires Valid()
      ensures Valid() && !requiresInit && |population| == populationSize
      ensures forall x :: 0 <= x < |population| ==>
        population[x].rank == 0 && population[x].dominatingList == [] && population[x].crowdingDistance == 0.0
      ensures problem == old(problem) && populationSize == old(populationSize)
      ensures mutationChance == old(mutationChance) && iterations == old(iterations)
    {
      var pop: seq<Solution> := [];
      var engine := rng;
      for s := 0 to populationSize
        modifies {}
        invariant |pop| == s && engine.Valid()
        invariant forall x :: 0 <= x < s ==> Evaluated(problem, pop[x])
        invariant forall x :: 0 <= x < s ==>
          pop[x].rank == 0 && pop[x].dominatingList == [] && pop[x].crowdingDistance == 0.0
      {
        var v := seq(problem.dimensions, i => 0.0);
        for i := 0 to problem.dimensions
          modifies {}
          invariant |v| == problem.dimensions && engine.Valid()
          invariant forall k :: 0 <= k < i ==> problem.boundaries[k].0 <= v[k] <= problem.boundaries[k].1
        {
          var (x, next) := engine.UniformReal(problem.boundaries[i].0, problem.boundaries[i].1);
          v, engine := v[i := x], next;
        }
        pop := pop + [Solution(v, problem.Evaluate(v), 0, [], 0.0)];
      }
      rng := engine;
      population := pop;
      requiresInit := false;
    }

    /**
     * nonDominatedSort (Lab4/NSGA2.cpp:23-88): the pairwise pass, then the
     * front loop, with the counters, lists and distances written back into
     * the solutions. Dominance is that of the population on entry, which has
     * the same fitness vectors as on exit.
     */
    method NonDominatedSort() returns (ghost level: seq<int>, ghost rest: seq<nat>)
      modifies this
      requires populationSize <= |population|
      requires forall x :: 0 <= x < |population| ==> |population[x].fitness| == problem.NumberOfObjectives()
      ensures |population| == |old(population)|
      ensures forall x :: 0 <= x < |population| ==>
        && population[x].v == old(population[x].v) && population[x].fitness == old(population[x].fitness)
        && population[x].dominatingList == DominatedList(DominanceOf(old(population)), x, |population|)
      ensures Peeled(DominanceOf(old(population)), |population|, populationSize, Ranks(population),
                     Distances(population), Distances(old(population)), rest, fronts, level)
      ensures Layered(DominanceOf(population), |population|, fronts, level)
      ensures populationSize <= |Placed(fronts, |fronts|)|
      ensures problem == old(problem) && populationSize == old(populationSize) && rng == old(rng)
      ensures mutationChance == old(mutationChance) && iterations == old(iterations)
      ensures requiresInit == old(requiresInit)
    {
      var pop := population;
      var n, m := |pop|, problem.NumberOfObjectives();
      var ranks, lists := DominationPass(pop, m);
      DominanceGraded(pop, m);
      var ranks', distances', fronts';
      ranks', distances', fronts', level, rest :=
        PeelFronts(ranks, Distances(pop), lists, DominanceOf(pop), Potential(pop, m), populationSize);
      population := seq(n, x requires 0 <= x < n =>
        pop[x].(rank := ranks'[x], dominatingList := lists[x], crowdingDistance := distances'[x]));
      fronts := fronts';
      assert Ranks(population) == ranks' && Distances(population) == distances';
      SameDominance(pop, population, n, fronts, level);
    }

    /**
     * calculateCrowdingDistances (Lab4/NSGA2.cpp:90-114): every front is
     * sorted in place by each objective in turn, so it ends ordered by the
     * last one. The distance arithmetic is floating point and is not
     * modelled: `crowding(population, fronts, x)` stands for the distance it
     * computes for a solution x of some front.
     */
    method CalculateCrowdingDistances(crowding: (seq<Solution>, seq<seq<nat>>, nat) -> real)
      modifies this
      ensures |population| == |old(population)|
      ensures forall x :: 0 <= x < |population| ==>
        && population[x].v == old(population[x].v) && population[x].fitness == old(population[x].fitness)
        && population[x].crowdingDistance ==
             if x in Concat(old(fronts), |old(fronts)|) then crowding(old(population), old(fronts), x)
             else old(population[x].crowdingDistance)
      ensures PermutedFronts(old(fronts), fronts)
      ensures problem.NumberOfObjectives() > 0 ==>
        forall g :: 0 <= g < |fronts| ==> Sorting.SortedBy(fronts[g], ObjectiveKey(old(population), problem.NumberOfObjectives() - 1))
      ensures problem.NumberOfObjectives() == 0 ==> fronts == old(fronts)
      ensures problem == old(problem) && populationSize == old(populationSize)
      ensures rng == old(rng) && mutationChance == old(mutationChance) && iterations == old(iterations)
      ensures requiresInit == old(requiresInit)
    {
      var pop, fs := population, fronts;
      var sorted := SortFronts(pop, fs, problem.NumberOfObjectives());
      var placed := Concat(fs, |fs|);
      population := seq(|pop|, x requires 0 <= x < |pop| =>
        if x in placed then pop[x].(crowdingDistance := crowding(pop, fs, x)) else pop[x]);
      fronts := sorted;
    }

    /**
     * reducePopulation (Lab4/NSGA2.cpp:116-140): the population becomes the
     * copies Truncate keeps.
     */
    method ReducePopulation() returns (ghost cut: nat, ghost best: seq<nat>)
      modifies this
      requires forall g :: 0 <= g < |fronts| ==> Below(fronts[g], |population|)
      ensures cut <= |fronts| && Below(Concat(fronts, cut), |old(population)|)
      ensures cut == |fronts| ==> population == Gather(old(population), Concat(fronts, cut))
      ensures cut < |fronts| ==>
        && multiset(best) == multiset(fronts[cut]) && |best| == |fronts[cut]| && Below(best, |old(population)|)
        && Sorting.SortedBy(best, CrowdingKey(old(population)))
        && |Concat(fronts, cut)| <= populationSize < |Concat(fronts, cut)| + |best|
        && population == Gather(old(population), Concat(fronts, cut))
                       + Gather(old(population), best[..populationSize - |Concat(fronts, cut)|])
      ensures populationSize <= |Concat(fronts, |fronts|)| ==> |population| == populationSize
      ensures forall x :: 0 <= x < |population| ==> population[x] in old(population)
      ensures fronts == old(fronts) && problem == old(problem) && populationSize == old(populationSize)
      ensures rng == old(rng) && mutationChance == old(mutationChance) && iterations == old(iterations)
      ensures requiresInit == old(requiresInit)
    {
      var kept;
      kept, cut, best := Truncate(population, fronts, populationSize);
      population := kept;
    }

    /**
     * expandPopulation (Lab4/NSGA2.cpp:200-207): populationSize children,
     * each the crossing of two tournament winners, mutated and evaluated, are
     * appended; nothing is removed.
     */
    method ExpandPopulation()
      modifies this
      requires problem.Bounded() && rng.Valid() && populationSize <= |population|
      requires forall x :: 0 <= x < |population| ==> Evaluated(problem, population[x])
      ensures rng.Valid() && problem == old(problem) && populationSize == old(populationSize)
      ensures mutationChance == old(mutationChance) && iterations == old(iterations)
      ensures requiresInit == old(requiresInit)
      ensures |population| == |old(population)| + populationSize
      ensures population[..|old(population)|] == old(population)
      ensures forall x :: 0 <= x < |population| ==> Evaluated(problem, population[x])
      ensures forall x :: |old(population)| <= x < |population| ==>
        population[x].rank == 0 && population[x].dominatingList == [] && population[x].crowdingDistance == 0.0
    {
      var pop, engine := population, rng;
      for i := 0 to populationSize
        modifies {}
        invariant |pop| == |population| + i && pop[..|population|] == population
        invariant forall x :: 0 <= x < |pop| ==> Evaluated(problem, pop[x])
        invariant forall x :: |population| <= x < |pop| ==>
          pop[x].rank == 0 && pop[x].dominatingList == [] && pop[x].crowdingDistance == 0.0
        invariant engine.Valid()
      {
        var first, engine1, draws1, at1 := Select(pop, populationSize, engine);
        var second, engine2, draws2, at2 := Select(pop, populationSize, engine1);
        var child, engine3 := Cross(pop[first], pop[second], problem, engine2);
        var mutated, engine4, rolls := Mutate(child, problem, mutationChance, engine3);
        ChildInBox(problem, pop[first], pop[second], child, mutated, mutationChance, rolls);
        mutated := mutated.(fitness := problem.Evaluate(mutated.v));
        pop, engine := pop + [mutated], engine4;
      }
      population, rng := pop, engine;
    }

    /**
     * The sort and crowding assignment that start train (Lab4/NSGA2.cpp:238-239):
     * the crowding sort reorders fronts but leaves them layered.
     */
    method SortAndCrowd(crowding: (seq<Solution>, seq<seq<nat>>, nat) -> real) returns (ghost level: seq<int>)
      modifies this
      requires Valid() && !requiresInit
      ensures Valid() && !requiresInit && problem == old(problem) && populationSize == old(populationSize)
      ensures Layered(DominanceOf(population), |population|, fronts, level)
      ensures populationSize <= |Placed(fronts, |fronts|)|
    {
      ghost var rest;
      level, rest := NonDominatedSort();
      ghost var pop, sortedFronts := population, fronts;
      CalculateCrowdingDistances(crowding);
      CrowdingKeepsLayers(pop, population, sortedFronts, fronts, level);
    }

    /**
     * One iteration of train's loop (Lab4/NSGA2.cpp:240-245): expand, sort,
     * assign crowding distances and reduce back to populationSize.
     */
    method Generation(crowding: (seq<Solution>, seq<seq<nat>>, nat) -> real)
      modifies this
      requires Valid() && !requiresInit
      ensures Valid() && !requiresInit && problem == old(problem) && populationSize == old(populationSize)
    {
      ExpandPopulation();
      ghost var level, rest := NonDominatedSort();
      ghost var sortedFronts := fronts;
      CalculateCrowdingDistances(crowding);
      PermutedBelow(sortedFronts, fronts, |population|);
      PermutedPlaced(sortedFronts, fronts, |fronts|);
      ConcatSize(fronts, |fronts|);
      ghost var cut, best := ReducePopulation();
    }

    /**
     * train (Lab4/NSGA2.cpp:232-248): nothing happens while the population
     * needs initialising; otherwise sort, then `iterations` generations, then
     * a final sort. The error message is not modelled.
     */
    method Train(crowding: (seq<Solution>, seq<seq<nat>>, nat) -> real) returns (ghost level: seq<int>)
      modifies this
      requires Valid()
      ensures Valid() && requiresInit == old(requiresInit)
      ensures old(requiresInit) ==> population == old(population) && fronts == old(fronts) && rng == old(rng)
      ensures !old(requiresInit) ==>
        && Layered(DominanceOf(population), |population|, fronts, level)
        && populationSize <= |Placed(fronts, |fronts|)|
      ensures problem == old(problem) && populationSize == old(populationSize)
    {
      if requiresInit {
        level := [];
        return;
      }
      level := SortAndCrowd(crowding);
      for i := 0 to iterations
        invariant Valid() && !requiresInit && problem == old(problem) && populationSize == old(populationSize)
      {
        Generation(crowding);
      }
      ghost var rest;
      level, rest := NonDominatedSort();
    }
  }

  /** Ranks and crowding distances of a population, as parallel sequences. */
  function Ranks(pop: seq<Solution>): (ranks: seq<int>)
  {
    seq(|pop|, x requires 0 <= x < |pop| => pop[x].rank)
  }

  function Distances(pop: seq<Solution>): (distances: seq<real>)
  {
    seq(|pop|, x requires 0 <= x < |pop| => pop[x].crowdingDistance)
  }

  /**
   * A child of two parents inside the box stays inside it: crossing keeps
   * each coordinate between the parents', and mutation either keeps it or
   * clamps it into its boundary.
   */
  lemma ChildInBox(problem: Problem, p1: Solution, p2: Solution, child: Solution, mutated: Solution,
                   mutationChance: real, rolls: seq<real>)
    requires problem.Bounded() && problem.InBox(p1.v) && problem.InBox(p2.v)
    requires |child.v| == problem.dimensions
    requires forall i :: 0 <= i < problem.dimensions ==> Min(p1.v[i], p2.v[i]) <= child.v[i] <= Max(p1.v[i], p2.v[i])
    requires |mutated.v| == |child.v| && |rolls| == problem.dimensions
    requires forall i :: 0 <= i < problem.dimensions ==>
      if rolls[i] > mutationChance then mutated.v[i] == child.v[i]
      else problem.boundaries[i].0 <= mutated.v[i] <= problem.boundaries[i].1
    ensures problem.InBox(mutated.v)
  {
  }
}
