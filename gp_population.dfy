/**
 * The population side of the GP class: tournament selection, the best
 * member, ramped half-and-half initialisation and the generational step.
 * A population is a sequence of root indices into the node heap, and a
 * ghost map gives the Tree each root stands for. Apart from the
 * recalculation at the end of initialisation, every step only appends to
 * the heap, so the trees of a population stay where they are.
 */
module GpPopulation {
  import opened Wrappers
  import opened GpTrees
  import opened GpArena
  import opened GpCatalog
  import opened GpGenerators
  import opened GpEngine
  import opened Random
  import opened Sorting

  ghost predicate Distinct(s: seq<nat>)
  {
    forall i, j :: 0 <= i < j < |s| ==> s[i] != s[j]
  }

  /** Every root of the population holds a member in h, and no root occurs twice. */
  ghost predicate Planted(h: seq<Node>, roots: seq<nat>, trees: map<nat, Tree>, maxDepth: nat, maxNodes: nat)
  {
    && Distinct(roots)
    && forall r :: r in roots ==> r in trees && Represents(h, r, trees[r], None) && Member(trees[r], maxDepth, maxNodes)
  }

  /** The population survives appending to the heap. */
  lemma PlantedKept(h: seq<Node>, h': seq<Node>, roots: seq<nat>, trees: map<nat, Tree>, maxDepth: nat, maxNodes: nat)
    requires Planted(h, roots, trees, maxDepth, maxNodes) && Kept(h, h')
    ensures Planted(h', roots, trees, maxDepth, maxNodes)
  {
    forall r | r in roots
      ensures Represents(h', r, trees[r], None)
    {
      Extend(h, h', r, trees[r], None);
    }
  }

  /** A member built after the heap h held the population joins it under a new root. */
  lemma PlantedAdd(h0: seq<Node>, h: seq<Node>, roots: seq<nat>, trees: map<nat, Tree>, y: nat, t: Tree,
                   maxDepth: nat, maxNodes: nat)
    requires Planted(h0, roots, trees, maxDepth, maxNodes) && Kept(h0, h) && |h0| <= y
    requires Represents(h, y, t, None) && Member(t, maxDepth, maxNodes)
    ensures Planted(h, roots + [y], trees[y := t], maxDepth, maxNodes)
  {
    PlantedKept(h0, h, roots, trees, maxDepth, maxNodes);
    assert forall r :: r in roots ==> r < |h0|;
    assert y !in roots;
  }

  /** Reordering the population keeps it planted. */
  lemma PlantedPerm(h: seq<Node>, roots: seq<nat>, roots': seq<nat>, trees: map<nat, Tree>, maxDepth: nat, maxNodes: nat)
    requires Planted(h, roots, trees, maxDepth, maxNodes) && multiset(roots') == multiset(roots)
    ensures Planted(h, roots', trees, maxDepth, maxNodes)
  {
    PermutationKeepsDistinct(roots, roots');
    forall r | r in roots'
      ensures r in roots
    {
      assert r in multiset(roots');
    }
  }

  /** The key every comparison of the GP class orders by: the penalty cached at a root. */
  function ByPenalty(h: seq<Node>): (key: nat -> real)
    ensures forall r: nat :: r < |h| ==> key(r) == h[r].penalty
  {
    (r: nat) => PenaltyOf(h, r)
  }

  // ---------------------------------------------------------------------------
  // tournament

  /**
   * GP::tournament(winnersCount): shuffle the population in place, take the
   * first tournamentSize members as competitors, sort them by penalty and
   * return the first winnersCount.
   */
  method Tournament(h: seq<Node>, pop: seq<nat>, tournamentSize: nat, winnersCount: nat, rng: Rng)
    returns (pop': seq<nat>, winners: seq<nat>, rng': Rng, ranked: seq<nat>)
    requires winnersCount <= tournamentSize <= |pop| && rng.Valid()
    ensures rng'.Valid() && multiset(pop') == multiset(pop) && |pop'| == |pop|
    ensures |ranked| == tournamentSize && multiset(ranked) == multiset(pop'[..tournamentSize])
    ensures SortedBy(ranked, ByPenalty(h)) && winners == ranked[..winnersCount]
    ensures forall w :: w in winners ==> w in pop
    ensures Distinct(pop) ==> Distinct(winners)
  {
    pop', rng' := Shuffle(pop, rng);
    assert |pop'| == |multiset(pop')| == |pop|;
    var competitors := [];
    for i := 0 to tournamentSize
      invariant competitors == pop'[..i]
    {
      competitors := competitors + [pop'[i]];
    }
    ranked := SortBy(competitors, ByPenalty(h));
    TournamentFacts(pop, pop', ranked, tournamentSize, winnersCount);
    winners := ranked[..winnersCount];
  }

  /** The winners are the front of a rearranged prefix of a rearranged population. */
  lemma TournamentFacts(pop: seq<nat>, pop': seq<nat>, ranked: seq<nat>, tournamentSize: nat, winnersCount: nat)
    requires multiset(pop') == multiset(pop) && tournamentSize <= |pop'|
    requires multiset(ranked) == multiset(pop'[..tournamentSize]) && winnersCount <= tournamentSize
    ensures |ranked| == tournamentSize
    ensures forall w :: w in ranked[..winnersCount] ==> w in pop
    ensures Distinct(pop) ==> Distinct(ranked[..winnersCount])
  {
    assert |ranked| == |multiset(ranked)| == |pop'[..tournamentSize]|;
    forall w | w in ranked[..winnersCount]
      ensures w in pop
    {
      assert w in multiset(ranked);
      assert w in pop'[..tournamentSize];
      assert w in multiset(pop');
    }
    if Distinct(pop) {
      PermutationKeepsDistinct(pop, pop');
      assert Distinct(pop'[..tournamentSize]);
      PermutationKeepsDistinct(pop'[..tournamentSize], ranked);
    }
  }

  // ---------------------------------------------------------------------------
  // getBestSolution

  /** GP::getBestSolution: std::min_element by penalty, the first member of lowest penalty. */
  method BestIndex(h: seq<Node>, pop: seq<nat>) returns (best: nat)
    requires |pop| >= 1
    ensures best < |pop|
    ensures forall j :: 0 <= j < |pop| ==> PenaltyOf(h, pop[best]) <= PenaltyOf(h, pop[j])
    ensures forall j :: 0 <= j < best ==> PenaltyOf(h, pop[best]) < PenaltyOf(h, pop[j])
  {
    best := 0;
    var i := 1;
    while i < |pop|
      invariant best < i <= |pop|
      invariant forall j :: 0 <= j < i ==> PenaltyOf(h, pop[best]) <= PenaltyOf(h, pop[j])
      invariant forall j :: 0 <= j < best ==> PenaltyOf(h, pop[best]) < PenaltyOf(h, pop[j])
    {
      if PenaltyOf(h, pop[i]) < PenaltyOf(h, pop[best]) {
        best := i;
      }
      i := i + 1;
    }
  }

  // ---------------------------------------------------------------------------
  // initializePopulation

  /**
   * A population under construction: every root holds a sound tree built
   * at or above lo, and two roots' trees share no node, so the caches of
   * one can be recalculated in place without touching another.
   */
  ghost predicate Sown(lo: nat, h: seq<Node>, roots: seq<nat>, trees: map<nat, Tree>, maxDepth: nat, maxNodes: nat)
  {
    && Distinct(roots)
    && (forall r :: r in roots ==> r in trees && Represents(h, r, trees[r], None) && Above(h, r, trees[r], lo)
                                   && Sound(trees[r], maxDepth, maxNodes))
    && (forall r, s :: r in roots && s in roots && r != s ==> Footprint(h, r, trees[r]) !! Footprint(h, s, trees[s]))
  }

  /** A tree appended after h joins the population under construction. */
  lemma SownAdd(lo: nat, h: seq<Node>, h': seq<Node>, roots: seq<nat>, trees: map<nat, Tree>, y: nat, t: Tree,
                maxDepth: nat, maxNodes: nat)
    requires Sown(lo, h, roots, trees, maxDepth, maxNodes) && lo <= |h|
    requires Appended(h, h', y, t, None) && Sound(t, maxDepth, maxNodes)
    ensures y !in roots && Sown(lo, h', roots + [y], trees[y := t], maxDepth, maxNodes)
  {
    forall r | r in roots
      ensures Represents(h', r, trees[r], None) && Footprint(h', r, trees[r]) == Footprint(h, r, trees[r])
      ensures forall w :: w in Footprint(h, r, trees[r]) ==> w < |h|
    {
      Extend(h, h', r, trees[r], None);
      FootprintInside(h, r, trees[r], None);
    }
    assert y !in roots;
  }

  /** Sowing does not depend on the order of the roots. */
  lemma SownPerm(lo: nat, h: seq<Node>, roots: seq<nat>, roots': seq<nat>, trees: map<nat, Tree>, maxDepth: nat, maxNodes: nat)
    requires Sown(lo, h, roots, trees, maxDepth, maxNodes) && multiset(roots') == multiset(roots)
    ensures Sown(lo, h, roots', trees, maxDepth, maxNodes)
  {
    PermutationKeepsDistinct(roots, roots');
    forall r | r in roots'
      ensures r in roots
    {
      assert r in multiset(roots');
    }
  }

  /**
   * The depth the source passes to grow or full for population slot i: the
   * depths 2..top in turn (top is maxTreeDepth for grow, maxDepthFull for full).
   */
  function CycledDepth(i: nat, top: nat): (d: nat)
    requires 2 <= top
    ensures 2 <= d <= top
  {
    2 + i % (top - 1)
  }

  /** What grow needs for the grown half: a depth of at least 2, room for a node, and a non-terminal grow may draw. */
  ghost predicate GrowReady(cat: Catalog, maxTreeDepth: nat, maxTreeNodes: nat)
  {
    && 2 <= maxTreeDepth && 1 <= maxTreeNodes && GrowArity(cat, 2, maxTreeNodes) < |cat.counts|
    && cat.counts[0] < cat.counts[GrowArity(cat, 2, maxTreeNodes)]
  }

  /** initializePopulation's first loop: slots populationSize / 2 to populationSize - 1 grown with banTerminals, ramped in depth. */
  method GrowHalf(ghost ops: seq<Operator>, cat: Catalog, h: seq<Node>, populationSize: nat,
                  maxTreeDepth: nat, maxTreeNodes: nat, rng: Rng)
    returns (h': seq<Node>, grown: seq<nat>, ghost raw: map<nat, Tree>, rng': Rng)
    requires Built(cat, ops) && 1 <= cat.counts[0] && rng.Valid()
    requires populationSize >= 1 ==> GrowReady(cat, maxTreeDepth, maxTreeNodes)
    ensures rng'.Valid() && Kept(h, h') && |grown| == populationSize - populationSize / 2
    ensures Sown(|h|, h', grown, raw, maxTreeDepth, maxTreeNodes)
    ensures forall k :: 0 <= k < |grown| ==> Depth(raw[grown[k]]) <= CycledDepth(populationSize / 2 + k, maxTreeDepth)
  {
    h', grown, raw, rng' := h, [], map[], rng;
    for i := populationSize / 2 to populationSize
      invariant rng'.Valid() && Kept(h, h') && |grown| == i - populationSize / 2
      invariant Sown(|h|, h', grown, raw, maxTreeDepth, maxTreeNodes)
      invariant forall k :: 0 <= k < |grown| ==> Depth(raw[grown[k]]) <= CycledDepth(populationSize / 2 + k, maxTreeDepth)
    {
      var h1, y;
      ghost var t;
      h1, y, t, rng' := Grow(ops, cat, h', 2 + i % (maxTreeDepth - 1), maxTreeNodes, None, true, rng');
      SownAdd(|h|, h', h1, grown, raw, y, t, maxTreeDepth, maxTreeNodes);
      KeptTrans(h, h', h1);
      h', grown, raw := h1, grown + [y], raw[y := t];
    }
  }

  /** What full needs for the full half: the deepest full tree that fits, and no overflow in the series up to it. */
  ghost predicate FullHalfReady(cat: Catalog, maxDepthFull: Option<nat>, maxTreeDepth: nat, maxTreeNodes: nat)
  {
    && maxDepthFull.Some? && 2 <= maxDepthFull.value <= maxTreeDepth <= SeriesLength == |cat.series|
    && maxTreeNodes >= cat.series[maxDepthFull.value - 1] && FullReady(cat, maxDepthFull.value)
  }

  /** Every depth up to maxDepthFull is fit for full with maxTreeNodes. */
  lemma FullDepthReady(cat: Catalog, ops: seq<Operator>, d: nat, maxDepthFull: nat, maxTreeNodes: nat)
    requires Built(cat, ops) && 2 <= d <= maxDepthFull <= SeriesLength
    requires maxTreeNodes >= cat.series[maxDepthFull - 1] && FullReady(cat, maxDepthFull)
    ensures FullReady(cat, d) && maxTreeNodes >= cat.series[d - 1]
  {
    GeoMonotone(cat.minNonZero, d - 1, maxDepthFull - 1);
    SeriesIncreasing(cat, ops, d - 1, maxDepthFull - 1);
  }

  /** A full tree of depth d >= 2 within maxNodes is sound. */
  lemma FullSound(t: Tree, d: nat, maxDepth: nat, maxNodes: nat)
    requires Shaped(t) && LeavesAt(t, d) && 2 <= d <= maxDepth && Size(t) <= maxNodes
    ensures Sound(t, maxDepth, maxNodes)
  {
    LeavesAtDepth(t, d);
  }

  /** initializePopulation's second loop: slots 0 to populationSize / 2 - 1 built by full, ramped in depth, after the grown ones. */
  method FullHalf(ghost ops: seq<Operator>, cat: Catalog, ghost lo: nat, h: seq<Node>, ghost grown: seq<nat>, ghost raw: map<nat, Tree>,
                  populationSize: nat, maxDepthFull: Option<nat>, maxTreeDepth: nat, maxTreeNodes: nat, rng: Rng)
    returns (h': seq<Node>, fulls: seq<nat>, ghost raw': map<nat, Tree>, rng': Rng)
    requires Built(cat, ops) && 1 <= cat.counts[0] && rng.Valid() && lo <= |h|
    requires Sown(lo, h, grown, raw, maxTreeDepth, maxTreeNodes)
    requires populationSize / 2 >= 1 ==> FullHalfReady(cat, maxDepthFull, maxTreeDepth, maxTreeNodes)
    ensures rng'.Valid() && Kept(h, h') && |fulls| == populationSize / 2
    ensures Sown(lo, h', grown + fulls, raw', maxTreeDepth, maxTreeNodes)
    ensures forall r :: r in grown ==> raw'[r] == raw[r]
    ensures forall k :: 0 <= k < |fulls| ==> LeavesAt(raw'[fulls[k]], CycledDepth(k, maxDepthFull.value))
  {
    h', fulls, raw', rng' := h, [], raw, rng;
    for i := 0 to populationSize / 2
      invariant rng'.Valid() && Kept(h, h') && |fulls| == i
      invariant Sown(lo, h', grown + fulls, raw', maxTreeDepth, maxTreeNodes)
      invariant forall r :: r in grown ==> raw'[r] == raw[r]
      invariant forall k :: 0 <= k < |fulls| ==> LeavesAt(raw'[fulls[k]], CycledDepth(k, maxDepthFull.value))
    {
      var d := 2 + i % (maxDepthFull.value - 1);
      FullDepthReady(cat, ops, d, maxDepthFull.value, maxTreeNodes);
      var h1, y;
      ghost var t;
      h1, y, t, rng' := Full(ops, cat, h', d, maxTreeNodes, None, rng');
      FullSound(t, d, maxTreeDepth, maxTreeNodes);
      SownAdd(lo, h', h1, grown + fulls, raw', y, t, maxTreeDepth, maxTreeNodes);
      KeptTrans(h, h', h1);
      assert grown + fulls + [y] == grown + (fulls + [y]);
      h', fulls, raw' := h1, fulls + [y], raw'[y := t];
    }
  }

  /** The two heaps have the same length and differ only at indices in F. */
  ghost predicate SameOutside(h: seq<Node>, h': seq<Node>, F: set<nat>)
  {
    |h'| == |h| && forall w :: 0 <= w < |h| && w !in F ==> h'[w] == h[w]
  }

  /** Recalculating one tree in place leaves the others, which share none of its nodes, as they were. */
  lemma SownFinish(lo: nat, h: seq<Node>, h': seq<Node>, roots: seq<nat>, trees: map<nat, Tree>, x: nat, t': Tree,
                   maxDepth: nat, maxNodes: nat)
    requires Sown(lo, h, roots, trees, maxDepth, maxNodes) && x in roots
    requires Represents(h', x, t', None) && Footprint(h', x, t') <= Footprint(h, x, trees[x]) && Sound(t', maxDepth, maxNodes)
    requires SameOutside(h, h', Footprint(h, x, trees[x]))
    ensures Sown(lo, h', roots, trees[x := t'], maxDepth, maxNodes)
  {
    OthersUntouched(lo, h, h', roots, trees, x, maxDepth, maxNodes);
    var trees' := trees[x := t'];
    assert forall r :: r in roots ==> r in trees' && Represents(h', r, trees'[r], None) && Above(h', r, trees'[r], lo)
                                      && Sound(trees'[r], maxDepth, maxNodes);
    forall r, s | r in roots && s in roots && r != s
      ensures Footprint(h', r, trees'[r]) !! Footprint(h', s, trees'[s])
    {
      assert Footprint(h', r, trees'[r]) <= Footprint(h, r, trees[r]);
      assert Footprint(h', s, trees'[s]) <= Footprint(h, s, trees[s]);
    }
  }

  lemma OthersUntouched(lo: nat, h: seq<Node>, h': seq<Node>, roots: seq<nat>, trees: map<nat, Tree>, x: nat,
                        maxDepth: nat, maxNodes: nat)
    requires Sown(lo, h, roots, trees, maxDepth, maxNodes) && x in roots
    requires SameOutside(h, h', Footprint(h, x, trees[x]))
    ensures forall r :: r in roots && r != x ==> Represents(h', r, trees[r], None) && Footprint(h', r, trees[r]) == Footprint(h, r, trees[r])
  {
    forall r | r in roots && r != x
      ensures Represents(h', r, trees[r], None) && Footprint(h', r, trees[r]) == Footprint(h, r, trees[r])
    {
      Untouched(h, h', r, trees[r], Footprint(h, x, trees[x]));
    }
  }

  /** One pass of initializePopulation's last loop: the tree at roots[i] recalculated and scored. */
  method SettleOne(base: seq<Node>, h: seq<Node>, roots: seq<nat>, ghost trees: map<nat, Tree>, i: nat,
                   maxDepth: nat, maxNodes: nat, penalty: (seq<Node>, nat) -> real)
    returns (h': seq<Node>, ghost trees': map<nat, Tree>)
    requires Sown(|base|, h, roots, trees, maxDepth, maxNodes) && Kept(base, h) && i < |roots|
    ensures Sown(|base|, h', roots, trees', maxDepth, maxNodes) && Kept(base, h') && |h'| == |h|
    ensures trees' == trees[roots[i] := trees'[roots[i]]] && Member(trees'[roots[i]], maxDepth, maxNodes)
    ensures Scored(trees'[roots[i]], trees[roots[i]], penalty)
  {
    var x := roots[i];
    ghost var t';
    h', t' := Finish(h, x, trees[x], penalty);
    Settled(trees[x], t'.penalty, maxDepth, maxNodes);
    SownFinish(|base|, h, h', roots, trees, x, t', maxDepth, maxNodes);
    KeptOutside(base, h, h', Footprint(h, x, trees[x]));
    trees' := trees[x := t'];
  }

  /** A population under construction whose every tree is a member is planted. */
  lemma SownPlanted(lo: nat, h: seq<Node>, roots: seq<nat>, trees: map<nat, Tree>, maxDepth: nat, maxNodes: nat)
    requires Sown(lo, h, roots, trees, maxDepth, maxNodes)
    requires forall i :: 0 <= i < |roots| ==> Member(trees[roots[i]], maxDepth, maxNodes)
    ensures Planted(h, roots, trees, maxDepth, maxNodes)
  {
    forall r | r in roots
      ensures Member(trees[r], maxDepth, maxNodes)
    {
      var i :| 0 <= i < |roots| && roots[i] == r;
    }
  }

  /** The first i roots are settled members, recalculated from raw; the rest are still raw. */
  ghost predicate SettledUpTo(roots: seq<nat>, trees: map<nat, Tree>, raw: map<nat, Tree>, i: nat, maxDepth: nat, maxNodes: nat,
                             penalty: (seq<Node>, nat) -> real)
  {
    && i <= |roots| && (forall r :: r in roots ==> r in trees && r in raw)
    && (forall j :: 0 <= j < i ==> Member(trees[roots[j]], maxDepth, maxNodes))
    && (forall j :: 0 <= j < i ==> Scored(trees[roots[j]], raw[roots[j]], penalty))
    && (forall j :: i <= j < |roots| ==> trees[roots[j]] == raw[roots[j]])
  }

  /** Settling roots[i] advances SettledUpTo by one slot. */
  lemma SettleStep(roots: seq<nat>, trees: map<nat, Tree>, trees': map<nat, Tree>, raw: map<nat, Tree>, i: nat,
                   maxDepth: nat, maxNodes: nat, penalty: (seq<Node>, nat) -> real)
    requires Distinct(roots) && SettledUpTo(roots, trees, raw, i, maxDepth, maxNodes, penalty) && i < |roots|
    requires roots[i] in trees' && trees' == trees[roots[i] := trees'[roots[i]]] && Member(trees'[roots[i]], maxDepth, maxNodes)
    requires Scored(trees'[roots[i]], trees[roots[i]], penalty)
    ensures SettledUpTo(roots, trees', raw, i + 1, maxDepth, maxNodes, penalty)
  {
    forall j | 0 <= j < |roots| && j != i
      ensures trees'[roots[j]] == trees[roots[j]]
    {
      assert roots[j] != roots[i];
    }
  }

  /** initializePopulation's last loop: every tree recalculated and scored in slot order, one evaluation each. */
  method SettleAll(base: seq<Node>, h: seq<Node>, roots: seq<nat>, ghost raw: map<nat, Tree>,
                   maxDepth: nat, maxNodes: nat, penalty: (seq<Node>, nat) -> real)
    returns (h': seq<Node>, ghost trees: map<nat, Tree>, evaluations: nat)
    requires Sown(|base|, h, roots, raw, maxDepth, maxNodes) && Kept(base, h)
    ensures Kept(base, h') && Planted(h', roots, trees, maxDepth, maxNodes) && evaluations == |roots|
    ensures forall i :: 0 <= i < |roots| ==> Scored(trees[roots[i]], raw[roots[i]], penalty)
  {
    h', trees, evaluations := h, raw, 0;
    for i := 0 to |roots|
      invariant Sown(|base|, h', roots, trees, maxDepth, maxNodes) && Kept(base, h') && evaluations == i
      invariant SettledUpTo(roots, trees, raw, i, maxDepth, maxNodes, penalty)
    {
      ghost var before := trees;
      h', trees := SettleOne(base, h', roots, trees, i, maxDepth, maxNodes, penalty);
      SettleStep(roots, before, trees, raw, i, maxDepth, maxNodes, penalty);
      evaluations := evaluations + 1;
    }
    SownPlanted(|base|, h', roots, trees, maxDepth, maxNodes);
  }

  /** initializePopulation's two building loops: the grown half, then the full half, in slot order. */
  method Sow(ghost ops: seq<Operator>, cat: Catalog, h: seq<Node>, populationSize: nat,
             maxDepthFull: Option<nat>, maxTreeDepth: nat, maxTreeNodes: nat, rng: Rng)
    returns (h': seq<Node>, pop: seq<nat>, ghost raw: map<nat, Tree>, rng': Rng)
    requires Built(cat, ops) && 1 <= cat.counts[0] && rng.Valid()
    requires populationSize >= 1 ==> GrowReady(cat, maxTreeDepth, maxTreeNodes)
    requires populationSize / 2 >= 1 ==> FullHalfReady(cat, maxDepthFull, maxTreeDepth, maxTreeNodes)
    ensures rng'.Valid() && Kept(h, h') && |pop| == populationSize
    ensures Sown(|h|, h', pop, raw, maxTreeDepth, maxTreeNodes)
    ensures forall i :: populationSize / 2 <= i < populationSize ==> Depth(raw[pop[i]]) <= CycledDepth(i, maxTreeDepth)
    ensures forall i :: 0 <= i < populationSize / 2 ==> LeavesAt(raw[pop[i]], CycledDepth(i, maxDepthFull.value))
  {
    var h1, grown, fulls;
    ghost var rawG;
    h1, grown, rawG, rng' := GrowHalf(ops, cat, h, populationSize, maxTreeDepth, maxTreeNodes, rng);
    h', fulls, raw, rng' := FullHalf(ops, cat, |h|, h1, grown, rawG, populationSize, maxDepthFull, maxTreeDepth, maxTreeNodes, rng');
    pop := fulls + grown;
    Merged(|h|, h', grown, fulls, rawG, raw, populationSize, maxDepthFull, maxTreeDepth, maxTreeNodes);
    KeptTrans(h, h1, h');
  }

  /** The population slots in order: the full half first, then the grown half. */
  lemma Merged(lo: nat, h: seq<Node>, grown: seq<nat>, fulls: seq<nat>, rawG: map<nat, Tree>, raw: map<nat, Tree>,
               populationSize: nat, maxDepthFull: Option<nat>, maxTreeDepth: nat, maxTreeNodes: nat)
    requires |grown| == populationSize - populationSize / 2 && |fulls| == populationSize / 2
    requires populationSize >= 1 ==> 2 <= maxTreeDepth
    requires Sown(lo, h, grown + fulls, raw, maxTreeDepth, maxTreeNodes)
    requires forall r :: r in grown ==> r in rawG && raw[r] == rawG[r]
    requires forall k :: 0 <= k < |grown| ==> Depth(rawG[grown[k]]) <= CycledDepth(populationSize / 2 + k, maxTreeDepth)
    requires populationSize / 2 >= 1 ==> maxDepthFull.Some? && 2 <= maxDepthFull.value
    requires forall k :: 0 <= k < |fulls| ==> LeavesAt(raw[fulls[k]], CycledDepth(k, maxDepthFull.value))
    ensures Sown(lo, h, fulls + grown, raw, maxTreeDepth, maxTreeNodes)
    ensures forall i :: populationSize / 2 <= i < populationSize ==> Depth(raw[(fulls + grown)[i]]) <= CycledDepth(i, maxTreeDepth)
    ensures forall i :: 0 <= i < populationSize / 2 ==> LeavesAt(raw[(fulls + grown)[i]], CycledDepth(i, maxDepthFull.value))
  {
    var pop := fulls + grown;
    assert multiset(pop) == multiset(grown + fulls);
    SownPerm(lo, h, grown + fulls, pop, raw, maxTreeDepth, maxTreeNodes);
    forall i | populationSize / 2 <= i < populationSize
      ensures Depth(raw[pop[i]]) <= CycledDepth(i, maxTreeDepth)
    {
      var k := i - populationSize / 2;
      assert pop[i] == grown[k] && grown[k] in grown;
    }
  }

  /**
   * GP::initializePopulation, ramped half-and-half: slots from
   * populationSize / 2 on are grown with a non-terminal root to depth
   * 2 + i mod (maxTreeDepth - 1), the slots before them built by full to
   * depth 2 + i mod (maxDepthFull - 1); then every tree is recalculated and
   * scored, one evaluation per slot.
   */
  method InitializePopulation(ghost ops: seq<Operator>, cat: Catalog, h: seq<Node>, populationSize: nat,
                              maxDepthFull: Option<nat>, maxTreeDepth: nat, maxTreeNodes: nat,
                              penalty: (seq<Node>, nat) -> real, rng: Rng)
    returns (h': seq<Node>, pop: seq<nat>, ghost trees: map<nat, Tree>, ghost raw: map<nat, Tree>, evaluations: nat, rng': Rng)
    requires Built(cat, ops) && 1 <= cat.counts[0] && rng.Valid()
    requires populationSize >= 1 ==> GrowReady(cat, maxTreeDepth, maxTreeNodes)
    requires populationSize / 2 >= 1 ==> FullHalfReady(cat, maxDepthFull, maxTreeDepth, maxTreeNodes)
    ensures rng'.Valid() && Kept(h, h') && |pop| == populationSize && evaluations == populationSize
    ensures Planted(h', pop, trees, maxTreeDepth, maxTreeNodes) && forall r :: r in pop ==> r in raw
    ensures forall i :: 0 <= i < populationSize ==> Scored(trees[pop[i]], raw[pop[i]], penalty)
    ensures forall i :: populationSize / 2 <= i < populationSize ==> Depth(raw[pop[i]]) <= CycledDepth(i, maxTreeDepth)
    ensures forall i :: 0 <= i < populationSize / 2 ==> LeavesAt(raw[pop[i]], CycledDepth(i, maxDepthFull.value))
  {
    var h1;
    h1, pop, raw, rng' := Sow(ops, cat, h, populationSize, maxDepthFull, maxTreeDepth, maxTreeNodes, rng);
    h', trees, evaluations := SettleAll(h, h1, pop, raw, maxTreeDepth, maxTreeNodes, penalty);
  }
}
