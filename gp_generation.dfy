/**
 * GP::newGeneration: sort the population by penalty, clone the `elitism`
 * best into the new population, then fill it round by round with clones,
 * mutants and crossover offspring of tournament winners drawn from the old
 * population, which every tournament shuffles in place.
 */
module GpGeneration {
  import opened Wrappers
  import opened GpTrees
  import opened GpArena
  import opened GpCatalog
  import opened GpEngine
  import opened GpPopulation
  import opened Random
  import opened Sorting

  /**
   * A new member bred from the old population olds: an exact clone of one
   * member, penalty and all; or a mutant of one, a non-root subtree
   * replaced by a tree grown within the slack, then recalculated and
   * scored; or a survivor of crossing two members, recalculated and scored.
   */
  ghost predicate Bred(t: Tree, olds: multiset<nat>, trees: map<nat, Tree>, maxDepth: nat, maxNodes: nat,
                       penalty: (seq<Node>, nat) -> real)
  {
    || (exists x :: x in olds && x in trees && t == trees[x])
    || (exists x, p, g :: x in olds && x in trees && Regrown(trees[x], p, g, maxDepth, maxNodes)
                          && Scored(t, Replace(trees[x], p, g), penalty))
    || (exists a, b, p1, p2, k :: a in olds && b in olds && a in trees && b in trees
                                  && CrossPoints(trees[a], p1, trees[b], p2)
                                  && 0 <= k < |Survivors(trees[a], p1, trees[b], p2, maxDepth, maxNodes)|
                                  && Scored(t, Survivors(trees[a], p1, trees[b], p2, maxDepth, maxNodes)[k], penalty))
  }

  /**
   * The new population grew from newPop to newPop': the old slots keep
   * their roots and trees, and every added member was bred from olds.
   */
  ghost predicate Progeny(newPop: seq<nat>, born: map<nat, Tree>, newPop': seq<nat>, born': map<nat, Tree>,
                          olds: multiset<nat>, trees: map<nat, Tree>, maxDepth: nat, maxNodes: nat,
                          penalty: (seq<Node>, nat) -> real)
  {
    && |newPop| <= |newPop'| && newPop'[..|newPop|] == newPop
    && (forall r :: r in newPop ==> r in born && r in born' && born'[r] == born[r])
    && (forall k :: |newPop| <= k < |newPop'| ==> newPop'[k] in born' && Bred(born'[newPop'[k]], olds, trees, maxDepth, maxNodes, penalty))
  }

  lemma ProgenyTrans(a: seq<nat>, fa: map<nat, Tree>, b: seq<nat>, fb: map<nat, Tree>, c: seq<nat>, fc: map<nat, Tree>,
                     olds: multiset<nat>, trees: map<nat, Tree>, maxDepth: nat, maxNodes: nat,
                     penalty: (seq<Node>, nat) -> real)
    requires Progeny(a, fa, b, fb, olds, trees, maxDepth, maxNodes, penalty) && Progeny(b, fb, c, fc, olds, trees, maxDepth, maxNodes, penalty)
    ensures Progeny(a, fa, c, fc, olds, trees, maxDepth, maxNodes, penalty)
  {
    assert c[..|a|] == c[..|b|][..|a|];
    forall r | r in a
      ensures r in fc && fc[r] == fa[r]
    {
      var i :| 0 <= i < |a| && a[i] == r;
      assert b[i] == r;
    }
    forall k | |a| <= k < |c|
      ensures c[k] in fc && Bred(fc[c[k]], olds, trees, maxDepth, maxNodes, penalty)
    {
      if k < |b| {
        assert c[k] == b[k] && b[k] in b;
      }
    }
  }

  /** A member built above the heap h joins a population planted in h. */
  lemma PlantedJoin(h: seq<Node>, roots: seq<nat>, trees: map<nat, Tree>, y: nat, t: Tree, maxDepth: nat, maxNodes: nat)
    requires Planted(h, roots, trees, maxDepth, maxNodes) && y !in roots
    requires Represents(h, y, t, None) && Member(t, maxDepth, maxNodes)
    ensures Planted(h, roots + [y], trees[y := t], maxDepth, maxNodes)
    ensures forall r :: r in roots ==> trees[y := t][r] == trees[r]
  {
  }

  /** The roots of a population planted in h all lie below |h|. */
  lemma RootsBelow(h: seq<Node>, roots: seq<nat>, trees: map<nat, Tree>, maxDepth: nat, maxNodes: nat, y: nat)
    requires Planted(h, roots, trees, maxDepth, maxNodes) && |h| <= y
    ensures y !in roots
  {
  }

  // ---------------------------------------------------------------------------
  // One round of the fill loop

  /** What the three kinds of round need of the settings. */
  ghost predicate RoundReady(h: seq<Node>, cur: seq<nat>, trees: map<nat, Tree>, newPop: seq<nat>, born: map<nat, Tree>,
                             populationSize: nat, tournamentSize: nat, maxDepth: nat, maxNodes: nat)
  {
    && Planted(h, cur, trees, maxDepth, maxNodes) && Planted(h, newPop, born, maxDepth, maxNodes)
    && |newPop| < populationSize && 1 <= tournamentSize <= |cur|
  }

  /** The first branch of a round: a clone of the winner of tournament(1). */
  method CloneRound(h: seq<Node>, cur: seq<nat>, ghost trees: map<nat, Tree>, newPop: seq<nat>, ghost born: map<nat, Tree>,
                    populationSize: nat, tournamentSize: nat, maxDepth: nat, maxNodes: nat,
                    ghost penalty: (seq<Node>, nat) -> real, rng: Rng)
    returns (h': seq<Node>, cur': seq<nat>, newPop': seq<nat>, ghost born': map<nat, Tree>, rng': Rng)
    requires rng.Valid() && RoundReady(h, cur, trees, newPop, born, populationSize, tournamentSize, maxDepth, maxNodes)
    ensures rng'.Valid() && Kept(h, h') && multiset(cur') == multiset(cur) && Planted(h', cur', trees, maxDepth, maxNodes)
    ensures Planted(h', newPop', born', maxDepth, maxNodes) && |newPop'| == |newPop| + 1
    ensures Progeny(newPop, born, newPop', born', multiset(cur), trees, maxDepth, maxNodes, penalty)
  {
    var winners;
    ghost var ranked;
    cur', winners, rng', ranked := Tournament(h, cur, tournamentSize, 1, rng);
    assert winners[0] in winners;
    var w := winners[0];
    var y;
    h', y := Clone(h, w, trees[w], None, None);
    RootsBelow(h, newPop, born, maxDepth, maxNodes, y);
    PlantedKept(h, h', newPop, born, maxDepth, maxNodes);
    PlantedJoin(h', newPop, born, y, trees[w], maxDepth, maxNodes);
    PlantedPerm(h, cur, cur', trees, maxDepth, maxNodes);
    PlantedKept(h, h', cur', trees, maxDepth, maxNodes);
    newPop', born' := newPop + [y], born[y := trees[w]];
    assert newPop'[..|newPop|] == newPop;
    assert Bred(trees[w], multiset(cur), trees, maxDepth, maxNodes, penalty) by {
      assert w in multiset(cur);
    }
  }

  /** The second branch of a round: a mutant of the winner of tournament(1), one evaluation. */
  method MutateRound(ghost ops: seq<Operator>, cat: Catalog, h: seq<Node>, cur: seq<nat>, ghost trees: map<nat, Tree>,
                     newPop: seq<nat>, ghost born: map<nat, Tree>, populationSize: nat, tournamentSize: nat,
                     maxDepth: nat, maxNodes: nat, penalty: (seq<Node>, nat) -> real, rng: Rng)
    returns (h': seq<Node>, cur': seq<nat>, newPop': seq<nat>, ghost born': map<nat, Tree>, rng': Rng)
    requires Built(cat, ops) && 1 <= cat.counts[0] && rng.Valid()
    requires RoundReady(h, cur, trees, newPop, born, populationSize, tournamentSize, maxDepth, maxNodes)
    ensures rng'.Valid() && Kept(h, h') && multiset(cur') == multiset(cur) && Planted(h', cur', trees, maxDepth, maxNodes)
    ensures Planted(h', newPop', born', maxDepth, maxNodes) && |newPop'| == |newPop| + 1
    ensures Progeny(newPop, born, newPop', born', multiset(cur), trees, maxDepth, maxNodes, penalty)
  {
    var winners;
    ghost var ranked;
    cur', winners, rng', ranked := Tournament(h, cur, tournamentSize, 1, rng);
    assert winners[0] in winners;
    var w := winners[0];
    var y;
    ghost var t', p, g;
    h', y, t', rng', p, g := MutateTree(ops, cat, h, w, trees[w], maxDepth, maxNodes, penalty, rng');
    RootsBelow(h, newPop, born, maxDepth, maxNodes, y);
    PlantedKept(h, h', newPop, born, maxDepth, maxNodes);
    PlantedJoin(h', newPop, born, y, t', maxDepth, maxNodes);
    PlantedPerm(h, cur, cur', trees, maxDepth, maxNodes);
    PlantedKept(h, h', cur', trees, maxDepth, maxNodes);
    newPop', born' := newPop + [y], born[y := t'];
    assert newPop'[..|newPop|] == newPop;
    assert Bred(t', multiset(cur), trees, maxDepth, maxNodes, penalty) by {
      assert w in multiset(cur) && Regrown(trees[w], p, g, maxDepth, maxNodes) && Scored(t', Replace(trees[w], p, g), penalty);
    }
  }

  /** An offspring built above the heap h: a member at y in h', bred from olds. */
  ghost predicate Child(h: seq<Node>, h': seq<Node>, y: nat, o: Tree, olds: multiset<nat>, trees: map<nat, Tree>,
                        maxDepth: nat, maxNodes: nat, penalty: (seq<Node>, nat) -> real)
  {
    |h| <= y && Represents(h', y, o, None) && Member(o, maxDepth, maxNodes) && Bred(o, olds, trees, maxDepth, maxNodes, penalty)
  }

  /** The k-th survivor of crossing parents a and b is a child bred from the population holding them. */
  lemma OffspringChild(h: seq<Node>, h': seq<Node>, y: nat, o: Tree, cur: seq<nat>, trees: map<nat, Tree>,
                       a: nat, p1: seq<nat>, b: nat, p2: seq<nat>, k: nat,
                       maxDepth: nat, maxNodes: nat, penalty: (seq<Node>, nat) -> real)
    requires a in cur && b in cur && a in trees && b in trees && CrossPoints(trees[a], p1, trees[b], p2)
    requires k < |Survivors(trees[a], p1, trees[b], p2, maxDepth, maxNodes)|
    requires Offspring(|h|, h', y, o, Survivors(trees[a], p1, trees[b], p2, maxDepth, maxNodes)[k], maxDepth, maxNodes, penalty)
    ensures Child(h, h', y, o, multiset(cur), trees, maxDepth, maxNodes, penalty)
  {
    assert y in Footprint(h', y, o);
    assert a in multiset(cur) && b in multiset(cur);
  }

  /**
   * The pushes after cross: the first offspring joins if there is one, the
   * second only while the new population still has room. Both survivors
   * were evaluated, so at most one evaluation goes to an offspring that
   * does not join.
   */
  method Admit(ghost h: seq<Node>, h': seq<Node>, newPop: seq<nat>, ghost born: map<nat, Tree>,
               first: Option<nat>, second: Option<nat>, ghost o1: Tree, ghost o2: Tree, evaluated: nat,
               ghost olds: multiset<nat>, ghost trees: map<nat, Tree>, populationSize: nat, maxDepth: nat, maxNodes: nat,
               ghost penalty: (seq<Node>, nat) -> real)
    returns (newPop': seq<nat>, ghost born': map<nat, Tree>)
    requires Planted(h, newPop, born, maxDepth, maxNodes) && Kept(h, h') && |newPop| < populationSize
    requires first.Some? ==> Child(h, h', first.value, o1, olds, trees, maxDepth, maxNodes, penalty)
    requires second.Some? ==> first.Some? && first.value != second.value
                              && Child(h, h', second.value, o2, olds, trees, maxDepth, maxNodes, penalty)
    requires evaluated == (if first.Some? then 1 else 0) + (if second.Some? then 1 else 0)
    ensures Planted(h', newPop', born', maxDepth, maxNodes) && |newPop'| <= populationSize
    ensures Progeny(newPop, born, newPop', born', olds, trees, maxDepth, maxNodes, penalty)
    ensures evaluated <= |newPop'| - |newPop| + (if |newPop'| == populationSize then 1 else 0)
  {
    PlantedKept(h, h', newPop, born, maxDepth, maxNodes);
    newPop', born' := newPop, born;
    if first.Some? {
      RootsBelow(h, newPop, born, maxDepth, maxNodes, first.value);
      PlantedJoin(h', newPop, born, first.value, o1, maxDepth, maxNodes);
      newPop', born' := newPop + [first.value], born[first.value := o1];
    }
    if |newPop'| < populationSize && second.Some? {
      RootsBelow(h, newPop, born, maxDepth, maxNodes, second.value);
      PlantedJoin(h', newPop', born', second.value, o2, maxDepth, maxNodes);
      newPop', born' := newPop' + [second.value], born'[second.value := o2];
    }
    assert newPop'[..|newPop|] == newPop;
  }

  /** The third branch of a round: cross the two winners of tournament(2) and admit the survivors. */
  method CrossRound(h: seq<Node>, cur: seq<nat>, ghost trees: map<nat, Tree>, newPop: seq<nat>, ghost born: map<nat, Tree>,
                    populationSize: nat, tournamentSize: nat, maxDepth: nat, maxNodes: nat,
                    penalty: (seq<Node>, nat) -> real, rng: Rng)
    returns (h': seq<Node>, cur': seq<nat>, newPop': seq<nat>, ghost born': map<nat, Tree>, evaluations: nat, rng': Rng)
    requires rng.Valid() && 2 <= tournamentSize
    requires RoundReady(h, cur, trees, newPop, born, populationSize, tournamentSize, maxDepth, maxNodes)
    ensures rng'.Valid() && Kept(h, h') && multiset(cur') == multiset(cur) && Planted(h', cur', trees, maxDepth, maxNodes)
    ensures Planted(h', newPop', born', maxDepth, maxNodes) && |newPop'| <= populationSize
    ensures Progeny(newPop, born, newPop', born', multiset(cur), trees, maxDepth, maxNodes, penalty)
    ensures evaluations <= |newPop'| - |newPop| + (if |newPop'| == populationSize then 1 else 0)
  {
    var winners;
    ghost var ranked;
    cur', winners, rng', ranked := Tournament(h, cur, tournamentSize, 2, rng);
    assert winners[0] in winners && winners[1] in winners;
    var a, b := winners[0], winners[1];
    var first, second;
    ghost var p1, p2, o1, o2;
    h', first, second, evaluations, rng', p1, p2, o1, o2 := CrossTrees(h, a, trees[a], b, trees[b], maxDepth, maxNodes, penalty, rng');
    ghost var kept := Survivors(trees[a], p1, trees[b], p2, maxDepth, maxNodes);
    if first.Some? {
      OffspringChild(h, h', first.value, o1, cur, trees, a, p1, b, p2, 0, maxDepth, maxNodes, penalty);
    }
    if second.Some? {
      OffspringChild(h, h', second.value, o2, cur, trees, a, p1, b, p2, 1, maxDepth, maxNodes, penalty);
      assert second.value in Footprint(h', second.value, o2) && first.value in Footprint(h', first.value, o1);
    }
    newPop', born' := Admit(h, h', newPop, born, first, second, o1, o2, evaluations, multiset(cur), trees,
                            populationSize, maxDepth, maxNodes, penalty);
    PlantedPerm(h, cur, cur', trees, maxDepth, maxNodes);
    PlantedKept(h, h', cur', trees, maxDepth, maxNodes);
  }

  /**
   * One pass of the fill loop: a roll below pClone clones, below
   * pClone + pMutate mutates, otherwise crosses.
   */
  method Round(ghost ops: seq<Operator>, cat: Catalog, h: seq<Node>, cur: seq<nat>, ghost trees: map<nat, Tree>,
               newPop: seq<nat>, ghost born: map<nat, Tree>, populationSize: nat, tournamentSize: nat,
               maxDepth: nat, maxNodes: nat, pClone: real, pMutate: real, penalty: (seq<Node>, nat) -> real, rng: Rng)
    returns (h': seq<Node>, cur': seq<nat>, newPop': seq<nat>, ghost born': map<nat, Tree>, evaluations: nat, rng': Rng)
    requires Built(cat, ops) && 1 <= cat.counts[0] && rng.Valid()
    requires RoundReady(h, cur, trees, newPop, born, populationSize, tournamentSize, maxDepth, maxNodes)
    requires pClone + pMutate < 1.0 ==> 2 <= tournamentSize
    ensures rng'.Valid() && Kept(h, h') && multiset(cur') == multiset(cur) && Planted(h', cur', trees, maxDepth, maxNodes)
    ensures Planted(h', newPop', born', maxDepth, maxNodes) && |newPop'| <= populationSize
    ensures Progeny(newPop, born, newPop', born', multiset(cur), trees, maxDepth, maxNodes, penalty)
    ensures evaluations <= |newPop'| - |newPop| + (if |newPop'| == populationSize then 1 else 0)
  {
    var (roll, rng1) := rng.Unit();
    if roll < pClone {
      h', cur', newPop', born', rng' := CloneRound(h, cur, trees, newPop, born, populationSize, tournamentSize,
                                                   maxDepth, maxNodes, penalty, rng1);
      evaluations := 0;
    } else if roll < pClone + pMutate {
      h', cur', newPop', born', rng' := MutateRound(ops, cat, h, cur, trees, newPop, born, populationSize, tournamentSize,
                                                    maxDepth, maxNodes, penalty, rng1);
      evaluations := 1;
    } else {
      h', cur', newPop', born', evaluations, rng' := CrossRound(h, cur, trees, newPop, born, populationSize, tournamentSize,
                                                                maxDepth, maxNodes, penalty, rng1);
    }
  }

  // ---------------------------------------------------------------------------
  // newGeneration

  /** The elitism loop: clones of the first elitism members of the sorted population, in order. */
  method Elites(h: seq<Node>, ranked: seq<nat>, ghost trees: map<nat, Tree>, elitism: nat, maxDepth: nat, maxNodes: nat)
    returns (h': seq<Node>, newPop: seq<nat>, ghost born: map<nat, Tree>)
    requires Planted(h, ranked, trees, maxDepth, maxNodes) && elitism <= |ranked|
    ensures Kept(h, h') && Planted(h', newPop, born, maxDepth, maxNodes) && |newPop| == elitism
    ensures forall i :: 0 <= i < elitism ==> born[newPop[i]] == trees[ranked[i]]
  {
    h', newPop, born := h, [], map[];
    for i := 0 to elitism
      invariant Kept(h, h') && Planted(h', newPop, born, maxDepth, maxNodes) && |newPop| == i
      invariant forall j :: 0 <= j < i ==> born[newPop[j]] == trees[ranked[j]]
    {
      assert ranked[i] in ranked;
      PlantedKept(h, h', ranked, trees, maxDepth, maxNodes);
      var h1, y := Clone(h', ranked[i], trees[ranked[i]], None, None);
      RootsBelow(h', newPop, born, maxDepth, maxNodes, y);
      PlantedKept(h', h1, newPop, born, maxDepth, maxNodes);
      PlantedJoin(h1, newPop, born, y, trees[ranked[i]], maxDepth, maxNodes);
      KeptTrans(h, h', h1);
      forall j | 0 <= j < i
        ensures born[y := trees[ranked[i]]][newPop[j]] == trees[ranked[j]]
      {
        assert newPop[j] in newPop;
      }
      h', newPop, born := h1, newPop + [y], born[y := trees[ranked[i]]];
    }
  }

  /**
   * The fill loop of newGeneration, given fuel rounds: while the new
   * population is short, one round. It stops short only when the fuel is
   * spent; every evaluation but possibly the last round's second offspring
   * went to a member that joined.
   */
  method Fill(ghost ops: seq<Operator>, cat: Catalog, h: seq<Node>, cur: seq<nat>, ghost trees: map<nat, Tree>,
              newPop: seq<nat>, ghost born: map<nat, Tree>, populationSize: nat, tournamentSize: nat,
              maxDepth: nat, maxNodes: nat, pClone: real, pMutate: real, penalty: (seq<Node>, nat) -> real,
              rng: Rng, fuel: nat)
    returns (h': seq<Node>, cur': seq<nat>, newPop': seq<nat>, ghost born': map<nat, Tree>, evaluations: nat,
             rng': Rng, rounds: nat)
    requires Built(cat, ops) && 1 <= cat.counts[0] && rng.Valid()
    requires Planted(h, cur, trees, maxDepth, maxNodes) && Planted(h, newPop, born, maxDepth, maxNodes)
    requires |newPop| <= populationSize
    requires |newPop| < populationSize ==> 1 <= tournamentSize <= |cur|
    requires |newPop| < populationSize && pClone + pMutate < 1.0 ==> 2 <= tournamentSize
    ensures rng'.Valid() && Kept(h, h') && multiset(cur') == multiset(cur) && Planted(h', cur', trees, maxDepth, maxNodes)
    ensures Planted(h', newPop', born', maxDepth, maxNodes) && |newPop'| <= populationSize
    ensures Progeny(newPop, born, newPop', born', multiset(cur), trees, maxDepth, maxNodes, penalty)
    ensures evaluations <= |newPop'| - |newPop| + (if |newPop'| == populationSize then 1 else 0)
    ensures rounds <= fuel && (|newPop'| < populationSize ==> rounds == fuel)
  {
    h', cur', newPop', born', evaluations, rng', rounds := h, cur, newPop, born, 0, rng, 0;
    assert newPop[..|newPop|] == newPop;
    while |newPop'| < populationSize && rounds < fuel
      invariant rng'.Valid() && Kept(h, h') && multiset(cur') == multiset(cur) && |cur'| == |cur|
      invariant Planted(h', cur', trees, maxDepth, maxNodes)
      invariant Planted(h', newPop', born', maxDepth, maxNodes) && |newPop'| <= populationSize
      invariant Progeny(newPop, born, newPop', born', multiset(cur), trees, maxDepth, maxNodes, penalty)
      invariant evaluations <= |newPop'| - |newPop| + (if |newPop'| == populationSize then 1 else 0)
      invariant rounds <= fuel
      decreases fuel - rounds
    {
      var h1, cur1, np1, e;
      ghost var b1;
      h1, cur1, np1, b1, e, rng' := Round(ops, cat, h', cur', trees, newPop', born', populationSize, tournamentSize,
                                         maxDepth, maxNodes, pClone, pMutate, penalty, rng');
      ProgenyTrans(newPop, born, newPop', born', np1, b1, multiset(cur), trees, maxDepth, maxNodes, penalty);
      KeptTrans(h, h', h1);
      assert |cur1| == |multiset(cur1)|;
      h', cur', newPop', born', evaluations := h1, cur1, np1, b1, evaluations + e;
      rounds := rounds + 1;
    }
  }

  /**
   * What newGeneration builds from the old population pop, ranked by
   * penalty: the elitism best are cloned first, in order, and every later
   * member is bred from the old population.
   */
  ghost predicate Descends(newPop: seq<nat>, born: map<nat, Tree>, ranked: seq<nat>, pop: seq<nat>,
                           trees: map<nat, Tree>, elitism: nat, maxDepth: nat, maxNodes: nat,
                           penalty: (seq<Node>, nat) -> real)
  {
    && elitism <= |newPop| && elitism <= |ranked|
    && (forall i :: 0 <= i < elitism ==> newPop[i] in born && ranked[i] in trees && born[newPop[i]] == trees[ranked[i]])
    && (forall k :: elitism <= k < |newPop| ==> newPop[k] in born && Bred(born[newPop[k]], multiset(pop), trees, maxDepth, maxNodes, penalty))
  }

  /**
   * GP::newGeneration with at most fuel rounds of the fill loop: the old
   * population sorted by penalty, the elitism best cloned first, then
   * rounds until the new population holds populationSize members. The
   * sorted population is what the tournaments shuffle; cur is how they
   * leave it.
   */
  method NewGeneration(ghost ops: seq<Operator>, cat: Catalog, h: seq<Node>, pop: seq<nat>, ghost trees: map<nat, Tree>,
                       populationSize: nat, tournamentSize: nat, elitism: nat, maxDepth: nat, maxNodes: nat,
                       pClone: real, pMutate: real, penalty: (seq<Node>, nat) -> real, rng: Rng, fuel: nat)
    returns (h': seq<Node>, ranked: seq<nat>, cur: seq<nat>, newPop: seq<nat>, ghost born: map<nat, Tree>,
             evaluations: nat, rng': Rng, rounds: nat)
    requires Built(cat, ops) && 1 <= cat.counts[0] && rng.Valid()
    requires Planted(h, pop, trees, maxDepth, maxNodes) && |pop| == populationSize && elitism <= populationSize
    requires elitism < populationSize ==> 1 <= tournamentSize <= populationSize
    requires elitism < populationSize && pClone + pMutate < 1.0 ==> 2 <= tournamentSize
    ensures rng'.Valid() && Kept(h, h')
    ensures multiset(ranked) == multiset(pop) && |ranked| == populationSize && SortedBy(ranked, ByPenalty(h))
    ensures multiset(cur) == multiset(pop) && Planted(h', cur, trees, maxDepth, maxNodes)
    ensures Planted(h', newPop, born, maxDepth, maxNodes) && elitism <= |newPop| <= populationSize
    ensures Descends(newPop, born, ranked, pop, trees, elitism, maxDepth, maxNodes, penalty)
    ensures evaluations <= |newPop| - elitism + (if |newPop| == populationSize then 1 else 0)
    ensures rounds <= fuel && (|newPop| < populationSize ==> rounds == fuel)
  {
    ranked := SortBy(pop, ByPenalty(h));
    assert |ranked| == |multiset(ranked)| == |pop|;
    PlantedPerm(h, pop, ranked, trees, maxDepth, maxNodes);
    var h1, elites;
    ghost var born0;
    h1, elites, born0 := Elites(h, ranked, trees, elitism, maxDepth, maxNodes);
    PlantedKept(h, h1, ranked, trees, maxDepth, maxNodes);
    h', cur, newPop, born, evaluations, rng', rounds := Fill(ops, cat, h1, ranked, trees, elites, born0, populationSize,
                                                             tournamentSize, maxDepth, maxNodes, pClone, pMutate,
                                                             penalty, rng, fuel);
    KeptTrans(h, h1, h');
    forall i | 0 <= i < elitism
      ensures newPop[i] in born && ranked[i] in trees && born[newPop[i]] == trees[ranked[i]]
    {
      assert newPop[i] == newPop[..|elites|][i] == elites[i] && elites[i] in elites && ranked[i] in ranked;
    }
  }
}
