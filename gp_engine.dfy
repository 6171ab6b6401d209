/**
 * The GP class: subtree mutation, subtree-swap crossover, tournament
 * selection, the best member, ramped half-and-half initialisation and the
 * generational step. Trees live in the shared node heap of GpArena; the
 * population is a sequence of root indices, and the ghost map `trees` says
 * which Tree each root stands for. Every operation works on fresh clones
 * appended to the heap, so the records of the trees it reads are never
 * written. IPenalty::calculate is the parameter `penalty`, a function of
 * the heap and the root it is given.
 */
module GpEngine {
  import opened Wrappers
  import opened GpTrees
  import opened GpArena
  import opened GpCatalog
  import opened GpGenerators
  import opened Random
  import opened Sorting

  /** A tree the population may hold, before its caches are recalculated: arity-many children everywhere, a non-terminal root, and within both limits. */
  ghost predicate Sound(t: Tree, maxDepth: nat, maxNodes: nat)
  {
    Shaped(t) && 1 <= t.oper.arity && Size(t) <= maxNodes && Depth(t) <= maxDepth
  }

  /** A population member: sound, with every cached size and depth correct. */
  ghost predicate Member(t: Tree, maxDepth: nat, maxNodes: nat)
  {
    Sound(t, maxDepth, maxNodes) && Cached(t)
  }

  /** h' extends h: every record of h is still there, unchanged. */
  ghost predicate Kept(h: seq<Node>, h': seq<Node>)
  {
    |h| <= |h'| && h'[..|h|] == h
  }

  /** Every node of the subtree at x lies at or above lo. */
  ghost predicate Above(h: seq<Node>, x: nat, t: Tree, lo: nat)
  {
    forall w :: w in Footprint(h, x, t) ==> lo <= w
  }

  /** The penalty cached at root r, 0 for an index outside the heap. */
  function PenaltyOf(h: seq<Node>, r: nat): (p: real)
    ensures r < |h| ==> p == h[r].penalty
  {
    if r < |h| then h[r].penalty else 0.0
  }

  lemma KeptTrans(h: seq<Node>, h1: seq<Node>, h2: seq<Node>)
    requires Kept(h, h1) && Kept(h1, h2)
    ensures Kept(h, h2)
  {
    assert h2[..|h|] == h2[..|h1|][..|h|];
  }

  /** Rewriting records only at or above |base| keeps base. */
  lemma KeptOutside(base: seq<Node>, h: seq<Node>, h': seq<Node>, F: set<nat>)
    requires Kept(base, h) && |h'| == |h|
    requires forall w :: 0 <= w < |h| && w !in F ==> h'[w] == h[w]
    requires forall w :: w in F ==> |base| <= w
    ensures Kept(base, h')
  {
    forall w | 0 <= w < |base|
      ensures h'[w] == base[w]
    {
      assert h[..|base|][w] == h[w];
    }
  }

  /** A shaped tree with a non-terminal root has at least two nodes. */
  lemma TwoNodes(t: Tree)
    requires Shaped(t) && 1 <= t.oper.arity
    ensures 2 <= Size(t)
  {
    assert Size(t.kids[|t.kids| - 1]) >= 1;
  }

  // ---------------------------------------------------------------------------
  // Recalculating and scoring a root

  /** recalculateSubtreeSizes on a root: its whole tree is recalculated, and nothing outside it changes. */
  method RecalcRoot(h: seq<Node>, x: nat, ghost t: Tree) returns (h': seq<Node>)
    requires Represents(h, x, t, None)
    ensures Represents(h', x, Recalc(t), None) && Footprint(h', x, Recalc(t)) <= Footprint(h, x, t)
    ensures |h'| == |h| && forall w :: 0 <= w < |h| && w !in Footprint(h, x, t) ==> h'[w] == h[w]
  {
    h' := RecalculateSubtreeSizes(h, x, x, t, []);
  }

  /** setPenalty(penalty->calculate(contexts, *root)): only the root record's penalty changes. */
  method Score(h: seq<Node>, x: nat, ghost t: Tree, penalty: (seq<Node>, nat) -> real)
    returns (h': seq<Node>, ghost t': Tree)
    requires Represents(h, x, t, None)
    ensures t' == t.(penalty := penalty(h, x))
    ensures h' == h[x := h[x].(penalty := penalty(h, x))]
    ensures Represents(h', x, t', None) && Footprint(h', x, t') == Footprint(h, x, t)
  {
    h' := h[x := h[x].(penalty := penalty(h, x))];
    t' := t.(penalty := penalty(h, x));
    FootprintInside(h, x, t, None);
    Retag(h, h', x, t, None, t', None);
  }

  /** A subtree whose nodes are all outside the rewritten ones is unaffected. */
  lemma Untouched(h: seq<Node>, h': seq<Node>, x: nat, t: Tree, F: set<nat>)
    requires Represents(h, x, t, None) && Footprint(h, x, t) !! F
    requires |h| <= |h'| && forall w :: 0 <= w < |h| && w !in F ==> h'[w] == h[w]
    ensures Represents(h', x, t, None) && Footprint(h', x, t) == Footprint(h, x, t)
  {
    FootprintInside(h, x, t, None);
    Frame(h, h', x, t, None);
  }

  /** Recalculating and scoring a sound tree gives a member of the same shape. */
  lemma Settled(t: Tree, pen: real, maxDepth: nat, maxNodes: nat)
    requires Sound(t, maxDepth, maxNodes)
    ensures Member(Recalc(t).(penalty := pen), maxDepth, maxNodes)
    ensures Recalc(t).(penalty := pen).oper == t.oper
  {
    RecalcKeeps(t);
    var r := Recalc(t);
    assert Size(r.(penalty := pen)) == Size(r) && Depth(r.(penalty := pen)) == Depth(r);
  }

  // ---------------------------------------------------------------------------
  // Paths on an extended heap

  /** Following a path inside a subtree reads only its records, so appending records does not change where it leads. */
  lemma {:induction false} LocateGrow(h: seq<Node>, h': seq<Node>, x: nat, t: Tree, par: Option<nat>, p: seq<nat>)
    requires Represents(h, x, t, par) && ValidPath(t, p) && Kept(h, h')
    ensures Locate(h', x, p) == Locate(h, x, p)
    decreases p
  {
    if p != [] {
      assert h'[..|h|][x] == h'[x];
      LocateGrow(h, h', h[x].children[p[0]], t.kids[p[0]], Some(x), p[1..]);
    }
  }

  /** The node at the end of a non-empty path, its parent and its slot in the parent. */
  lemma Slot(h: seq<Node>, x: nat, t: Tree, p: seq<nat>)
    requires Represents(h, x, t, None) && ValidPath(t, p) && p != []
    ensures var q := Locate(h, x, p[..|p| - 1]); var n := Locate(h, x, p);
      && q < |h| && p[|p| - 1] < |h[q].children| && h[q].children[p[|p| - 1]] == n
      && Represents(h, n, At(t, p), Some(q))
      && q in Footprint(h, x, t) - Footprint(h, n, At(t, p))
      && n in Footprint(h, n, At(t, p)) && Footprint(h, n, At(t, p)) <= Footprint(h, x, t)
  {
    var pre := p[..|p| - 1];
    var i := p[|p| - 1];
    PathPrefix(t, p);
    assert pre + [i] == p;
    LocateSnoc(h, x, t, None, pre, i);
    LocateLemma(h, x, t, None, p);
    LocateLemma(h, x, t, None, pre);
    var q := Locate(h, x, pre);
    var n := Locate(h, x, p);
    FootprintInside(h, n, At(t, p), Some(q));
    FootprintInside(h, q, At(t, pre), if pre == [] then None else Some(Locate(h, x, pre[..|pre| - 1])));
    assert q !in Footprint(h, h[q].children[i], At(t, pre).kids[i]);
  }

  // ---------------------------------------------------------------------------
  // mutate

  /** The bounds a mutant keeps: the replacement subtree gets exactly the slack the removed one leaves. */
  lemma MutantBounds(t: Tree, p: seq<nat>, g: Tree, maxDepth: nat, maxNodes: nat)
    requires ValidPath(t, p) && p != [] && Sound(t, maxDepth, maxNodes) && Shaped(g)
    requires Size(g) <= maxNodes - Size(t) + Size(At(t, p))
    requires Depth(g) <= maxDepth - Depth(t) + Depth(At(t, p))
    ensures Sound(Replace(t, p, g), maxDepth, maxNodes) && Replace(t, p, g).oper == t.oper
  {
    ReplaceSize(t, p, g);
    ReplaceDepth(t, p, g);
    ReplaceShaped(t, p, g);
  }

  /**
   * The splice of mutate on the clone c of t: the grown subtree z, appended
   * after h1, is hung in slot p[|p| - 1] of the parent q of the removed node.
   */
  lemma MutantSplice(h: seq<Node>, h1: seq<Node>, h2: seq<Node>, h3: seq<Node>, c: nat, t: Tree, p: seq<nat>, z: nat, g: Tree)
    requires Kept(h, h1) && Kept(h1, h2) && Represents(h1, c, t, None) && ValidPath(t, p) && p != []
    requires forall w :: w in Footprint(h1, c, t) ==> |h| <= w < |h1|
    requires Appended(h1, h2, z, g, Some(Locate(h1, c, p[..|p| - 1])))
    requires var q := Locate(h1, c, p[..|p| - 1]);
      q < |h2| && p[|p| - 1] < |h2[q].children| && h3 == h2[q := h2[q].(children := h2[q].children[p[|p| - 1] := z])]
    ensures Represents(h3, c, Replace(t, p, g), None) && Kept(h, h3)
    ensures forall w :: w in Footprint(h3, c, Replace(t, p, g)) ==> |h| <= w < |h3|
  {
    var pre := p[..|p| - 1];
    var q := Locate(h1, c, pre);
    var F := Footprint(h1, c, t);
    var G := Footprint(h2, z, g);
    assert Represents(h2, c, t, None) && Footprint(h2, c, t) == F by {
      Extend(h1, h2, c, t, None);
    }
    assert q == Locate(h2, c, pre) && Locate(h2, c, p) == Locate(h1, c, p) by {
      PathPrefix(t, p);
      LocateGrow(h1, h2, c, t, None, pre);
      LocateGrow(h1, h2, c, t, None, p);
    }
    assert q in F by {
      Slot(h2, c, t, p);
    }
    assert Represents(h3, z, g, Some(q)) && Footprint(h3, z, g) == G by {
      AgreeExcept(h2, h3, q, G);
      Frame(h2, h3, z, g, Some(q));
    }
    var Z := Footprint(h2, Locate(h2, c, p), At(t, p));
    assert Agree(h2, h3, F - Z - {q}) by {
      AgreeExcept(h2, h3, q, F - Z - {q});
    }
    Graft(h2, h3, c, t, None, p, q, z, g);
    KeptSlot(h, h1, h2, h3, q);
  }

  /** Rewriting one record allocated after `base` keeps `base`. */
  lemma KeptSlot(base: seq<Node>, h1: seq<Node>, h2: seq<Node>, h3: seq<Node>, q: nat)
    requires Kept(base, h1) && Kept(h1, h2) && |base| <= q < |h2| == |h3| && h3 == h2[q := h3[q]]
    ensures Kept(base, h3)
  {
    KeptTrans(base, h1, h2);
    KeptOutside(base, h2, h3, {q});
  }

  /** Rewriting one record leaves every other one as it was. */
  lemma AgreeExcept(h: seq<Node>, h': seq<Node>, q: nat, S: set<nat>)
    requires q < |h| && q < |h'| && h' == h[q := h'[q]] && q !in S
    requires forall w :: w in S ==> w < |h|
    ensures Agree(h, h', S)
  {
  }

  /** The replacement g for the subtree at p of t fits the slack that subtree leaves. */
  ghost predicate Regrown(t: Tree, p: seq<nat>, g: Tree, maxDepth: nat, maxNodes: nat)
  {
    && ValidPath(t, p) && p != [] && Shaped(g)
    && Size(g) <= maxNodes - Size(t) + Size(At(t, p))
    && Depth(g) <= maxDepth - Depth(t) + Depth(At(t, p))
  }

  /** The first half of mutate: clone, pick a non-root node, grow its replacement into the freed slack and splice it in. */
  method Regrow(ghost ops: seq<Operator>, cat: Catalog, h: seq<Node>, x: nat, ghost t: Tree,
                maxDepth: nat, maxNodes: nat, rng: Rng)
    returns (h': seq<Node>, c: nat, ghost p: seq<nat>, ghost g: Tree, rng': Rng)
    requires Built(cat, ops) && 1 <= cat.counts[0] && rng.Valid()
    requires Represents(h, x, t, None) && Member(t, maxDepth, maxNodes)
    ensures rng'.Valid() && Kept(h, h') && c == |h| && Regrown(t, p, g, maxDepth, maxNodes)
    ensures Represents(h', c, Replace(t, p, g), None) && Above(h', c, Replace(t, p, g), |h|)
  {
    var h1;
    h1, c := Clone(h, x, t, None, None);
    TwoNodes(t);
    var node, slot, rng1, rank := GetRandomNode(h1, c, t, None, rng);
    p := PathAt(t, rank);
    Slot(h1, c, t, p);
    CachedAt(t, p);
    ReplaceSize(t, p, t);
    ReplaceDepth(t, p, t);
    var q := h1[node].parent.value;
    var depthBudget: nat := maxDepth - h1[c].depth + h1[node].depth;
    var nodeBudget: nat := maxNodes - h1[c].size + h1[node].size;
    var h2, z;
    h2, z, g, rng' := Grow(ops, cat, h1, depthBudget, nodeBudget, h1[node].parent, false, rng1);
    h' := h2[q := h2[q].(children := h2[q].children[slot := z])];
    MutantSplice(h, h1, h2, h', c, t, p, z, g);
  }

  /**
   * GP::mutate on the member at x: a clone, a random non-root node of it,
   * a grown subtree in that node's place with the slack the clone leaves,
   * then the caches of the whole clone recalculated and its penalty set.
   * The input is only read; the mutant is fresh, keeps the root operator
   * and stays a member.
   */
  method MutateTree(ghost ops: seq<Operator>, cat: Catalog, h: seq<Node>, x: nat, ghost t: Tree,
                    maxDepth: nat, maxNodes: nat, penalty: (seq<Node>, nat) -> real, rng: Rng)
    returns (h': seq<Node>, y: nat, ghost t': Tree, rng': Rng, ghost p: seq<nat>, ghost g: Tree)
    requires Built(cat, ops) && 1 <= cat.counts[0] && rng.Valid()
    requires Represents(h, x, t, None) && Member(t, maxDepth, maxNodes)
    ensures rng'.Valid() && Appended(h, h', y, t', None) && Member(t', maxDepth, maxNodes)
    ensures t'.oper == t.oper && Regrown(t, p, g, maxDepth, maxNodes)
    ensures Scored(t', Replace(t, p, g), penalty)
  {
    var h3;
    h3, y, p, g, rng' := Regrow(ops, cat, h, x, t, maxDepth, maxNodes, rng);
    ghost var T := Replace(t, p, g);
    MutantBounds(t, p, g, maxDepth, maxNodes);
    h', t' := Finish(h3, y, T, penalty);
    KeptOutside(h, h3, h', Footprint(h3, y, T));
    Settled(T, t'.penalty, maxDepth, maxNodes);
    FootprintInside(h', y, t', None);
  }

  /**
   * o is T with its caches recalculated, carrying the penalty IPenalty
   * gives on a heap whose tree at the scored root is that recalculated T:
   * what setPenalty(penalty->calculate(...)) leaves after
   * recalculateSubtreeSizes.
   */
  ghost predicate Scored(o: Tree, T: Tree, penalty: (seq<Node>, nat) -> real)
  {
    && o == Recalc(T).(penalty := o.penalty)
    && exists hs: seq<Node>, y: nat :: Represents(hs, y, Recalc(T), None) && o.penalty == penalty(hs, y)
  }

  /** recalculateSubtreeSizes, then setPenalty, on a root: only records of its tree change. */
  method Finish(h: seq<Node>, x: nat, ghost t: Tree, penalty: (seq<Node>, nat) -> real)
    returns (h': seq<Node>, ghost t': Tree)
    requires Represents(h, x, t, None)
    ensures Represents(h', x, t', None) && Scored(t', t, penalty)
    ensures Footprint(h', x, t') <= Footprint(h, x, t)
    ensures |h'| == |h| && forall w :: 0 <= w < |h| && w !in Footprint(h, x, t) ==> h'[w] == h[w]
  {
    var h1 := RecalcRoot(h, x, t);
    FootprintInside(h, x, t, None);
    h', t' := Score(h1, x, Recalc(t), penalty);
    assert Represents(h1, x, Recalc(t), None) && t'.penalty == penalty(h1, x);
  }

  // ---------------------------------------------------------------------------
  // cross

  /** The heap after cross's std::swap of two child slots and the exchange of the two parent pointers. */
  function SwapLinks(h: seq<Node>, q1: nat, i1: nat, n1: nat, q2: nat, i2: nat, n2: nat): (r: seq<Node>)
    ensures |r| == |h|
  {
    seq(|h|, w requires 0 <= w < |h| =>
      if w == q1 && i1 < |h[q1].children| then h[q1].(children := h[q1].children[i1 := n2])
      else if w == q2 && i2 < |h[q2].children| then h[q2].(children := h[q2].children[i2 := n1])
      else if w == n1 then h[n1].(parent := Some(q2))
      else if w == n2 then h[n2].(parent := Some(q1))
      else h[w])
  }

  /** With four distinct records the exchange does not depend on which side is named first. */
  lemma SwapLinksSymmetric(h: seq<Node>, q1: nat, i1: nat, n1: nat, q2: nat, i2: nat, n2: nat)
    requires q1 != q2 && q1 != n1 && q1 != n2 && q2 != n1 && q2 != n2 && n1 != n2
    ensures SwapLinks(h, q1, i1, n1, q2, i2, n2) == SwapLinks(h, q2, i2, n2, q1, i1, n1)
  {
  }

  /** Where cross exchanges subtrees: a non-empty path in each parent. */
  ghost predicate CrossPoints(t1: Tree, p1: seq<nat>, t2: Tree, p2: seq<nat>)
  {
    ValidPath(t1, p1) && p1 != [] && ValidPath(t2, p2) && p2 != []
  }

  /**
   * One side of the exchange: the tree at c, whose subtree at p moved to
   * the other tree while the other's subtree at po moved in.
   */
  lemma SwapSide(h: seq<Node>, h': seq<Node>, c: nat, t: Tree, p: seq<nat>, co: nat, to: Tree, po: seq<nat>)
    requires Represents(h, c, t, None) && Represents(h, co, to, None) && Footprint(h, c, t) !! Footprint(h, co, to)
    requires CrossPoints(t, p, to, po)
    requires h' == SwapLinks(h, Locate(h, c, p[..|p| - 1]), p[|p| - 1], Locate(h, c, p),
                                Locate(h, co, po[..|po| - 1]), po[|po| - 1], Locate(h, co, po))
    ensures Represents(h', c, Replace(t, p, At(to, po)), None)
    ensures Footprint(h', c, Replace(t, p, At(to, po))) <= Footprint(h, c, t) - Footprint(h, Locate(h, c, p), At(t, p)) + Footprint(h, Locate(h, co, po), At(to, po))
  {
    var q, n := Locate(h, c, p[..|p| - 1]), Locate(h, c, p);
    var qo, no := Locate(h, co, po[..|po| - 1]), Locate(h, co, po);
    Slot(h, c, t, p);
    Slot(h, co, to, po);
    SwapAlgebra(Footprint(h, c, t), Footprint(h, co, to), Footprint(h, n, At(t, p)), Footprint(h, no, At(to, po)), q, n, qo, no);
    SwapLinksAt(h, q, p[|p| - 1], n, qo, po[|po| - 1], no);
    SwapIncoming(h, h', c, t, p, co, to, po, q, n, qo, no);
    Graft(h, h', c, t, None, p, q, no, At(to, po));
  }

  /** Before the graft: the slot at q now holds the incoming subtree, which is intact, and the rest of the tree at c is unchanged. */
  lemma SwapIncoming(h: seq<Node>, h': seq<Node>, c: nat, t: Tree, p: seq<nat>, co: nat, to: Tree, po: seq<nat>,
                     q: nat, n: nat, qo: nat, no: nat)
    requires Represents(h, c, t, None) && Represents(h, co, to, None) && Footprint(h, c, t) !! Footprint(h, co, to)
    requires CrossPoints(t, p, to, po)
    requires q == Locate(h, c, p[..|p| - 1]) && n == Locate(h, c, p)
    requires qo == Locate(h, co, po[..|po| - 1]) && no == Locate(h, co, po)
    requires q < |h| && p[|p| - 1] < |h[q].children| && no < |h| && |h'| == |h|
    requires h'[q] == h[q].(children := h[q].children[p[|p| - 1] := no]) && h'[no] == h[no].(parent := Some(q))
    requires forall w :: 0 <= w < |h| && w !in {q, n, qo, no} ==> h'[w] == h[w]
    ensures q < |h| && q < |h'| && p[|p| - 1] < |h[q].children|
    ensures h'[q] == h[q].(children := h[q].children[p[|p| - 1] := no])
    ensures Agree(h, h', Footprint(h, c, t) - Footprint(h, n, At(t, p)) - {q})
    ensures Represents(h', no, At(to, po), Some(q)) && Footprint(h', no, At(to, po)) == Footprint(h, no, At(to, po))
    ensures Footprint(h, no, At(to, po)) !! Footprint(h, c, t) - Footprint(h, n, At(t, p))
  {
    var F, Fo := Footprint(h, c, t), Footprint(h, co, to);
    var Z, Zo := Footprint(h, n, At(t, p)), Footprint(h, no, At(to, po));
    Slot(h, c, t, p);
    Slot(h, co, to, po);
    SwapAlgebra(F, Fo, Z, Zo, q, n, qo, no);
    ghost var D := {q, n, qo, no};
    Reparented(h, h', no, At(to, po), qo, q, D);
    FootprintInside(h, c, t, None);
    AgreeOff(h, h', F - Z - {q}, D);
  }

  /** A subtree whose root only changed its parent, with every other record outside D kept, still represents the same tree. */
  lemma Reparented(h: seq<Node>, h': seq<Node>, x: nat, u: Tree, par: nat, par': nat, D: set<nat>)
    requires Represents(h, x, u, Some(par))
    requires |h'| == |h| && forall w :: 0 <= w < |h| && w !in D ==> h'[w] == h[w]
    requires Footprint(h, x, u) - {x} !! D
    requires x < |h| && h'[x] == h[x].(parent := Some(par'))
    ensures Represents(h', x, u, Some(par')) && Footprint(h', x, u) == Footprint(h, x, u)
  {
    FootprintInside(h, x, u, Some(par));
    AgreeOff(h, h', Footprint(h, x, u) - {x}, D);
    Retag(h, h', x, u, Some(par), u, Some(par'));
  }

  /** The set reasoning of SwapSide: the four rewritten records lie outside what each side keeps. */
  lemma SwapAlgebra(F: set<nat>, Fo: set<nat>, Z: set<nat>, Zo: set<nat>, q: nat, n: nat, qo: nat, no: nat)
    requires F !! Fo && q in F - Z && n in Z && Z <= F && qo in Fo - Zo && no in Zo && Zo <= Fo
    ensures q != n && q != qo && q != no && n != qo && n != no && qo != no
    ensures Zo - {no} !! {q, n, qo, no} && F - Z - {q} !! {q, n, qo, no}
    ensures Zo !! F - Z
  {
  }

  /** The exchange rewrites four records, each as cross does, and no other. */
  lemma SwapLinksAt(h: seq<Node>, q1: nat, i1: nat, n1: nat, q2: nat, i2: nat, n2: nat)
    requires q1 != q2 && q1 != n1 && q1 != n2 && q2 != n1 && q2 != n2 && n1 != n2
    requires q1 < |h| && i1 < |h[q1].children| && n2 < |h|
    ensures var r := SwapLinks(h, q1, i1, n1, q2, i2, n2);
      && r[q1] == h[q1].(children := h[q1].children[i1 := n2])
      && r[n2] == h[n2].(parent := Some(q1))
      && forall w :: 0 <= w < |h| && w !in {q1, n1, q2, n2} ==> r[w] == h[w]
  {
  }

  /** Records outside D are unchanged, so the two heaps agree on any set of records apart from D. */
  lemma AgreeOff(h: seq<Node>, h': seq<Node>, S: set<nat>, D: set<nat>)
    requires |h'| == |h| && forall w :: 0 <= w < |h| && w !in D ==> h'[w] == h[w]
    requires S !! D && forall w :: w in S ==> w < |h|
    ensures Agree(h, h', S)
  {
  }

  /** cross's statements, from std::swap of the two slots to the second setParent, leave the exchanged heap. */
  lemma SwapSteps(h: seq<Node>, q1: nat, i1: nat, n1: nat, q2: nat, i2: nat, n2: nat)
    requires q1 != q2 && q1 != n1 && q1 != n2 && q2 != n1 && q2 != n2 && n1 != n2
    requires q1 < |h| && q2 < |h| && n1 < |h| && n2 < |h|
    requires i1 < |h[q1].children| && i2 < |h[q2].children|
    requires h[q1].children[i1] == n1 && h[q2].children[i2] == n2
    requires h[n1].parent == Some(q1) && h[n2].parent == Some(q2)
    ensures var a := h[q1 := h[q1].(children := h[q1].children[i1 := h[q2].children[i2]])];
            var b := a[q2 := a[q2].(children := a[q2].children[i2 := h[q1].children[i1]])];
            var c := b[n1 := b[n1].(parent := b[n2].parent)];
            var d := c[n2 := c[n2].(parent := b[n1].parent)];
            d == SwapLinks(h, q1, i1, n1, q2, i2, n2)
  {
  }

  /**
   * Both clones after the exchange: each represents its parent tree with
   * the other's subtree spliced in, and the two offspring share no node.
   */
  lemma ExchangeSides(lo: nat, h2: seq<Node>, h': seq<Node>, c1: nat, t1: Tree, p1: seq<nat>, c2: nat, t2: Tree, p2: seq<nat>)
    requires Represents(h2, c1, t1, None) && Represents(h2, c2, t2, None) && CrossPoints(t1, p1, t2, p2)
    requires Above(h2, c1, t1, lo) && Above(h2, c2, t2, lo) && Footprint(h2, c1, t1) !! Footprint(h2, c2, t2)
    requires h' == SwapLinks(h2, Locate(h2, c1, p1[..|p1| - 1]), p1[|p1| - 1], Locate(h2, c1, p1),
                                 Locate(h2, c2, p2[..|p2| - 1]), p2[|p2| - 1], Locate(h2, c2, p2))
    ensures Represents(h', c1, Replace(t1, p1, At(t2, p2)), None) && Above(h', c1, Replace(t1, p1, At(t2, p2)), lo)
    ensures Represents(h', c2, Replace(t2, p2, At(t1, p1)), None) && Above(h', c2, Replace(t2, p2, At(t1, p1)), lo)
    ensures Footprint(h', c1, Replace(t1, p1, At(t2, p2))) !! Footprint(h', c2, Replace(t2, p2, At(t1, p1)))
  {
    var q1, n1 := Locate(h2, c1, p1[..|p1| - 1]), Locate(h2, c1, p1);
    var q2, n2 := Locate(h2, c2, p2[..|p2| - 1]), Locate(h2, c2, p2);
    var F1, F2 := Footprint(h2, c1, t1), Footprint(h2, c2, t2);
    var Z1, Z2 := Footprint(h2, n1, At(t1, p1)), Footprint(h2, n2, At(t2, p2));
    var O1, O2 := Replace(t1, p1, At(t2, p2)), Replace(t2, p2, At(t1, p1));
    assert F1 !! F2;
    assert Z1 <= F1 && Z2 <= F2 && q1 in F1 - Z1 && n1 in Z1 && q2 in F2 - Z2 && n2 in Z2 by {
      Slot(h2, c1, t1, p1);
      Slot(h2, c2, t2, p2);
    }
    assert Represents(h', c1, O1, None) && Footprint(h', c1, O1) <= F1 - Z1 + Z2 by {
      SwapSide(h2, h', c1, t1, p1, c2, t2, p2);
    }
    assert Represents(h', c2, O2, None) && Footprint(h', c2, O2) <= F2 - Z2 + Z1 by {
      SwapLinksSymmetric(h2, q1, p1[|p1| - 1], n1, q2, p2[|p2| - 1], n2);
      SwapSide(h2, h', c2, t2, p2, c1, t1, p1);
    }
    Apart(F1, F2, Z1, Z2, Footprint(h', c1, O1), Footprint(h', c2, O2), lo);
  }

  /** The offspring's nodes: each keeps its own parent's nodes outside the exchanged subtree and gains the other's. */
  lemma Apart(F1: set<nat>, F2: set<nat>, Z1: set<nat>, Z2: set<nat>, A1: set<nat>, A2: set<nat>, lo: nat)
    requires F1 !! F2 && Z1 <= F1 && Z2 <= F2 && A1 <= F1 - Z1 + Z2 && A2 <= F2 - Z2 + Z1
    requires forall w :: w in F1 ==> lo <= w
    requires forall w :: w in F2 ==> lo <= w
    ensures A1 !! A2 && (forall w :: w in A1 ==> lo <= w) && (forall w :: w in A2 ==> lo <= w)
  {
  }

  /** The two clones at c1 and c2 and the node each exchanges: the one at path p1 (slot i1 of its parent), the one at p2 (slot i2). */
  ghost predicate Picked(h: seq<Node>, h2: seq<Node>, c1: nat, t1: Tree, p1: seq<nat>, n1: nat, i1: nat,
                         c2: nat, t2: Tree, p2: seq<nat>, n2: nat, i2: nat)
  {
    && Kept(h, h2) && c1 == |h| && CrossPoints(t1, p1, t2, p2)
    && Represents(h2, c1, t1, None) && Represents(h2, c2, t2, None)
    && Above(h2, c1, t1, |h|) && Above(h2, c2, t2, |h|) && Footprint(h2, c1, t1) !! Footprint(h2, c2, t2)
    && n1 == Locate(h2, c1, p1) && i1 == p1[|p1| - 1] && n2 == Locate(h2, c2, p2) && i2 == p2[|p2| - 1]
  }

  /** The first lines of cross: both parents cloned, then a random non-root node drawn in each clone. */
  method PickPoints(h: seq<Node>, x1: nat, ghost t1: Tree, x2: nat, ghost t2: Tree, rng: Rng)
    returns (h2: seq<Node>, c1: nat, c2: nat, n1: nat, i1: nat, n2: nat, i2: nat, ghost p1: seq<nat>, ghost p2: seq<nat>, rng': Rng)
    requires Represents(h, x1, t1, None) && Represents(h, x2, t2, None) && rng.Valid()
    requires Cached(t1) && Cached(t2) && 2 <= Size(t1) && 2 <= Size(t2)
    ensures rng'.Valid() && Picked(h, h2, c1, t1, p1, n1, i1, c2, t2, p2, n2, i2)
  {
    var h1;
    h1, c1 := Clone(h, x1, t1, None, None);
    Extend(h, h1, x2, t2, None);
    h2, c2 := Clone(h1, x2, t2, None, None);
    Extend(h1, h2, c1, t1, None);
    KeptTrans(h, h1, h2);
    ghost var r1, r2;
    n1, i1, rng', r1 := GetRandomNode(h2, c1, t1, None, rng);
    n2, i2, rng', r2 := GetRandomNode(h2, c2, t2, None, rng');
    p1, p2 := PathAt(t1, r1), PathAt(t2, r2);
  }

  /** What the exchange reads off the picked nodes: their parents and slots, four distinct records, and the cached measures. */
  lemma PickedSlots(h: seq<Node>, h2: seq<Node>, c1: nat, t1: Tree, p1: seq<nat>, n1: nat, i1: nat,
                    c2: nat, t2: Tree, p2: seq<nat>, n2: nat, i2: nat)
    requires Picked(h, h2, c1, t1, p1, n1, i1, c2, t2, p2, n2, i2) && Cached(t1) && Cached(t2)
    ensures var q1, q2 := Locate(h2, c1, p1[..|p1| - 1]), Locate(h2, c2, p2[..|p2| - 1]);
      && q1 < |h2| && q2 < |h2| && n1 < |h2| && n2 < |h2|
      && q1 != q2 && q1 != n1 && q1 != n2 && q2 != n1 && q2 != n2 && n1 != n2
      && |h| <= q1 && |h| <= q2 && |h| <= n1 && |h| <= n2
      && i1 < |h2[q1].children| && i2 < |h2[q2].children|
      && h2[q1].children[i1] == n1 && h2[q2].children[i2] == n2
      && h2[n1].parent == Some(q1) && h2[n2].parent == Some(q2)
      && h2[n1].size == Size(At(t1, p1)) && h2[n1].depth == Depth(At(t1, p1))
      && h2[n2].size == Size(At(t2, p2)) && h2[n2].depth == Depth(At(t2, p2))
  {
    Slot(h2, c1, t1, p1);
    Slot(h2, c2, t2, p2);
    CachedAt(t1, p1);
    CachedAt(t2, p2);
  }

  /**
   * The exchange of cross: both parents cloned, a random non-root node
   * picked in each clone, the two child slots swapped and the two parent
   * pointers exchanged. The cached measures are not yet updated: the roots
   * still hold the parents' sizes and depths, the exchanged nodes their own.
   */
  method Exchange(h: seq<Node>, x1: nat, ghost t1: Tree, x2: nat, ghost t2: Tree, rng: Rng)
    returns (h': seq<Node>, c1: nat, c2: nat, n1: nat, n2: nat, ghost p1: seq<nat>, ghost p2: seq<nat>, rng': Rng)
    requires Represents(h, x1, t1, None) && Represents(h, x2, t2, None) && rng.Valid()
    requires Cached(t1) && Cached(t2) && 2 <= Size(t1) && 2 <= Size(t2)
    ensures rng'.Valid() && Kept(h, h') && c1 == |h| && CrossPoints(t1, p1, t2, p2)
    ensures Represents(h', c1, Replace(t1, p1, At(t2, p2)), None) && Above(h', c1, Replace(t1, p1, At(t2, p2)), |h|)
    ensures Represents(h', c2, Replace(t2, p2, At(t1, p1)), None) && Above(h', c2, Replace(t2, p2, At(t1, p1)), |h|)
    ensures Footprint(h', c1, Replace(t1, p1, At(t2, p2))) !! Footprint(h', c2, Replace(t2, p2, At(t1, p1)))
    ensures n1 < |h'| && h'[n1].size == Size(At(t1, p1)) && h'[n1].depth == Depth(At(t1, p1))
    ensures n2 < |h'| && h'[n2].size == Size(At(t2, p2)) && h'[n2].depth == Depth(At(t2, p2))
  {
    var h2, i1, i2;
    h2, c1, c2, n1, i1, n2, i2, p1, p2, rng' := PickPoints(h, x1, t1, x2, t2, rng);
    PickedSlots(h, h2, c1, t1, p1, n1, i1, c2, t2, p2, n2, i2);
    var q1, q2 := h2[n1].parent.value, h2[n2].parent.value;
    SwapSteps(h2, q1, i1, n1, q2, i2, n2);
    // std::swap of the two child slots
    var slot1, slot2 := h2[q1].children[i1], h2[q2].children[i2];
    h' := h2[q1 := h2[q1].(children := h2[q1].children[i1 := slot2])];
    h' := h'[q2 := h'[q2].(children := h'[q2].children[i2 := slot1])];
    // the parents fixed
    var tmp := h'[n1].parent;
    h' := h'[n1 := h'[n1].(parent := h'[n2].parent)];
    h' := h'[n2 := h'[n2].(parent := tmp)];
    assert h' == SwapLinks(h2, q1, i1, n1, q2, i2, n2);
    ExchangeSides(|h|, h2, h', c1, t1, p1, c2, t2, p2);
    SwapKeeps(h, h2, q1, i1, n1, q2, i2, n2);
  }

  /** The exchange rewrites only records of the two clones, so the heap before cross is kept. */
  lemma SwapKeeps(h: seq<Node>, h2: seq<Node>, q1: nat, i1: nat, n1: nat, q2: nat, i2: nat, n2: nat)
    requires Kept(h, h2) && |h| <= q1 && |h| <= q2 && |h| <= n1 && |h| <= n2
    ensures Kept(h, SwapLinks(h2, q1, i1, n1, q2, i2, n2))
  {
    var r := SwapLinks(h2, q1, i1, n1, q2, i2, n2);
    forall w | 0 <= w < |h|
      ensures r[w] == h[w]
    {
      assert h2[..|h|][w] == h2[w];
    }
  }

  /** cross's test for one offspring, on the parent's size and depth and those of the two exchanged subtrees. */
  ghost predicate Admitted(t: Tree, p: seq<nat>, s: Tree, maxDepth: nat, maxNodes: nat)
    requires ValidPath(t, p)
  {
    && Depth(t) - Depth(At(t, p)) + Depth(s) <= maxDepth
    && Size(t) - Size(At(t, p)) + Size(s) <= maxNodes
  }

  /** The node-count test is exact: it admits an offspring exactly when the offspring has at most maxNodes nodes. */
  lemma SizeCheckExact(t: Tree, p: seq<nat>, s: Tree, maxNodes: nat)
    requires ValidPath(t, p)
    ensures Size(Replace(t, p, s)) <= maxNodes <==> Size(t) - Size(At(t, p)) + Size(s) <= maxNodes
  {
    ReplaceSize(t, p, s);
  }

  /** An admitted offspring of a sound parent and a well-shaped subtree is sound: the depth test never lets a too-deep tree through. */
  lemma CrossSound(t: Tree, p: seq<nat>, s: Tree, maxDepth: nat, maxNodes: nat)
    requires Sound(t, maxDepth, maxNodes) && ValidPath(t, p) && p != [] && Shaped(s)
    requires Admitted(t, p, s, maxDepth, maxNodes)
    ensures Sound(Replace(t, p, s), maxDepth, maxNodes) && Replace(t, p, s).oper == t.oper
  {
    ReplaceSize(t, p, s);
    ReplaceDepth(t, p, s);
    ReplaceShaped(t, p, s);
  }

  /**
   * The depth test is only an upper bound: with any terminal a, unary
   * operator u and binary operator b, the tree b(a, u(a)) has depth 3;
   * putting u(a) in place of its first child still gives depth 3, yet the
   * test computes 3 - 1 + 2 = 4 and rejects the offspring when maxDepth is 3.
   */
  lemma DepthCheckRejectsFitting(a: Operator, u: Operator, b: Operator)
    requires a.arity == 0 && u.arity == 1 && b.arity == 2
    ensures var leaf := Tree(a, 1, 1, 0.0, []);
      var chain := Tree(u, 2, 2, 0.0, [leaf]);
      var t := Tree(b, 4, 3, 0.0, [leaf, chain]);
      && ValidPath(t, [0]) && Sound(t, 3, 10) && Shaped(chain)
      && Sound(Replace(t, [0], chain), 3, 10)
      && !Admitted(t, [0], chain, 3, 10)
  {
    var leaf := Tree(a, 1, 1, 0.0, []);
    var chain := Tree(u, 2, 2, 0.0, [leaf]);
    var t := Tree(b, 4, 3, 0.0, [leaf, chain]);
    assert Size(leaf) == 1 && Depth(leaf) == 1;
    assert [leaf][..0] == [];
    assert SizeOf([leaf]) == 1 && DepthOf([leaf]) == 1;
    assert Size(chain) == 2 && Depth(chain) == 2;
    assert [leaf, chain][..1] == [leaf];
    assert SizeOf([leaf, chain]) == 3 && DepthOf([leaf, chain]) == 2;
    var r := Replace(t, [0], chain);
    assert [0][1..] == [];
    assert ValidPath(leaf, []) && Replace(leaf, [], chain) == chain;
    assert r.kids == [leaf, chain][0 := chain];
    assert r.kids == [chain, chain];
    assert [chain, chain][..1] == [chain] && [chain][..0] == [];
    assert SizeOf([chain]) == 2 && DepthOf([chain]) == 2;
    assert SizeOf([chain, chain]) == 4 && DepthOf([chain, chain]) == 2;
    assert Shaped(leaf) && Shaped(chain) && Shaped(t) && Shaped(r);
    assert ValidPath(t, [0]) && At(t, [0]) == leaf;
    assert !Admitted(t, [0], chain, 3, 10);
    assert Sound(t, 3, 10);
    assert Sound(r, 3, 10);
  }

  /** The trees cross keeps, in order: the first offspring if admitted, then the second if admitted. */
  ghost function Survivors(t1: Tree, p1: seq<nat>, t2: Tree, p2: seq<nat>, maxDepth: nat, maxNodes: nat): (s: seq<Tree>)
    requires CrossPoints(t1, p1, t2, p2)
    ensures |s| <= 2
  {
    (if Admitted(t1, p1, At(t2, p2), maxDepth, maxNodes) then [Replace(t1, p1, At(t2, p2))] else [])
    + (if Admitted(t2, p2, At(t1, p1), maxDepth, maxNodes) then [Replace(t2, p2, At(t1, p1))] else [])
  }

  /** A returned offspring: the tree at y, fresh above lo, is T recalculated and scored, and is a member. */
  ghost predicate Offspring(lo: nat, h: seq<Node>, y: nat, o: Tree, T: Tree, maxDepth: nat, maxNodes: nat,
                            penalty: (seq<Node>, nat) -> real)
  {
    && Represents(h, y, o, None) && Above(h, y, o, lo)
    && Scored(o, T, penalty) && o.oper == T.oper && Member(o, maxDepth, maxNodes)
  }

  /** recalculateSubtreeSizes and setPenalty on a lone surviving offspring. */
  method FinishOne(base: seq<Node>, h: seq<Node>, c: nat, ghost T: Tree, maxDepth: nat, maxNodes: nat,
                   penalty: (seq<Node>, nat) -> real)
    returns (h': seq<Node>, ghost o: Tree)
    requires Kept(base, h) && Represents(h, c, T, None) && Above(h, c, T, |base|) && Sound(T, maxDepth, maxNodes)
    ensures Kept(base, h') && |h'| == |h| && Offspring(|base|, h', c, o, T, maxDepth, maxNodes, penalty)
  {
    h', o := Finish(h, c, T, penalty);
    KeptOutside(base, h, h', Footprint(h, c, T));
    Settled(T, o.penalty, maxDepth, maxNodes);
  }

  /** The first half of cross with both offspring admitted: both clones recalculated, the first one first. */
  method RecalcBoth(base: seq<Node>, h: seq<Node>, c1: nat, ghost T1: Tree, c2: nat, ghost T2: Tree)
    returns (h': seq<Node>)
    requires Kept(base, h) && Represents(h, c1, T1, None) && Represents(h, c2, T2, None)
    requires Above(h, c1, T1, |base|) && Above(h, c2, T2, |base|) && Footprint(h, c1, T1) !! Footprint(h, c2, T2)
    ensures Kept(base, h') && |h'| == |h|
    ensures Represents(h', c1, Recalc(T1), None) && Represents(h', c2, Recalc(T2), None)
    ensures Above(h', c1, Recalc(T1), |base|) && Above(h', c2, Recalc(T2), |base|)
    ensures Footprint(h', c1, Recalc(T1)) !! Footprint(h', c2, Recalc(T2))
  {
    var h1 := RecalcRoot(h, c1, T1);
    assert Represents(h1, c2, T2, None) && Footprint(h1, c2, T2) == Footprint(h, c2, T2) by {
      Untouched(h, h1, c2, T2, Footprint(h, c1, T1));
    }
    assert Kept(base, h1) by {
      KeptOutside(base, h, h1, Footprint(h, c1, T1));
    }
    h' := RecalcRoot(h1, c2, T2);
    assert Represents(h', c1, Recalc(T1), None) && Footprint(h', c1, Recalc(T1)) == Footprint(h1, c1, Recalc(T1)) by {
      Untouched(h1, h', c1, Recalc(T1), Footprint(h1, c2, T2));
    }
    assert Kept(base, h') by {
      KeptOutside(base, h1, h', Footprint(h1, c2, T2));
    }
  }

  /** The second half: both recalculated clones scored, the first one first. */
  method ScoreBoth(base: seq<Node>, h: seq<Node>, c1: nat, ghost R1: Tree, c2: nat, ghost R2: Tree,
                   penalty: (seq<Node>, nat) -> real)
    returns (h': seq<Node>, ghost o1: Tree, ghost o2: Tree, ghost h1: seq<Node>)
    requires Kept(base, h) && Represents(h, c1, R1, None) && Represents(h, c2, R2, None)
    requires Above(h, c1, R1, |base|) && Above(h, c2, R2, |base|) && Footprint(h, c1, R1) !! Footprint(h, c2, R2)
    ensures Kept(base, h') && |h'| == |h| && o1 == R1.(penalty := penalty(h, c1))
    ensures Represents(h1, c2, R2, None) && o2 == R2.(penalty := penalty(h1, c2))
    ensures Represents(h', c1, o1, None) && Represents(h', c2, o2, None)
    ensures Above(h', c1, o1, |base|) && Above(h', c2, o2, |base|)
    ensures Footprint(h', c1, o1) !! Footprint(h', c2, o2)
  {
    assert c2 !in Footprint(h, c1, R1) && c1 !in Footprint(h, c2, R2) by {
      FootprintInside(h, c1, R1, None);
      FootprintInside(h, c2, R2, None);
    }
    var hm;
    hm, o1 := Score(h, c1, R1, penalty);
    h1 := hm;
    assert Represents(hm, c2, R2, None) && Footprint(hm, c2, R2) == Footprint(h, c2, R2) by {
      Untouched(h, hm, c2, R2, {c1});
    }
    h', o2 := Score(hm, c2, R2, penalty);
    assert Represents(h', c1, o1, None) && Footprint(h', c1, o1) == Footprint(hm, c1, o1) by {
      Untouched(hm, h', c1, o1, {c2});
    }
    assert Kept(base, h') by {
      KeptOutside(base, h, hm, {c1});
      KeptOutside(base, hm, h', {c2});
    }
  }

  /** cross with both offspring admitted: both recalculated, then both scored. */
  method FinishBoth(base: seq<Node>, h: seq<Node>, c1: nat, ghost T1: Tree, c2: nat, ghost T2: Tree,
                    maxDepth: nat, maxNodes: nat, penalty: (seq<Node>, nat) -> real)
    returns (h': seq<Node>, ghost o1: Tree, ghost o2: Tree)
    requires Kept(base, h) && Represents(h, c1, T1, None) && Represents(h, c2, T2, None)
    requires Above(h, c1, T1, |base|) && Above(h, c2, T2, |base|) && Footprint(h, c1, T1) !! Footprint(h, c2, T2)
    requires Sound(T1, maxDepth, maxNodes) && Sound(T2, maxDepth, maxNodes)
    ensures Kept(base, h') && |h'| == |h|
    ensures Offspring(|base|, h', c1, o1, T1, maxDepth, maxNodes, penalty)
    ensures Offspring(|base|, h', c2, o2, T2, maxDepth, maxNodes, penalty)
    ensures Footprint(h', c1, o1) !! Footprint(h', c2, o2)
  {
    var h1 := RecalcBoth(base, h, c1, T1, c2, T2);
    ghost var hs;
    h', o1, o2, hs := ScoreBoth(base, h1, c1, Recalc(T1), c2, Recalc(T2), penalty);
    assert Scored(o1, T1, penalty) by {
      assert Represents(h1, c1, Recalc(T1), None) && o1.penalty == penalty(h1, c1);
    }
    assert Scored(o2, T2, penalty) by {
      assert Represents(hs, c2, Recalc(T2), None) && o2.penalty == penalty(hs, c2);
    }
    Settled(T1, o1.penalty, maxDepth, maxNodes);
    Settled(T2, o2.penalty, maxDepth, maxNodes);
  }

  /**
   * GP::cross on the members at x1 and x2: both are cloned, a random
   * non-root node of each clone is exchanged with the other's, and each
   * offspring whose depth or node count the test rejects is dropped. The
   * parents are only read. The result holds the survivors in order, a lone
   * survivor in the first slot, and every survivor was recalculated and
   * scored once.
   */
  method CrossTrees(h: seq<Node>, x1: nat, ghost t1: Tree, x2: nat, ghost t2: Tree,
                    maxDepth: nat, maxNodes: nat, penalty: (seq<Node>, nat) -> real, rng: Rng)
    returns (h': seq<Node>, first: Option<nat>, second: Option<nat>, evaluated: nat, rng': Rng,
             ghost p1: seq<nat>, ghost p2: seq<nat>, ghost o1: Tree, ghost o2: Tree)
    requires Represents(h, x1, t1, None) && Represents(h, x2, t2, None) && rng.Valid()
    requires Member(t1, maxDepth, maxNodes) && Member(t2, maxDepth, maxNodes)
    ensures rng'.Valid() && Kept(h, h') && CrossPoints(t1, p1, t2, p2)
    ensures var kept := Survivors(t1, p1, t2, p2, maxDepth, maxNodes);
      && evaluated == |kept|
      && (first.Some? <==> 1 <= |kept|) && (second.Some? <==> |kept| == 2)
      && (first.Some? ==> Offspring(|h|, h', first.value, o1, kept[0], maxDepth, maxNodes, penalty))
      && (second.Some? ==> Offspring(|h|, h', second.value, o2, kept[1], maxDepth, maxNodes, penalty)
                           && Footprint(h', first.value, o1) !! Footprint(h', second.value, o2))
  {
    TwoNodes(t1);
    TwoNodes(t2);
    var h2, c1, c2, n1, n2;
    h2, c1, c2, n1, n2, p1, p2, rng' := Exchange(h, x1, t1, x2, t2, rng);
    ghost var s1, s2 := At(t2, p2), At(t1, p1);
    var bad1 := h2[c1].depth - h2[n1].depth + h2[n2].depth > maxDepth
             || h2[c1].size - h2[n1].size + h2[n2].size > maxNodes;
    var bad2 := h2[c2].depth - h2[n2].depth + h2[n1].depth > maxDepth
             || h2[c2].size - h2[n2].size + h2[n1].size > maxNodes;
    assert bad1 <==> !Admitted(t1, p1, s1, maxDepth, maxNodes);
    assert bad2 <==> !Admitted(t2, p2, s2, maxDepth, maxNodes);
    h', first, second, evaluated, o1, o2 := KeepAdmitted(h, h2, c1, c2, t1, p1, t2, p2, !bad1, !bad2,
                                                         maxDepth, maxNodes, penalty);
  }

  /** The end of cross: each admitted offspring recalculated and scored, the first survivor first; the rejected ones dropped. */
  method KeepAdmitted(h: seq<Node>, h2: seq<Node>, c1: nat, c2: nat, ghost t1: Tree, ghost p1: seq<nat>,
                      ghost t2: Tree, ghost p2: seq<nat>, admit1: bool, admit2: bool,
                      maxDepth: nat, maxNodes: nat, penalty: (seq<Node>, nat) -> real)
    returns (h': seq<Node>, first: Option<nat>, second: Option<nat>, evaluated: nat, ghost o1: Tree, ghost o2: Tree)
    requires Member(t1, maxDepth, maxNodes) && Member(t2, maxDepth, maxNodes) && CrossPoints(t1, p1, t2, p2)
    requires Kept(h, h2)
    requires Represents(h2, c1, Replace(t1, p1, At(t2, p2)), None) && Above(h2, c1, Replace(t1, p1, At(t2, p2)), |h|)
    requires Represents(h2, c2, Replace(t2, p2, At(t1, p1)), None) && Above(h2, c2, Replace(t2, p2, At(t1, p1)), |h|)
    requires Footprint(h2, c1, Replace(t1, p1, At(t2, p2))) !! Footprint(h2, c2, Replace(t2, p2, At(t1, p1)))
    requires admit1 <==> Admitted(t1, p1, At(t2, p2), maxDepth, maxNodes)
    requires admit2 <==> Admitted(t2, p2, At(t1, p1), maxDepth, maxNodes)
    ensures Kept(h, h')
    ensures var kept := Survivors(t1, p1, t2, p2, maxDepth, maxNodes);
      && evaluated == |kept|
      && (first.Some? <==> 1 <= |kept|) && (second.Some? <==> |kept| == 2)
      && (first.Some? ==> Offspring(|h|, h', first.value, o1, kept[0], maxDepth, maxNodes, penalty))
      && (second.Some? ==> Offspring(|h|, h', second.value, o2, kept[1], maxDepth, maxNodes, penalty)
                           && Footprint(h', first.value, o1) !! Footprint(h', second.value, o2))
  {
    o1, o2 := t1, t2;
    ghost var s1, s2 := At(t2, p2), At(t1, p1);
    ghost var T1, T2 := Replace(t1, p1, s1), Replace(t2, p2, s2);
    assert Shaped(s1) && Shaped(s2) by {
      ReplaceShaped(t2, p2, t2);
      ReplaceShaped(t1, p1, t1);
    }
    if !admit1 && !admit2 {
      h', first, second, evaluated := h2, None, None, 0;
    } else if !admit1 {
      CrossSound(t2, p2, s2, maxDepth, maxNodes);
      h', o1 := FinishOne(h, h2, c2, T2, maxDepth, maxNodes, penalty);
      first, second, evaluated := Some(c2), None, 1;
    } else if !admit2 {
      CrossSound(t1, p1, s1, maxDepth, maxNodes);
      h', o1 := FinishOne(h, h2, c1, T1, maxDepth, maxNodes, penalty);
      first, second, evaluated := Some(c1), None, 1;
    } else {
      CrossSound(t1, p1, s1, maxDepth, maxNodes);
      CrossSound(t2, p2, s2, maxDepth, maxNodes);
      h', o1, o2 := FinishBoth(h, h2, c1, T1, c2, T2, maxDepth, maxNodes, penalty);
      first, second, evaluated := Some(c1), Some(c2), 2;
    }
  }
}
