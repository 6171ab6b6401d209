/**
 * GP::grow and GP::full: the two budgeted generators. Each allocates its
 * node, draws the operator from a prefix of the arity-sorted table, splits
 * the remaining node budget among the children at sorted random split
 * points, and builds the children one after another. New nodes are appended
 * to the heap; their cached size and depth, which GPNode's constructor
 * leaves unset, are 0 here and their penalty is the default -1.
 */
module GpGenerators {
  import opened Wrappers
  import opened GpTrees
  import opened GpArena
  import opened GpCatalog
  import opened Random
  import opened Sorting

  /** x is a new node, at the old end of the heap, whose subtree t lies entirely in the appended part; the old heap is untouched. */
  ghost predicate Appended(h: seq<Node>, h': seq<Node>, x: nat, t: Tree, parent: Option<nat>)
  {
    && x == |h| < |h'| && h'[..|h|] == h
    && Represents(h', x, t, parent)
    && forall w :: w in Footprint(h', x, t) ==> |h| <= w < |h'|
  }

  /** A node built by GPNode(oper, parent) before its children are set. */
  function NewNode(oper: Operator, parent: Option<nat>): Node
  {
    Node(oper, parent, [], 0, 0, -1.0)
  }

  /** The generator is filling the children of node n, appended to h0; us are the subtrees set so far. */
  ghost predicate Growing(h0: seq<Node>, h: seq<Node>, n: nat, oper: Operator, parent: Option<nat>, us: seq<Tree>)
  {
    && n == |h0| < |h| && h[..|h0|] == h0
    && h[n] == NewNode(oper, parent).(children := h[n].children)
    && Brood(h, n, us, n + 1)
    && forall k :: 0 <= k < |us| ==> Shaped(us[k])
  }

  predicate Ascending(s: seq<nat>)
  {
    forall i, j :: 0 <= i < j < |s| ==> s[i] <= s[j]
  }

  function Key(v: nat): real
  {
    v as real
  }

  // ---------------------------------------------------------------------------
  // Splitting a budget

  /**
   * The splitters vector: {0, top}, then `draws` values drawn from [0, top],
   * then std::sort. Consecutive differences are the shares of top.
   */
  method Splitters(draws: nat, top: nat, rng: Rng) returns (s: seq<nat>, rng': Rng)
    requires rng.Valid()
    ensures rng'.Valid()
    ensures |s| == draws + 2 && s[0] == 0 && s[|s| - 1] == top && Ascending(s)
  {
    var raw: seq<nat> := [0, top];
    rng' := rng;
    for i := 0 to draws
      invariant |raw| == i + 2 && raw[0] == 0 && raw[1] == top && rng'.Valid()
      invariant forall k :: 0 <= k < |raw| ==> raw[k] <= top
    {
      var draw := rng'.Uniform(0, top);
      raw := raw + [draw.0];
      rng' := draw.1;
    }
    s := SortBy(raw, Key);
    SortedEnds(raw, s, top);
  }

  /** Sorting a vector that holds 0 and top and nothing above top puts 0 first and top last. */
  lemma SortedEnds(raw: seq<nat>, s: seq<nat>, top: nat)
    requires multiset(s) == multiset(raw) && SortedBy(s, Key)
    requires |raw| >= 2 && raw[0] == 0 && raw[1] == top
    requires forall k :: 0 <= k < |raw| ==> raw[k] <= top
    ensures |s| == |raw| && s[0] == 0 && s[|s| - 1] == top && Ascending(s)
  {
    assert |s| == |multiset(s)| == |multiset(raw)| == |raw|;
    assert raw[0] in multiset(s) && raw[1] in multiset(s);
    var i :| 0 <= i < |s| && s[i] == 0;
    var j :| 0 <= j < |s| && s[j] == top;
    assert Key(s[0]) <= Key(s[i]);
    assert Key(s[j]) <= Key(s[|s| - 1]);
    assert s[|s| - 1] in multiset(raw);
    forall a, b | 0 <= a < b < |s|
      ensures s[a] <= s[b]
    {
      assert Key(s[a]) <= Key(s[b]);
    }
  }

  // ---------------------------------------------------------------------------
  // Shared steps

  /** setChild on the node being built, with a subtree appended after it. */
  lemma GrowingAdd(h0: seq<Node>, h: seq<Node>, h1: seq<Node>, n: nat, oper: Operator, parent: Option<nat>,
                   us: seq<Tree>, c: nat, u: Tree)
    requires Growing(h0, h, n, oper, parent, us)
    requires Appended(h, h1, c, u, Some(n)) && Shaped(u)
    ensures Growing(h0, h1[n := h1[n].(children := h1[n].children + [c])], n, oper, parent, us + [u])
  {
    BroodAdd(h, h1, n, us, n + 1, c, u);
    assert h1[..|h0|] == h1[..|h|][..|h0|];
    assert h1[n] == h1[..|h|][n];
  }

  /** Allocating the node: nothing set yet. */
  lemma GrowingStart(h: seq<Node>, oper: Operator, parent: Option<nat>)
    ensures Growing(h, h + [NewNode(oper, parent)], |h|, oper, parent, [])
  {
    assert (h + [NewNode(oper, parent)])[..|h|] == h;
  }

  /** With every child set, the node represents the tree of its operator over those children. */
  lemma GrowingDone(h0: seq<Node>, h: seq<Node>, n: nat, oper: Operator, parent: Option<nat>, us: seq<Tree>)
    requires Growing(h0, h, n, oper, parent, us) && |us| == oper.arity
    ensures Appended(h0, h, n, Tree(oper, 0, 0, -1.0, us), parent)
    ensures Shaped(Tree(oper, 0, 0, -1.0, us))
  {
    BroodDone(h, n, us, n + 1, Tree(oper, 0, 0, -1.0, us), parent);
  }

  /** Appending one subtree: the running size and depth. */
  lemma SnocMeasures(us: seq<Tree>, u: Tree)
    ensures SizeOf(us + [u]) == SizeOf(us) + Size(u)
    ensures DepthOf(us + [u]) == Max(DepthOf(us), Depth(u))
  {
    assert (us + [u])[..|us|] == us;
  }

  // ---------------------------------------------------------------------------
  // grow

  /** The largest arity grow allows: maxArity, cut to maxNodes - 1, and 0 at depth 1. */
  function GrowArity(cat: Catalog, maxDepth: nat, maxNodes: nat): (a: nat)
    requires 1 <= maxNodes
    ensures a <= cat.maxArity && a <= maxNodes - 1
    ensures maxDepth == 1 ==> a == 0
  {
    if maxDepth == 1 then 0
    else if maxNodes < cat.maxArity + 1 then maxNodes - 1
    else cat.maxArity
  }

  /**
   * GP::grow(maxDepth, maxNodes, parent, banTerminals): a tree of depth at
   * most maxDepth and at most maxNodes nodes, every node with exactly arity
   * children; with banTerminals the root is a non-terminal.
   */
  method Grow(ghost ops: seq<Operator>, cat: Catalog, h: seq<Node>, maxDepth: nat, maxNodes: nat,
              parent: Option<nat>, banTerminals: bool, rng: Rng)
    returns (h': seq<Node>, x: nat, ghost t: Tree, rng': Rng)
    requires Built(cat, ops) && rng.Valid() && 1 <= cat.counts[0]
    requires 1 <= maxDepth && 1 <= maxNodes
    requires banTerminals ==> cat.counts[0] < cat.counts[GrowArity(cat, maxDepth, maxNodes)]
    ensures rng'.Valid() && Appended(h, h', x, t, parent) && Shaped(t)
    ensures Size(t) <= maxNodes && Depth(t) <= maxDepth
    ensures t.oper.arity <= GrowArity(cat, maxDepth, maxNodes)
    ensures banTerminals ==> 1 <= t.oper.arity
    decreases maxDepth, 1
  {
    var arity := cat.maxArity;
    if maxNodes < cat.maxArity + 1 {
      arity := maxNodes - 1;
    }
    if maxDepth == 1 {
      arity := 0;
    }
    CountGrows(cat.operators, 0, arity);
    var lo := if banTerminals then cat.counts[0] else 0;
    var draw := rng.Uniform(lo, cat.counts[arity] - 1);
    Drawn(cat, ops, arity, draw.0);
    var oper := cat.operators[draw.0];
    rng' := draw.1;
    x := |h|;
    h' := h + [NewNode(oper, parent)];
    GrowingStart(h, oper, parent);
    if maxDepth == 1 || oper.arity == 0 {
      GrowingDone(h, h', x, oper, parent, []);
      t := Tree(oper, 0, 0, -1.0, []);
      return;
    }
    var s;
    s, rng' := Splitters(oper.arity - 1, maxNodes - oper.arity - 1, rng');
    ghost var us;
    h', us, rng' := GrowChildren(ops, cat, h, h', x, oper, parent, maxDepth - 1, s, rng');
    GrowingDone(h, h', x, oper, parent, us);
    t := Tree(oper, 0, 0, -1.0, us);
  }

  /** grow's loop over the splitters: child i gets budget 1 + splitters[i + 1] - splitters[i]. */
  method GrowChildren(ghost ops: seq<Operator>, cat: Catalog, ghost h0: seq<Node>, h: seq<Node>, n: nat,
                      ghost oper: Operator, ghost parent: Option<nat>, d: nat, s: seq<nat>, rng: Rng)
    returns (h': seq<Node>, ghost us: seq<Tree>, rng': Rng)
    requires Built(cat, ops) && rng.Valid() && 1 <= cat.counts[0] && 1 <= d
    requires 2 <= |s| && s[0] == 0 && Ascending(s)
    requires Growing(h0, h, n, oper, parent, [])
    ensures rng'.Valid() && Growing(h0, h', n, oper, parent, us) && |us| == |s| - 1
    ensures SizeOf(us) <= |us| + s[|s| - 1] && DepthOf(us) <= d
    decreases d + 1, 0
  {
    h', us, rng' := h, [], rng;
    for i := 0 to |s| - 1
      invariant rng'.Valid() && Growing(h0, h', n, oper, parent, us) && |us| == i
      invariant SizeOf(us) <= i + s[i] && DepthOf(us) <= d
    {
      h', us, rng' := GrowChild(ops, cat, h0, h', n, oper, parent, d, 1 + s[i + 1] - s[i], us, rng');
    }
  }

  /** One child of grow: grow(d, budget, node) and setChild. */
  method GrowChild(ghost ops: seq<Operator>, cat: Catalog, ghost h0: seq<Node>, h: seq<Node>, n: nat,
                   ghost oper: Operator, ghost parent: Option<nat>, d: nat, budget: nat, ghost us: seq<Tree>, rng: Rng)
    returns (h': seq<Node>, ghost us': seq<Tree>, rng': Rng)
    requires Built(cat, ops) && rng.Valid() && 1 <= cat.counts[0] && 1 <= d && 1 <= budget
    requires Growing(h0, h, n, oper, parent, us)
    ensures rng'.Valid() && Growing(h0, h', n, oper, parent, us') && |us'| == |us| + 1
    ensures SizeOf(us') <= SizeOf(us) + budget
    ensures DepthOf(us) <= d ==> DepthOf(us') <= d
    decreases d, 2
  {
    var h1, c;
    ghost var u;
    h1, c, u, rng' := Grow(ops, cat, h, d, budget, Some(n), false, rng);
    GrowingAdd(h0, h, h1, n, oper, parent, us, c, u);
    h' := h1[n := h1[n].(children := h1[n].children + [c])];
    us' := us + [u];
    SnocMeasures(us, u);
  }

  // ---------------------------------------------------------------------------
  // full

  /** What full needs of the tables at depth maxDepth: a non-terminal, and no overflow in the series up to the entry it reads. */
  ghost predicate FullReady(cat: Catalog, maxDepth: nat)
  {
    maxDepth >= 2 ==> HasNonTerminal(cat) && Geo(cat.minNonZero, maxDepth - 1) < Word
  }

  /**
   * full's arity search: from maxArity down to minNonZeroArity, the first
   * arity some operator has that leaves budget for the rest of a full tree
   * of the smallest non-zero arity: maxNodes - 1 >= arity * series[d - 2].
   */
  method FullArity(ghost ops: seq<Operator>, cat: Catalog, maxDepth: nat, maxNodes: nat) returns (a: nat)
    requires Built(cat, ops) && 2 <= maxDepth <= SeriesLength && HasNonTerminal(cat)
    requires maxNodes - 1 >= cat.minNonZero * cat.series[maxDepth - 2]
    ensures cat.minNonZero <= a <= cat.maxArity && cat.counts[a - 1] < cat.counts[a]
    ensures maxNodes - 1 >= a * cat.series[maxDepth - 2]
    ensures forall b :: a < b <= cat.maxArity && cat.counts[b - 1] < cat.counts[b] ==> maxNodes - 1 < b * cat.series[maxDepth - 2]
  {
    var i := cat.maxArity;
    while i >= cat.minNonZero
      invariant cat.minNonZero <= i <= cat.maxArity
      invariant forall b :: i < b <= cat.maxArity && cat.counts[b - 1] < cat.counts[b] ==> maxNodes - 1 < b * cat.series[maxDepth - 2]
      decreases i
    {
      if cat.counts[i - 1] < cat.counts[i] && maxNodes - 1 >= i * cat.series[maxDepth - 2] {
        return i;
      }
      i := i - 1;
    }
    assert false;
  }

  /** The operator full draws: a terminal at depth 1, else a non-terminal of arity at most the one FullArity finds. */
  method FullOperator(ghost ops: seq<Operator>, cat: Catalog, maxDepth: nat, maxNodes: nat, rng: Rng)
    returns (oper: Operator, rng': Rng)
    requires Built(cat, ops) && rng.Valid() && 1 <= cat.counts[0]
    requires 1 <= maxDepth <= SeriesLength && FullReady(cat, maxDepth)
    requires maxNodes >= cat.series[maxDepth - 1]
    ensures rng'.Valid() && oper in cat.operators
    ensures maxDepth == 1 ==> oper.arity == 0
    ensures maxDepth >= 2 ==> 1 <= oper.arity && oper.arity * cat.series[maxDepth - 2] <= maxNodes - 1
  {
    var arity := 0;
    if maxDepth != 1 {
      FullBudget(cat, ops, maxDepth, maxNodes);
      arity := FullArity(ops, cat, maxDepth, maxNodes);
    }
    var draw;
    if arity == 0 {
      draw := rng.Uniform(0, cat.counts[0] - 1);
    } else {
      CountGrows(cat.operators, 0, arity - 1);
      draw := rng.Uniform(cat.counts[0], cat.counts[arity] - 1);
    }
    Drawn(cat, ops, arity, draw.0);
    oper := cat.operators[draw.0];
    rng' := draw.1;
    if maxDepth != 1 {
      MulMono(oper.arity, arity, cat.series[maxDepth - 2]);
    }
  }

  /** A budget of series[d - 1] nodes covers the root and m subtrees of series[d - 2] nodes each. */
  lemma FullBudget(cat: Catalog, ops: seq<Operator>, maxDepth: nat, maxNodes: nat)
    requires Built(cat, ops) && 2 <= maxDepth <= SeriesLength && FullReady(cat, maxDepth)
    requires maxNodes >= cat.series[maxDepth - 1]
    ensures maxNodes - 1 >= cat.minNonZero * cat.series[maxDepth - 2]
  {
    SeriesLevels(cat, ops, maxDepth - 1);
  }

  /**
   * GP::full(maxDepth, maxNodes, parent): given at least series[maxDepth - 1]
   * nodes of budget, a tree whose every leaf sits at depth exactly maxDepth,
   * with at most maxNodes nodes and exactly arity children at every node.
   */
  method Full(ghost ops: seq<Operator>, cat: Catalog, h: seq<Node>, maxDepth: nat, maxNodes: nat,
              parent: Option<nat>, rng: Rng)
    returns (h': seq<Node>, x: nat, ghost t: Tree, rng': Rng)
    requires Built(cat, ops) && rng.Valid() && 1 <= cat.counts[0]
    requires 1 <= maxDepth <= SeriesLength && FullReady(cat, maxDepth)
    requires maxNodes >= cat.series[maxDepth - 1]
    ensures rng'.Valid() && Appended(h, h', x, t, parent) && Shaped(t)
    ensures LeavesAt(t, maxDepth) && Size(t) <= maxNodes
    ensures maxDepth >= 2 ==> maxNodes - 1 >= t.oper.arity * cat.series[maxDepth - 2]
    decreases maxDepth, 1
  {
    var oper;
    oper, rng' := FullOperator(ops, cat, maxDepth, maxNodes, rng);
    x := |h|;
    h' := h + [NewNode(oper, parent)];
    GrowingStart(h, oper, parent);
    if maxDepth == 1 {
      GrowingDone(h, h', x, oper, parent, []);
      t := Tree(oper, 0, 0, -1.0, []);
      return;
    }
    var g := cat.series[maxDepth - 2];
    var reserved := oper.arity * g;
    var s;
    s, rng' := Splitters(oper.arity - 1, maxNodes - reserved - 1, rng');
    ghost var us;
    GeoMonotone(cat.minNonZero, maxDepth - 2, maxDepth - 1);
    h', us, rng' := FullChildren(ops, cat, h, h', x, oper, parent, maxDepth - 1, g, s, rng');
    GrowingDone(h, h', x, oper, parent, us);
    t := Tree(oper, 0, 0, -1.0, us);
  }

  lemma MulMono(a: nat, b: nat, g: nat)
    requires a <= b
    ensures a * g <= b * g
  {
  }

  /** Every subtree has all its leaves at depth d. */
  ghost predicate AllLeavesAt(us: seq<Tree>, d: nat)
  {
    forall k :: 0 <= k < |us| ==> LeavesAt(us[k], d)
  }

  /** full's loop over the splitters: child i gets budget series[d - 1] + splitters[i + 1] - splitters[i]. */
  method FullChildren(ghost ops: seq<Operator>, cat: Catalog, ghost h0: seq<Node>, h: seq<Node>, n: nat,
                      ghost oper: Operator, ghost parent: Option<nat>, d: nat, g: nat, s: seq<nat>, rng: Rng)
    returns (h': seq<Node>, ghost us: seq<Tree>, rng': Rng)
    requires Built(cat, ops) && rng.Valid() && 1 <= cat.counts[0]
    requires 1 <= d < SeriesLength && FullReady(cat, d) && g == cat.series[d - 1]
    requires 2 <= |s| && s[0] == 0 && Ascending(s)
    requires Growing(h0, h, n, oper, parent, [])
    ensures rng'.Valid() && Growing(h0, h', n, oper, parent, us) && |us| == |s| - 1
    ensures SizeOf(us) <= (|s| - 1) * g + s[|s| - 1] && AllLeavesAt(us, d)
    decreases d + 1, 0
  {
    h', us, rng' := h, [], rng;
    for i := 0 to |s| - 1
      invariant rng'.Valid() && Growing(h0, h', n, oper, parent, us) && |us| == i
      invariant SizeOf(us) <= i * g + s[i] && AllLeavesAt(us, d)
    {
      ghost var before := SizeOf(us);
      h', us, rng' := FullChild(ops, cat, h0, h', n, oper, parent, d, g + s[i + 1] - s[i], us, rng');
      ShareStep(i, g, s[i], s[i + 1], before, SizeOf(us));
    }
  }

  /** The running budget bound after one more share. */
  lemma ShareStep(i: nat, g: nat, a: nat, b: nat, before: nat, after: nat)
    requires a <= b && before <= i * g + a && after <= before + (g + b - a)
    ensures after <= (i + 1) * g + b
  {
  }

  /** One child of full: full(d, budget, node) and setChild. */
  method FullChild(ghost ops: seq<Operator>, cat: Catalog, ghost h0: seq<Node>, h: seq<Node>, n: nat,
                   ghost oper: Operator, ghost parent: Option<nat>, d: nat, budget: nat, ghost us: seq<Tree>, rng: Rng)
    returns (h': seq<Node>, ghost us': seq<Tree>, rng': Rng)
    requires Built(cat, ops) && rng.Valid() && 1 <= cat.counts[0]
    requires 1 <= d < SeriesLength && FullReady(cat, d) && budget >= cat.series[d - 1]
    requires Growing(h0, h, n, oper, parent, us) && AllLeavesAt(us, d)
    ensures rng'.Valid() && Growing(h0, h', n, oper, parent, us') && |us'| == |us| + 1
    ensures SizeOf(us') <= SizeOf(us) + budget && AllLeavesAt(us', d)
    decreases d, 2
  {
    var h1, c;
    ghost var u;
    h1, c, u, rng' := Full(ops, cat, h, d, budget, Some(n), rng);
    GrowingAdd(h0, h, h1, n, oper, parent, us, c, u);
    h' := h1[n := h1[n].(children := h1[n].children + [c])];
    us' := us + [u];
    SnocMeasures(us, u);
  }
}
