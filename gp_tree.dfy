/**
 * The value a GPNode subtree stands for. A `Tree` records, for every node,
 * its operator, the subtree size, subtree depth and penalty the node caches,
 * and its children in order. The true measures `Size` and `Depth` are
 * computed from the structure alone; `Cached` says that the cached fields
 * agree with them everywhere. Paths (child indices from the root) and
 * pre-order ranks name nodes; `Replace` is the splice performed by mutation
 * and crossover.
 */
module GpTrees {
  /** A GPOperator: its symbol and arity. The evaluation callback is not part of the model. */
  datatype Operator = Operator(symbol: string, arity: nat)

  datatype Tree = Tree(oper: Operator, size: nat, depth: nat, penalty: real, kids: seq<Tree>)

  /** Number of nodes. */
  function Size(t: Tree): nat
  {
    1 + SizeOf(t.kids)
  }

  /** Total number of nodes of a sequence of trees. */
  function SizeOf(ts: seq<Tree>): nat
  {
    if ts == [] then 0 else SizeOf(ts[..|ts| - 1]) + Size(ts[|ts| - 1])
  }

  function Max(a: nat, b: nat): nat
  {
    if a < b then b else a
  }

  /** Number of nodes on the longest root-to-leaf path. */
  function Depth(t: Tree): nat
  {
    1 + DepthOf(t.kids)
  }

  /** Largest depth among a sequence of trees, 0 for none. */
  function DepthOf(ts: seq<Tree>): nat
  {
    if ts == [] then 0 else Max(DepthOf(ts[..|ts| - 1]), Depth(ts[|ts| - 1]))
  }

  /** Every node has exactly as many children as its operator's arity. */
  predicate Shaped(t: Tree)
  {
    && |t.kids| == t.oper.arity
    && forall i :: 0 <= i < |t.kids| ==> Shaped(t.kids[i])
  }

  /** Every node's cached size and depth are its subtree's true size and depth. */
  predicate Cached(t: Tree)
  {
    && t.size == Size(t)
    && t.depth == Depth(t)
    && forall i :: 0 <= i < |t.kids| ==> Cached(t.kids[i])
  }

  /** Sum of the children's cached sizes. */
  function CachedSizeOf(ts: seq<Tree>): nat
  {
    if ts == [] then 0 else CachedSizeOf(ts[..|ts| - 1]) + ts[|ts| - 1].size
  }

  /** Largest of the children's cached depths, 0 for none. */
  function CachedDepthOf(ts: seq<Tree>): nat
  {
    if ts == [] then 0 else Max(CachedDepthOf(ts[..|ts| - 1]), ts[|ts| - 1].depth)
  }

  /** The recurrence one node keeps: size is 1 plus its children's sizes, depth 1 plus their largest depth. */
  predicate Recurrence(t: Tree)
  {
    t.size == 1 + CachedSizeOf(t.kids) && t.depth == 1 + CachedDepthOf(t.kids)
  }

  /** Caches are correct everywhere exactly when every node keeps the recurrence. */
  lemma {:induction false} CachedIsRecurrence(t: Tree)
    ensures Cached(t) <==> Recurrence(t) && forall i :: 0 <= i < |t.kids| ==> Cached(t.kids[i])
  {
    if forall i :: 0 <= i < |t.kids| ==> Cached(t.kids[i]) {
      CachedSums(t.kids);
    }
  }

  /** Over correctly cached trees the cached sums are the true ones. */
  lemma {:induction false} CachedSums(ts: seq<Tree>)
    requires forall i :: 0 <= i < |ts| ==> Cached(ts[i])
    ensures CachedSizeOf(ts) == SizeOf(ts) && CachedDepthOf(ts) == DepthOf(ts)
  {
    if ts != [] {
      CachedSums(ts[..|ts| - 1]);
    }
  }

  /** The tree with every cache recomputed: what recalculateSubtreeSizesRecursive leaves behind. */
  function Recalc(t: Tree): Tree
  {
    Tree(t.oper, Size(t), Depth(t), t.penalty, RecalcAll(t.kids))
  }

  function RecalcAll(ts: seq<Tree>): (rs: seq<Tree>)
    ensures |rs| == |ts| && forall i :: 0 <= i < |ts| ==> rs[i] == Recalc(ts[i])
  {
    if ts == [] then [] else RecalcAll(ts[..|ts| - 1]) + [Recalc(ts[|ts| - 1])]
  }

  /** Recalculation makes every cache correct and changes nothing else: size, depth, shape and operators stay. */
  lemma {:induction false} RecalcKeeps(t: Tree)
    ensures Size(Recalc(t)) == Size(t) && Depth(Recalc(t)) == Depth(t)
    ensures Cached(Recalc(t))
    ensures Shaped(t) ==> Shaped(Recalc(t))
    decreases t, 1
  {
    RecalcAllKeeps(t.kids);
  }

  lemma {:induction false} RecalcAllKeeps(ts: seq<Tree>)
    ensures SizeOf(RecalcAll(ts)) == SizeOf(ts) && DepthOf(RecalcAll(ts)) == DepthOf(ts)
    ensures forall i :: 0 <= i < |ts| ==> Cached(Recalc(ts[i])) && (Shaped(ts[i]) ==> Shaped(Recalc(ts[i])))
    decreases ts, 0
  {
    if ts != [] {
      var n := |ts| - 1;
      RecalcAllKeeps(ts[..n]);
      RecalcKeeps(ts[n]);
      assert RecalcAll(ts)[..n] == RecalcAll(ts[..n]);
      forall i | 0 <= i < n
        ensures Cached(Recalc(ts[i])) && (Shaped(ts[i]) ==> Shaped(Recalc(ts[i])))
      {
        assert ts[i] == ts[..n][i];
      }
    }
  }

  /** Recalculating correct caches changes nothing. */
  lemma {:induction false} RecalcIdle(t: Tree)
    requires Cached(t)
    ensures Recalc(t) == t
  {
    forall i | 0 <= i < |t.kids|
      ensures Recalc(t.kids[i]) == t.kids[i]
    {
      RecalcIdle(t.kids[i]);
    }
    assert RecalcAll(t.kids) == t.kids;
  }

  // ---------------------------------------------------------------------------
  // Paths and the splice

  /** A sequence of child indices that leads from the root to a node. */
  predicate ValidPath(t: Tree, p: seq<nat>)
  {
    p == [] || (p[0] < |t.kids| && ValidPath(t.kids[p[0]], p[1..]))
  }

  /** The subtree at the end of a path. */
  function At(t: Tree, p: seq<nat>): Tree
    requires ValidPath(t, p)
  {
    if p == [] then t else At(t.kids[p[0]], p[1..])
  }

  /** The tree with the subtree at the end of a path replaced by s; nothing above it is touched. */
  function Replace(t: Tree, p: seq<nat>, s: Tree): (r: Tree)
    requires ValidPath(t, p)
    ensures p != [] ==> r.oper == t.oper && |r.kids| == |t.kids|
  {
    if p == [] then s else t.(kids := t.kids[p[0] := Replace(t.kids[p[0]], p[1..], s)])
  }

  /** Extending a path by one child index. */
  lemma {:induction false} PathSnoc(t: Tree, p: seq<nat>, i: nat)
    requires ValidPath(t, p)
    ensures ValidPath(t, p + [i]) <==> i < |At(t, p).kids|
    ensures i < |At(t, p).kids| ==> At(t, p + [i]) == At(t, p).kids[i]
  {
    if p != [] {
      assert (p + [i])[1..] == p[1..] + [i];
      PathSnoc(t.kids[p[0]], p[1..], i);
    }
  }

  /** Every prefix of a path is a path. */
  lemma {:induction false} PathPrefix(t: Tree, p: seq<nat>)
    requires ValidPath(t, p) && p != []
    ensures ValidPath(t, p[..|p| - 1])
    ensures p[|p| - 1] < |At(t, p[..|p| - 1]).kids|
    ensures At(t, p) == At(t, p[..|p| - 1]).kids[p[|p| - 1]]
  {
    assert p == p[..|p| - 1] + [p[|p| - 1]];
    if |p| > 1 {
      PathPrefix(t.kids[p[0]], p[1..]);
      assert p[1..][..|p| - 2] == p[..|p| - 1][1..];
    }
  }

  /** Correct caches stay correct in every subtree. */
  lemma {:induction false} CachedAt(t: Tree, p: seq<nat>)
    requires ValidPath(t, p) && Cached(t)
    ensures Cached(At(t, p))
  {
    if p != [] {
      CachedAt(t.kids[p[0]], p[1..]);
    }
  }

  /** Size after a splice: the removed subtree's nodes leave, the new one's arrive. */
  lemma {:induction false} ReplaceSize(t: Tree, p: seq<nat>, s: Tree)
    requires ValidPath(t, p)
    ensures Size(At(t, p)) <= Size(t)
    ensures Size(Replace(t, p, s)) + Size(At(t, p)) == Size(t) + Size(s)
  {
    if p != [] {
      var i := p[0];
      ReplaceSize(t.kids[i], p[1..], s);
      PrefixBelow(t.kids, i);
      SizeOfUpdate(t.kids, i, Replace(t.kids[i], p[1..], s));
    }
  }

  lemma {:induction false} SizeOfUpdate(ts: seq<Tree>, i: nat, u: Tree)
    requires i < |ts|
    ensures SizeOf(ts[i := u]) + Size(ts[i]) == SizeOf(ts) + Size(u)
  {
    var n := |ts| - 1;
    if i < n {
      SizeOfUpdate(ts[..n], i, u);
      assert ts[i := u][..n] == ts[..n][i := u];
    } else {
      assert ts[i := u][..n] == ts[..n];
    }
  }

  /** Depth after a splice: the node at the end of p lies |p| levels down, so the new subtree reaches |p| + Depth(s). */
  lemma {:induction false} ReplaceDepth(t: Tree, p: seq<nat>, s: Tree)
    requires ValidPath(t, p)
    ensures |p| + Depth(At(t, p)) <= Depth(t)
    ensures Depth(Replace(t, p, s)) <= Max(Depth(t), |p| + Depth(s))
  {
    if p != [] {
      var i := p[0];
      ReplaceDepth(t.kids[i], p[1..], s);
      DepthOfUpdate(t.kids, i, Replace(t.kids[i], p[1..], s));
    }
  }

  lemma {:induction false} DepthOfUpdate(ts: seq<Tree>, i: nat, u: Tree)
    requires i < |ts|
    ensures Depth(ts[i]) <= DepthOf(ts)
    ensures DepthOf(ts[i := u]) <= Max(DepthOf(ts), Depth(u))
  {
    var n := |ts| - 1;
    if i < n {
      DepthOfUpdate(ts[..n], i, u);
      assert ts[i := u][..n] == ts[..n][i := u];
      assert ts[..n][i] == ts[i];
    } else {
      assert ts[i := u][..n] == ts[..n];
    }
  }

  /** Splicing a well-shaped subtree into a well-shaped tree keeps it well shaped. */
  lemma {:induction false} ReplaceShaped(t: Tree, p: seq<nat>, s: Tree)
    requires ValidPath(t, p) && Shaped(t) && Shaped(s)
    ensures Shaped(At(t, p)) && Shaped(Replace(t, p, s))
  {
    if p != [] {
      ReplaceShaped(t.kids[p[0]], p[1..], s);
    }
  }

  // ---------------------------------------------------------------------------
  // Pre-order ranks: rank 0 is the root, then each child's subtree in order

  /** The child whose block of ranks holds r, where r counts from the first child's root. */
  function KidOf(ts: seq<Tree>, r: nat, i: nat): (k: nat)
    requires i < |ts| && SizeOf(ts[..i]) <= r < SizeOf(ts)
    ensures i <= k < |ts| && SizeOf(ts[..k]) <= r < SizeOf(ts[..k]) + Size(ts[k])
    decreases |ts| - i
  {
    assert ts[..i + 1][..i] == ts[..i];
    assert ts[..|ts|] == ts;
    if r < SizeOf(ts[..i + 1]) then i else KidOf(ts, r, i + 1)
  }

  /** The path to the node of pre-order rank r. */
  function PathAt(t: Tree, r: nat): (p: seq<nat>)
    requires r < Size(t)
    ensures ValidPath(t, p)
    ensures p == [] <==> r == 0
  {
    if r == 0 then []
    else
      assert t.kids[..|t.kids|] == t.kids;
      var k := KidOf(t.kids, r - 1, 0);
      [k] + PathAt(t.kids[k], r - 1 - SizeOf(t.kids[..k]))
  }

  /** The path to rank r starts at the child whose block of ranks holds r - 1. */
  lemma PathAtKid(t: Tree, r: nat, k: nat)
    requires 0 < r < Size(t) && k < |t.kids|
    requires SizeOf(t.kids[..k]) <= r - 1 < SizeOf(t.kids[..k]) + Size(t.kids[k])
    ensures PathAt(t, r) == [k] + PathAt(t.kids[k], r - 1 - SizeOf(t.kids[..k]))
  {
    assert t.kids[..|t.kids|] == t.kids;
    assert t.kids[..0] == [];
    KidOfUnique(t.kids, r - 1, 0, k);
  }

  /** The pre-order rank of the node at the end of a path. */
  function RankOf(t: Tree, p: seq<nat>): (r: nat)
    requires ValidPath(t, p)
    ensures r < Size(t)
  {
    if p == [] then 0
    else
      var i := p[0];
      PrefixBelow(t.kids, i);
      1 + SizeOf(t.kids[..i]) + RankOf(t.kids[i], p[1..])
  }

  /** The measures of one more element of a prefix. */
  lemma PrefixStep(ts: seq<Tree>, j: nat)
    requires j < |ts|
    ensures SizeOf(ts[..j + 1]) == SizeOf(ts[..j]) + Size(ts[j])
    ensures DepthOf(ts[..j + 1]) == Max(DepthOf(ts[..j]), Depth(ts[j]))
  {
    assert ts[..j + 1][..j] == ts[..j];
  }

  /** A child's block of ranks ends no later than the whole sequence's. */
  lemma {:induction false} PrefixBelow(ts: seq<Tree>, i: nat)
    requires i < |ts|
    ensures SizeOf(ts[..i]) + Size(ts[i]) <= SizeOf(ts)
    decreases |ts|
  {
    var n := |ts| - 1;
    assert ts[..|ts|] == ts;
    if i < n {
      PrefixBelow(ts[..n], i);
      assert ts[..n][..i] == ts[..i];
    }
  }

  /** The blocks of ranks of later children start after earlier ones end. */
  lemma {:induction false} PrefixGrows(ts: seq<Tree>, i: nat, j: nat)
    requires i < j <= |ts|
    ensures SizeOf(ts[..i]) + Size(ts[i]) <= SizeOf(ts[..j])
  {
    PrefixBelow(ts[..j], i);
    assert ts[..j][..i] == ts[..i];
  }

  /** Only one child's block holds a given rank. */
  lemma {:induction false} KidOfUnique(ts: seq<Tree>, r: nat, i: nat, k: nat)
    requires i <= k < |ts| && SizeOf(ts[..i]) <= r < SizeOf(ts)
    requires SizeOf(ts[..k]) <= r < SizeOf(ts[..k]) + Size(ts[k])
    ensures KidOf(ts, r, i) == k
    decreases |ts| - i
  {
    assert ts[..i + 1][..i] == ts[..i];
    if i < k {
      PrefixGrows(ts, i, k);
      KidOfUnique(ts, r, i + 1, k);
    }
  }

  /** Ranking the node at the end of a path gives back the path. */
  lemma {:induction false} PathOfRank(t: Tree, p: seq<nat>)
    requires ValidPath(t, p)
    ensures PathAt(t, RankOf(t, p)) == p
  {
    if p != [] {
      var i := p[0];
      var q := RankOf(t.kids[i], p[1..]);
      assert RankOf(t, p) == 1 + SizeOf(t.kids[..i]) + q;
      PathAtKid(t, RankOf(t, p), i);
      PathOfRank(t.kids[i], p[1..]);
      assert p == [i] + p[1..];
    }
  }

  /** Following the path of a rank gives back the rank. */
  lemma {:induction false} RankOfPath(t: Tree, r: nat)
    requires r < Size(t)
    ensures RankOf(t, PathAt(t, r)) == r
  {
    if r != 0 {
      assert t.kids[..|t.kids|] == t.kids;
      var k := KidOf(t.kids, r - 1, 0);
      RankOfPath(t.kids[k], r - 1 - SizeOf(t.kids[..k]));
    }
  }

  // ---------------------------------------------------------------------------
  // Refreshing the caches along one path (recalculateSubtreeSizes)

  /** The node with size and depth recomputed from its children's caches: one step of the upward pass. */
  function Local(t: Tree): (r: Tree)
    ensures Recurrence(r)
  {
    t.(size := 1 + CachedSizeOf(t.kids), depth := 1 + CachedDepthOf(t.kids))
  }

  /** The subtree at the end of p fully recalculated, then every node above it recomputed from its children's caches. */
  function Refresh(t: Tree, p: seq<nat>): (r: Tree)
    requires ValidPath(t, p)
    ensures ValidPath(r, p)
  {
    if p == [] then Recalc(t)
    else Local(t.(kids := t.kids[p[0] := Refresh(t.kids[p[0]], p[1..])]))
  }

  /** Every cache outside the path to the recalculated node (and outside its subtree) is correct. */
  predicate CachedBeside(t: Tree, p: seq<nat>)
    requires ValidPath(t, p)
  {
    p == [] || (
      && (forall i :: 0 <= i < |t.kids| && i != p[0] ==> Cached(t.kids[i]))
      && CachedBeside(t.kids[p[0]], p[1..]))
  }

  /** After the refresh the recalculated subtree is correctly cached and every ancestor keeps the recurrence. */
  lemma {:induction false} RefreshRecurrence(t: Tree, p: seq<nat>)
    requires ValidPath(t, p)
    ensures Cached(At(Refresh(t, p), p))
    ensures forall k :: 0 <= k < |p| ==> ValidPath(Refresh(t, p), p[..k]) && Recurrence(At(Refresh(t, p), p[..k]))
  {
    if p == [] {
      RecalcKeeps(t);
    } else {
      var i := p[0];
      var r := Refresh(t, p);
      RefreshRecurrence(t.kids[i], p[1..]);
      assert r.kids[i] == Refresh(t.kids[i], p[1..]);
      forall k | 0 <= k < |p|
        ensures ValidPath(r, p[..k]) && Recurrence(At(r, p[..k]))
      {
        if k > 0 {
          assert p[..k] == [i] + p[1..][..k - 1];
          assert ValidPath(r.kids[i], p[1..][..k - 1]);
        }
      }
    }
  }

  /** When everything beside the path was correct, the refresh makes the whole tree correct. */
  lemma {:induction false} RefreshCached(t: Tree, p: seq<nat>)
    requires ValidPath(t, p) && CachedBeside(t, p)
    ensures Cached(Refresh(t, p))
  {
    if p == [] {
      RecalcKeeps(t);
    } else {
      var i := p[0];
      RefreshCached(t.kids[i], p[1..]);
      var u := t.(kids := t.kids[i := Refresh(t.kids[i], p[1..])]);
      assert forall j :: 0 <= j < |u.kids| ==> Cached(u.kids[j]);
      CachedSums(u.kids);
      CachedIsRecurrence(Local(u));
    }
  }

  /** The state of the upward pass: the subtree at p is recalculated and the k lowest ancestors recomputed. */
  function Partial(t: Tree, p: seq<nat>, k: nat): (r: Tree)
    requires ValidPath(t, p) && k <= |p|
    ensures ValidPath(r, p)
  {
    if k == 0 then Refresh(t, p)
    else t.(kids := t.kids[p[0] := Partial(t.kids[p[0]], p[1..], k - 1)])
  }

  /** Before the upward pass only the subtree at the end of p has been recalculated. */
  lemma {:induction false} PartialStart(t: Tree, p: seq<nat>)
    requires ValidPath(t, p)
    ensures Partial(t, p, |p|) == Replace(t, p, Recalc(At(t, p)))
  {
    if p != [] {
      PartialStart(t.kids[p[0]], p[1..]);
    }
  }

  /** One iteration of the upward pass recomputes the deepest ancestor not yet recomputed. */
  lemma {:induction false} PartialStep(t: Tree, p: seq<nat>, k: nat)
    requires ValidPath(t, p) && 1 <= k <= |p|
    ensures ValidPath(Partial(t, p, k), p[..k - 1])
    ensures var w := Partial(t, p, k);
      Partial(t, p, k - 1) == Replace(w, p[..k - 1], Local(At(w, p[..k - 1])))
  {
    var w := Partial(t, p, k);
    var i := p[0];
    if k == 1 {
      assert p[..0] == [];
    } else {
      PartialStep(t.kids[i], p[1..], k - 1);
      assert p[..k - 1] == [i] + p[1..][..k - 2];
      assert p[..k - 1][1..] == p[1..][..k - 2];
    }
  }

  // ---------------------------------------------------------------------------
  // Trees built by full

  /** Every leaf sits at depth exactly d and every inner node has at least one child. */
  predicate LeavesAt(t: Tree, d: nat)
  {
    if t.kids == [] then d == 1
    else d > 1 && forall i :: 0 <= i < |t.kids| ==> LeavesAt(t.kids[i], d - 1)
  }

  /** A tree whose leaves all sit at depth d has depth d. */
  lemma {:induction false} LeavesAtDepth(t: Tree, d: nat)
    requires LeavesAt(t, d)
    ensures Depth(t) == d
  {
    forall i | 0 <= i < |t.kids|
      ensures Depth(t.kids[i]) == d - 1
    {
      LeavesAtDepth(t.kids[i], d - 1);
    }
    if t.kids != [] {
      UniformDepth(t.kids, d - 1);
    }
  }

  lemma {:induction false} UniformDepth(ts: seq<Tree>, d: nat)
    requires ts != [] && forall i :: 0 <= i < |ts| ==> Depth(ts[i]) == d
    ensures DepthOf(ts) == d
  {
    if |ts| > 1 {
      UniformDepth(ts[..|ts| - 1], d);
    }
  }

  // ---------------------------------------------------------------------------
  // Printing (GPNode::toString)

  /**
   * A terminal prints its symbol ("C" when the symbol is empty), a unary
   * node `symbol(child)`, a binary node `(left symbol right)`, and any other
   * arity prints nothing.
   */
  function ToString(t: Tree): string
    requires Shaped(t)
  {
    match t.oper.arity
    case 0 => if t.oper.symbol == "" then "C" else t.oper.symbol
    case 1 => t.oper.symbol + "(" + ToString(t.kids[0]) + ")"
    case 2 => "(" + ToString(t.kids[0]) + t.oper.symbol + ToString(t.kids[1]) + ")"
    case _ => ""
  }

  /** Parentheses opened minus parentheses closed. */
  function Net(s: string): int
  {
    if s == [] then 0
    else Net(s[..|s| - 1]) + (if s[|s| - 1] == '(' then 1 else if s[|s| - 1] == ')' then -1 else 0)
  }

  /** Well parenthesised: every prefix closes no more than it opened, and the whole closes all. */
  predicate Balanced(s: string)
  {
    Net(s) == 0 && forall k :: 0 <= k <= |s| ==> Net(s[..k]) >= 0
  }

  predicate NoParens(s: string)
  {
    forall k :: 0 <= k < |s| ==> s[k] != '(' && s[k] != ')'
  }

  /** Every operator symbol in the tree is free of parentheses. */
  predicate PlainSymbols(t: Tree)
  {
    NoParens(t.oper.symbol) && forall i :: 0 <= i < |t.kids| ==> PlainSymbols(t.kids[i])
  }

  lemma {:induction false} NetAppend(a: string, b: string)
    ensures Net(a + b) == Net(a) + Net(b)
    decreases |b|
  {
    if b != [] {
      var n := |b| - 1;
      assert (a + b)[..|a + b| - 1] == a + b[..n];
      NetAppend(a, b[..n]);
    } else {
      assert a + b == a;
    }
  }

  lemma {:induction false} PlainBalanced(s: string)
    requires NoParens(s)
    ensures Balanced(s)
  {
    forall k | 0 <= k <= |s|
      ensures Net(s[..k]) == 0
    {
      PlainNet(s[..k]);
    }
    assert s[..|s|] == s;
  }

  lemma {:induction false} PlainNet(s: string)
    requires NoParens(s)
    ensures Net(s) == 0
  {
    if s != [] {
      PlainNet(s[..|s| - 1]);
    }
  }

  lemma {:induction false} BalancedConcat(a: string, b: string)
    requires Balanced(a) && Balanced(b)
    ensures Balanced(a + b)
  {
    NetAppend(a, b);
    forall k | 0 <= k <= |a + b|
      ensures Net((a + b)[..k]) >= 0
    {
      if k <= |a| {
        assert (a + b)[..k] == a[..k];
      } else {
        assert (a + b)[..k] == a + b[..k - |a|];
        NetAppend(a, b[..k - |a|]);
      }
    }
  }

  lemma {:induction false} BalancedWrap(s: string)
    requires Balanced(s)
    ensures Balanced("(" + s + ")")
  {
    var w := "(" + s + ")";
    NetAppend("(", s);
    NetAppend("(" + s, ")");
    forall k | 0 <= k <= |w|
      ensures Net(w[..k]) >= 0
    {
      if k == |w| {
        assert w[..k] == w;
      } else if k > 0 {
        assert w[..k] == "(" + s[..k - 1];
        NetAppend("(", s[..k - 1]);
      }
    }
  }

  /** With parenthesis-free symbols, every printed expression is well parenthesised. */
  lemma {:induction false} ToStringBalanced(t: Tree)
    requires Shaped(t) && PlainSymbols(t)
    ensures Balanced(ToString(t))
  {
    var sym := t.oper.symbol;
    if t.oper.arity == 0 {
      PlainBalanced(if sym == "" then "C" else sym);
    } else if t.oper.arity == 1 {
      ToStringBalanced(t.kids[0]);
      UnaryBalanced(sym, ToString(t.kids[0]));
    } else if t.oper.arity == 2 {
      ToStringBalanced(t.kids[0]);
      ToStringBalanced(t.kids[1]);
      BinaryBalanced(ToString(t.kids[0]), sym, ToString(t.kids[1]));
    } else {
      PlainBalanced("");
    }
  }

  lemma UnaryBalanced(sym: string, s: string)
    requires NoParens(sym) && Balanced(s)
    ensures Balanced(sym + "(" + s + ")")
  {
    PlainBalanced(sym);
    BalancedWrap(s);
    BalancedConcat(sym, "(" + s + ")");
    assert sym + "(" + s + ")" == sym + ("(" + s + ")");
  }

  lemma BinaryBalanced(l: string, sym: string, r: string)
    requires Balanced(l) && NoParens(sym) && Balanced(r)
    ensures Balanced("(" + l + sym + r + ")")
  {
    PlainBalanced(sym);
    BalancedConcat(l, sym);
    BalancedConcat(l + sym, r);
    BalancedWrap(l + sym + r);
    assert "(" + l + sym + r + ")" == "(" + (l + sym + r) + ")";
  }
}
