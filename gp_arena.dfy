/**
 * GPNode objects as records in one heap: a sequence of nodes addressed by
 * index, where a parent pointer is an index (None for nullptr) and a node's
 * owned children are a sequence of indices. `Represents(h, x, t, parent)`
 * says that the records reachable from x form a tree of exactly t's shape,
 * operators and caches, with consistent parent links and no node shared
 * (unique ownership). The operations of GPNode work on the heap in place.
 */
module GpArena {
  import opened Wrappers
  import opened GpTrees
  import opened Random

  datatype Node = Node(oper: Operator, parent: Option<nat>, children: seq<nat>, size: nat, depth: nat, penalty: real)

  /** The indices of the nodes of the subtree rooted at x, read along t's shape. */
  ghost function Footprint(h: seq<Node>, x: nat, t: Tree): set<nat>
    decreases t
  {
    if x < |h| then
      {x} + set j, w | 0 <= j < |t.kids| && j < |h[x].children| && w in Footprint(h, h[x].children[j], t.kids[j]) :: w
    else {x}
  }

  ghost predicate Represents(h: seq<Node>, x: nat, t: Tree, parent: Option<nat>)
    decreases t
  {
    && x < |h|
    && h[x].oper == t.oper && h[x].parent == parent
    && h[x].size == t.size && h[x].depth == t.depth && h[x].penalty == t.penalty
    && |h[x].children| == |t.kids|
    && (forall j :: 0 <= j < |t.kids| ==> Represents(h, h[x].children[j], t.kids[j], Some(x)))
    && (forall j :: 0 <= j < |t.kids| ==> x !in Footprint(h, h[x].children[j], t.kids[j]))
    && (forall i, j :: 0 <= i < j < |t.kids| ==>
          Footprint(h, h[x].children[i], t.kids[i]) !! Footprint(h, h[x].children[j], t.kids[j]))
  }

  /** The two heaps hold the same records at every index of s. */
  ghost predicate Agree(h: seq<Node>, h': seq<Node>, s: set<nat>)
  {
    forall w :: w in s ==> w < |h| && w < |h'| && h'[w] == h[w]
  }

  lemma {:induction false} FootprintInside(h: seq<Node>, x: nat, t: Tree, p: Option<nat>)
    requires Represents(h, x, t, p)
    ensures x in Footprint(h, x, t)
    ensures forall w :: w in Footprint(h, x, t) ==> w < |h|
    decreases t
  {
    forall j | 0 <= j < |t.kids|
      ensures forall w :: w in Footprint(h, h[x].children[j], t.kids[j]) ==> w < |h|
    {
      FootprintInside(h, h[x].children[j], t.kids[j], Some(x));
    }
  }

  /** A subtree depends only on the records of its own nodes. */
  lemma {:induction false} Frame(h: seq<Node>, h': seq<Node>, x: nat, t: Tree, p: Option<nat>)
    requires Represents(h, x, t, p) && Agree(h, h', Footprint(h, x, t))
    ensures Represents(h', x, t, p) && Footprint(h', x, t) == Footprint(h, x, t)
    decreases t
  {
    assert x in Footprint(h, x, t);
    forall j | 0 <= j < |t.kids|
      ensures Represents(h', h[x].children[j], t.kids[j], Some(x))
      ensures Footprint(h', h[x].children[j], t.kids[j]) == Footprint(h, h[x].children[j], t.kids[j])
    {
      Frame(h, h', h[x].children[j], t.kids[j], Some(x));
    }
    FrameRoot(h, h', x, t, p);
  }

  /** The root step of Frame: with the children's subtrees carried over, so is the whole. */
  lemma FrameRoot(h: seq<Node>, h': seq<Node>, x: nat, t: Tree, p: Option<nat>)
    requires Represents(h, x, t, p) && x < |h'| && h'[x] == h[x]
    requires forall j :: 0 <= j < |t.kids| ==> Represents(h', h[x].children[j], t.kids[j], Some(x))
    requires forall j :: 0 <= j < |t.kids| ==> Footprint(h', h[x].children[j], t.kids[j]) == Footprint(h, h[x].children[j], t.kids[j])
    ensures Represents(h', x, t, p) && Footprint(h', x, t) == Footprint(h, x, t)
  {
  }

  /** Allocating more nodes leaves every existing subtree as it was. */
  lemma Extend(h: seq<Node>, h': seq<Node>, x: nat, t: Tree, p: Option<nat>)
    requires Represents(h, x, t, p) && |h| <= |h'| && h'[..|h|] == h
    ensures Represents(h', x, t, p) && Footprint(h', x, t) == Footprint(h, x, t)
  {
    FootprintInside(h, x, t, p);
    forall w | w in Footprint(h, x, t)
      ensures w < |h| && w < |h'| && h'[w] == h[w]
    {
      assert h'[..|h|][w] == h'[w];
    }
    Frame(h, h', x, t, p);
  }

  /** Rewriting only the root record's parent, caches or penalty. */
  lemma {:induction false} Retag(h: seq<Node>, h': seq<Node>, x: nat, t: Tree, p: Option<nat>, t': Tree, p': Option<nat>)
    requires Represents(h, x, t, p)
    requires t'.oper == t.oper && t'.kids == t.kids
    requires x < |h'| && h'[x] == h[x].(parent := p', size := t'.size, depth := t'.depth, penalty := t'.penalty)
    requires Agree(h, h', Footprint(h, x, t) - {x})
    ensures Represents(h', x, t', p') && Footprint(h', x, t') == Footprint(h, x, t)
  {
    forall j | 0 <= j < |t.kids|
      ensures Represents(h', h[x].children[j], t.kids[j], Some(x))
      ensures Footprint(h', h[x].children[j], t.kids[j]) == Footprint(h, h[x].children[j], t.kids[j])
    {
      var c := h[x].children[j];
      assert Footprint(h, c, t.kids[j]) <= Footprint(h, x, t) - {x};
      AgreeSub(h, h', Footprint(h, c, t.kids[j]), Footprint(h, x, t) - {x});
      Frame(h, h', c, t.kids[j], Some(x));
    }
  }

  // ---------------------------------------------------------------------------
  // Building a node child by child (clone, full and grow)

  /** The children node n owns so far represent us, all allocated at or above lo. */
  ghost predicate Brood(h: seq<Node>, n: nat, us: seq<Tree>, lo: nat)
  {
    && n < lo <= |h| && |h[n].children| == |us|
    && (forall j :: 0 <= j < |us| ==> Represents(h, h[n].children[j], us[j], Some(n)))
    && (forall j, w :: 0 <= j < |us| && w in Footprint(h, h[n].children[j], us[j]) ==> lo <= w < |h|)
    && (forall i, j :: 0 <= i < j < |us| ==>
          Footprint(h, h[n].children[i], us[i]) !! Footprint(h, h[n].children[j], us[j]))
  }

  /** setChild with a freshly allocated subtree. */
  lemma BroodAdd(h: seq<Node>, h1: seq<Node>, n: nat, us: seq<Tree>, lo: nat, c: nat, u: Tree)
    requires Brood(h, n, us, lo) && |h| <= |h1| && h1[..|h|] == h
    requires Represents(h1, c, u, Some(n))
    requires forall w :: w in Footprint(h1, c, u) ==> |h| <= w < |h1|
    ensures Brood(h1[n := h1[n].(children := h1[n].children + [c])], n, us + [u], lo)
  {
    var h2 := h1[n := h1[n].(children := h1[n].children + [c])];
    assert h1[n] == h1[..|h|][n] == h[n];
    forall j | 0 <= j < |us|
      ensures Represents(h2, h2[n].children[j], (us + [u])[j], Some(n))
      ensures Footprint(h2, h2[n].children[j], (us + [u])[j]) == Footprint(h, h[n].children[j], us[j])
    {
      var cj := h[n].children[j];
      Extend(h, h1, cj, us[j], Some(n));
      Frame(h1, h2, cj, us[j], Some(n));
    }
    Frame(h1, h2, c, u, Some(n));
  }

  /** Once every child is set, the node represents the tree with those children. */
  lemma BroodDone(h: seq<Node>, n: nat, us: seq<Tree>, lo: nat, t: Tree, p: Option<nat>)
    requires Brood(h, n, us, lo) && t.kids == us
    requires h[n].oper == t.oper && h[n].parent == p
    requires h[n].size == t.size && h[n].depth == t.depth && h[n].penalty == t.penalty
    ensures Represents(h, n, t, p)
    ensures forall w :: w in Footprint(h, n, t) ==> w == n || lo <= w < |h|
  {
  }

  // ---------------------------------------------------------------------------
  // Following paths through the heap

  /** The node reached from x by following the child indices of p. */
  ghost function Locate(h: seq<Node>, x: nat, p: seq<nat>): nat
    decreases p
  {
    if p == [] then x
    else if x < |h| && p[0] < |h[x].children| then Locate(h, h[x].children[p[0]], p[1..])
    else x
  }

  /** The node at the end of a path represents the subtree there; its parent is the node one step short of it. */
  lemma {:induction false} LocateLemma(h: seq<Node>, x: nat, t: Tree, par: Option<nat>, p: seq<nat>)
    requires Represents(h, x, t, par) && ValidPath(t, p)
    ensures Represents(h, Locate(h, x, p), At(t, p), if p == [] then par else Some(Locate(h, x, p[..|p| - 1])))
    ensures Footprint(h, Locate(h, x, p), At(t, p)) <= Footprint(h, x, t)
    ensures p != [] ==> x !in Footprint(h, Locate(h, x, p), At(t, p))
    decreases p
  {
    FootprintInside(h, x, t, par);
    if p != [] {
      var c := h[x].children[p[0]];
      var rest := p[1..];
      LocateLemma(h, c, t.kids[p[0]], Some(x), rest);
      if rest != [] {
        assert p[..|p| - 1] == [p[0]] + rest[..|rest| - 1];
      } else {
        assert p[..|p| - 1] == [];
      }
    }
  }

  /** One more step along a path is one more child pointer. */
  lemma {:induction false} LocateSnoc(h: seq<Node>, x: nat, t: Tree, par: Option<nat>, p: seq<nat>, i: nat)
    requires Represents(h, x, t, par) && ValidPath(t, p) && i < |At(t, p).kids|
    ensures Locate(h, x, p) < |h| && i < |h[Locate(h, x, p)].children|
    ensures Locate(h, x, p + [i]) == h[Locate(h, x, p)].children[i]
    decreases p
  {
    LocateLemma(h, x, t, par, p);
    if p != [] {
      assert (p + [i])[1..] == p[1..] + [i];
      LocateSnoc(h, h[x].children[p[0]], t.kids[p[0]], Some(x), p[1..], i);
    }
  }

  /** Paths are followed through child pointers only. */
  lemma {:induction false} LocateLinks(h: seq<Node>, h': seq<Node>, x: nat, p: seq<nat>)
    requires |h'| == |h| && forall w :: 0 <= w < |h| ==> h'[w].children == h[w].children
    ensures Locate(h', x, p) == Locate(h, x, p)
    decreases p
  {
    if p != [] && x < |h| && p[0] < |h[x].children| {
      LocateLinks(h, h', h[x].children[p[0]], p[1..]);
    }
  }

  /**
   * The splice: pointing child slot p[|p|-1] of the node q at the end of
   * p's prefix to a subtree y, while every other record outside the removed
   * subtree stays, makes x represent t with s in place of At(t, p).
   */
  lemma {:induction false} Graft(h: seq<Node>, h': seq<Node>, x: nat, t: Tree, par: Option<nat>,
                                 p: seq<nat>, q: nat, y: nat, s: Tree)
    requires Represents(h, x, t, par) && ValidPath(t, p) && p != []
    requires q == Locate(h, x, p[..|p| - 1])
    requires q < |h| && q < |h'| && p[|p| - 1] < |h[q].children|
    requires h'[q] == h[q].(children := h[q].children[p[|p| - 1] := y])
    requires Agree(h, h', Footprint(h, x, t) - Footprint(h, Locate(h, x, p), At(t, p)) - {q})
    requires Represents(h', y, s, Some(q))
    requires Footprint(h', y, s) !! Footprint(h, x, t) - Footprint(h, Locate(h, x, p), At(t, p))
    ensures Represents(h', x, Replace(t, p, s), par)
    ensures Footprint(h', x, Replace(t, p, s)) <= Footprint(h, x, t) - Footprint(h, Locate(h, x, p), At(t, p)) + Footprint(h', y, s)
    decreases p
  {
    var i := p[0];
    var c := h[x].children[i];
    if |p| == 1 {
      assert Locate(h, x, p) == Locate(h, c, p[1..]);
      LocateLemma(h, c, t.kids[i], Some(x), p[1..]);
      assert p[..|p| - 1] == [];
      Assemble(h, h', x, t, par, i, y, s);
    } else {
      GraftDown(h, h', x, t, par, p, q, y, s);
      Graft(h, h', c, t.kids[i], Some(x), p[1..], q, y, s);
      GraftUp(h, h', x, t, par, p, q, y, s);
    }
  }

  /** The recursive case of Graft: its requirements hold one level down, at the child on the path. */
  lemma GraftDown(h: seq<Node>, h': seq<Node>, x: nat, t: Tree, par: Option<nat>,
                  p: seq<nat>, q: nat, y: nat, s: Tree)
    requires Represents(h, x, t, par) && ValidPath(t, p) && |p| > 1
    requires q == Locate(h, x, p[..|p| - 1])
    requires q < |h| && q < |h'| && p[|p| - 1] < |h[q].children|
    requires Agree(h, h', Footprint(h, x, t) - Footprint(h, Locate(h, x, p), At(t, p)) - {q})
    requires Footprint(h', y, s) !! Footprint(h, x, t) - Footprint(h, Locate(h, x, p), At(t, p))
    ensures x < |h| && p[0] < |t.kids| == |h[x].children|
    ensures Represents(h, h[x].children[p[0]], t.kids[p[0]], Some(x)) && ValidPath(t.kids[p[0]], p[1..])
    ensures Locate(h, x, p) == Locate(h, h[x].children[p[0]], p[1..]) && At(t, p) == At(t.kids[p[0]], p[1..])
    ensures q == Locate(h, h[x].children[p[0]], p[1..][..|p| - 2]) && p[1..][|p| - 2] == p[|p| - 1]
    ensures Agree(h, h', Footprint(h, h[x].children[p[0]], t.kids[p[0]]) - Footprint(h, Locate(h, x, p), At(t, p)) - {q})
    ensures Footprint(h', y, s) !! Footprint(h, h[x].children[p[0]], t.kids[p[0]]) - Footprint(h, Locate(h, x, p), At(t, p))
  {
    var i := p[0];
    var c := h[x].children[i];
    var rest := p[1..];
    assert Locate(h, x, p) == Locate(h, c, rest);
    LocateLemma(h, c, t.kids[i], Some(x), rest);
    LocatePrefixStep(h, x, p);
    var F := Footprint(h, x, t);
    var Fc := Footprint(h, c, t.kids[i]);
    var Z := Footprint(h, Locate(h, x, p), At(t, p));
    assert Fc <= F;
    AgreeSub(h, h', Fc - Z - {q}, F - Z - {q});
  }

  /** The recursive case of Graft: relinking the grafted child subtree back under x. */
  lemma GraftUp(h: seq<Node>, h': seq<Node>, x: nat, t: Tree, par: Option<nat>,
                p: seq<nat>, q: nat, y: nat, s: Tree)
    requires Represents(h, x, t, par) && ValidPath(t, p) && |p| > 1
    requires q == Locate(h, x, p[..|p| - 1])
    requires q < |h| && q < |h'| && p[|p| - 1] < |h[q].children|
    requires Agree(h, h', Footprint(h, x, t) - Footprint(h, Locate(h, x, p), At(t, p)) - {q})
    requires Footprint(h', y, s) !! Footprint(h, x, t) - Footprint(h, Locate(h, x, p), At(t, p))
    requires x < |h| && p[0] < |t.kids| == |h[x].children|
    requires Locate(h, x, p) == Locate(h, h[x].children[p[0]], p[1..]) && At(t, p) == At(t.kids[p[0]], p[1..])
    requires Represents(h', h[x].children[p[0]], Replace(t.kids[p[0]], p[1..], s), Some(x))
    requires Footprint(h', h[x].children[p[0]], Replace(t.kids[p[0]], p[1..], s))
      <= Footprint(h, h[x].children[p[0]], t.kids[p[0]]) - Footprint(h, Locate(h, x, p), At(t, p)) + Footprint(h', y, s)
    ensures Represents(h', x, Replace(t, p, s), par)
    ensures Footprint(h', x, Replace(t, p, s)) <= Footprint(h, x, t) - Footprint(h, Locate(h, x, p), At(t, p)) + Footprint(h', y, s)
  {
    var i := p[0];
    var c := h[x].children[i];
    var rest := p[1..];
    var u := Replace(t.kids[i], rest, s);
    var F := Footprint(h, x, t);
    var Fc := Footprint(h, c, t.kids[i]);
    var Z := Footprint(h, Locate(h, x, p), At(t, p));
    var Y := Footprint(h', y, s);
    var U := Footprint(h', c, u);
    GraftSets(h, x, t, par, p, q);
    GraftAlgebra(F, Fc, Z, Y, U, x, q);
    AgreeSub(h, h', F - Fc - {x}, F - Z - {q});
    AgreeSub(h, h', {x}, F - Z - {q});
    UpdateSame(h[x].children, i);
    KidsApartFrom(h, x, t, par, i, U);
    Assemble(h, h', x, t, par, i, c, u);
    assert Replace(t, p, s) == t.(kids := t.kids[i := u]);
  }

  /** The set reasoning of GraftUp: x's other records are kept, and the new child subtree stays clear of them. */
  lemma GraftAlgebra(F: set<nat>, Fc: set<nat>, Z: set<nat>, Y: set<nat>, U: set<nat>, x: nat, q: nat)
    requires Z <= Fc <= F && q in Fc && x in F && x !in Fc
    requires U <= Fc - Z + Y && Y !! F - Z
    ensures F - Fc - {x} <= F - Z - {q} && {x} <= F - Z - {q}
    ensures x !in U && U !! F - Fc - {x}
    ensures F - Fc + U <= F - Z + Y
  {
  }

  /** A set clear of x's records outside child i is clear of every other child's records. */
  lemma KidsApartFrom(h: seq<Node>, x: nat, t: Tree, par: Option<nat>, i: nat, S: set<nat>)
    requires Represents(h, x, t, par) && i < |t.kids|
    requires S !! Footprint(h, x, t) - Footprint(h, h[x].children[i], t.kids[i]) - {x}
    ensures forall j :: 0 <= j < |t.kids| && j != i ==> S !! Footprint(h, h[x].children[j], t.kids[j])
  {
    KidsApart(h, x, t, par, i);
  }

  /** Where the grafting point and its parent lie within x's footprint. */
  lemma GraftSets(h: seq<Node>, x: nat, t: Tree, par: Option<nat>, p: seq<nat>, q: nat)
    requires Represents(h, x, t, par) && ValidPath(t, p) && |p| > 1
    requires q == Locate(h, x, p[..|p| - 1])
    requires Locate(h, x, p) == Locate(h, h[x].children[p[0]], p[1..]) && At(t, p) == At(t.kids[p[0]], p[1..])
    ensures p[0] < |t.kids| && x < |h|
    ensures q in Footprint(h, h[x].children[p[0]], t.kids[p[0]]) && x in Footprint(h, x, t)
    ensures x !in Footprint(h, h[x].children[p[0]], t.kids[p[0]])
    ensures Footprint(h, Locate(h, x, p), At(t, p)) <= Footprint(h, h[x].children[p[0]], t.kids[p[0]]) <= Footprint(h, x, t)
  {
    var i := p[0];
    var c := h[x].children[i];
    var rest := p[1..];
    LocateLemma(h, c, t.kids[i], Some(x), rest);
    LocatePrefixStep(h, x, p);
    PathPrefix(t.kids[i], rest);
    LocateLemma(h, c, t.kids[i], Some(x), rest[..|rest| - 1]);
    assert q in Footprint(h, q, At(t.kids[i], rest[..|rest| - 1]));
  }

  lemma UpdateSame<T>(s: seq<T>, i: nat)
    requires i < |s|
    ensures s[i := s[i]] == s
  {
  }

  lemma AgreeSub(h: seq<Node>, h': seq<Node>, a: set<nat>, b: set<nat>)
    requires Agree(h, h', b) && a <= b
    ensures Agree(h, h', a)
  {
  }

  /** The other children's nodes lie outside child i's subtree and are not x. */
  lemma KidsApart(h: seq<Node>, x: nat, t: Tree, par: Option<nat>, i: nat)
    requires Represents(h, x, t, par) && i < |t.kids|
    ensures forall j :: 0 <= j < |t.kids| && j != i ==>
      && Footprint(h, h[x].children[j], t.kids[j]) <= Footprint(h, x, t) - Footprint(h, h[x].children[i], t.kids[i]) - {x}
  {
  }

  /** Following all but the last index of a path, one step at a time. */
  lemma LocatePrefixStep(h: seq<Node>, x: nat, p: seq<nat>)
    requires |p| > 1 && x < |h| && p[0] < |h[x].children|
    ensures Locate(h, x, p[..|p| - 1]) == Locate(h, h[x].children[p[0]], p[1..][..|p| - 2])
    ensures p[1..][|p| - 2] == p[|p| - 1]
  {
    assert p[..|p| - 1] == [p[0]] + p[1..][..|p| - 2];
  }

  /** Pointing child slot i of x to another subtree u, disjoint from x and its other children. */
  lemma Assemble(h: seq<Node>, h': seq<Node>, x: nat, t: Tree, par: Option<nat>, i: nat, y: nat, u: Tree)
    requires Represents(h, x, t, par) && i < |t.kids|
    requires x < |h'| && h'[x] == h[x].(children := h[x].children[i := y])
    requires Agree(h, h', Footprint(h, x, t) - Footprint(h, h[x].children[i], t.kids[i]) - {x})
    requires Represents(h', y, u, Some(x)) && x !in Footprint(h', y, u)
    requires forall j :: 0 <= j < |t.kids| && j != i ==> Footprint(h', y, u) !! Footprint(h, h[x].children[j], t.kids[j])
    ensures Represents(h', x, t.(kids := t.kids[i := u]), par)
    ensures Footprint(h', x, t.(kids := t.kids[i := u]))
      <= Footprint(h, x, t) - Footprint(h, h[x].children[i], t.kids[i]) + Footprint(h', y, u)
  {
    OtherKids(h, h', x, t, par, i);
  }

  /** The children other than slot i keep representing their subtrees when only records outside them change. */
  lemma OtherKids(h: seq<Node>, h': seq<Node>, x: nat, t: Tree, par: Option<nat>, i: nat)
    requires Represents(h, x, t, par) && i < |t.kids|
    requires Agree(h, h', Footprint(h, x, t) - Footprint(h, h[x].children[i], t.kids[i]) - {x})
    ensures forall j :: 0 <= j < |t.kids| && j != i ==>
      && Represents(h', h[x].children[j], t.kids[j], Some(x))
      && Footprint(h', h[x].children[j], t.kids[j]) == Footprint(h, h[x].children[j], t.kids[j])
  {
    forall j | 0 <= j < |t.kids| && j != i
      ensures Represents(h', h[x].children[j], t.kids[j], Some(x))
      ensures Footprint(h', h[x].children[j], t.kids[j]) == Footprint(h, h[x].children[j], t.kids[j])
    {
      Frame(h, h', h[x].children[j], t.kids[j], Some(x));
    }
  }

  // ---------------------------------------------------------------------------
  // GPNode operations

  /**
   * GPNode::clone: a deep copy of the subtree at x, appended to the heap,
   * whose root points to newParent. Operators and caches are copied.
   */
  method Clone(h: seq<Node>, x: nat, ghost t: Tree, ghost par: Option<nat>, newParent: Option<nat>)
    returns (h': seq<Node>, y: nat)
    requires Represents(h, x, t, par)
    ensures y == |h| < |h'| && h'[..|h|] == h
    ensures Represents(h', y, t, newParent)
    ensures forall w :: w in Footprint(h', y, t) ==> |h| <= w < |h'|
    decreases t
  {
    y := |h|;
    var n := h[x];
    h' := h + [Node(n.oper, newParent, [], n.size, n.depth, n.penalty)];
    var j := 0;
    while j < |n.children|
      invariant j <= |t.kids| == |n.children|
      invariant y < |h'| && h'[..|h|] == h
      invariant h'[y] == Node(n.oper, newParent, h'[y].children, n.size, n.depth, n.penalty)
      invariant Brood(h', y, t.kids[..j], |h| + 1)
    {
      Extend(h, h', n.children[j], t.kids[j], Some(x));
      var h1, c := Clone(h', n.children[j], t.kids[j], Some(x), Some(y));
      BroodAdd(h', h1, y, t.kids[..j], |h| + 1, c, t.kids[j]);
      assert t.kids[..j] + [t.kids[j]] == t.kids[..j + 1];
      assert h1[..|h|] == h1[..|h'|][..|h|];
      h' := h1[y := h1[y].(children := h1[y].children + [c])];
      j := j + 1;
    }
    assert t.kids[..j] == t.kids;
    BroodDone(h', y, t.kids, |h| + 1, t, newParent);
  }

  /**
   * What recalculateSubtreeSizesRecursive leaves behind: x represents the
   * recalculated tree within its old footprint, only caches changed, and
   * nothing outside the subtree changed.
   */
  ghost predicate Recalculated(h: seq<Node>, h': seq<Node>, x: nat, t: Tree, par: Option<nat>)
  {
    && Represents(h', x, Recalc(t), par)
    && Footprint(h', x, Recalc(t)) <= Footprint(h, x, t)
    && CachesOnly(h, h')
    && forall w :: 0 <= w < |h| && w !in Footprint(h, x, t) ==> h'[w] == h[w]
  }

  /** Only the cached size and depth of records may differ. */
  ghost predicate CachesOnly(h: seq<Node>, h': seq<Node>)
  {
    && |h'| == |h|
    && forall w :: 0 <= w < |h| ==>
         h'[w].oper == h[w].oper && h'[w].parent == h[w].parent && h'[w].children == h[w].children && h'[w].penalty == h[w].penalty
  }

  /** The tree whose first j children have been recalculated. */
  function Mix(t: Tree, j: nat): (m: Tree)
    requires j <= |t.kids|
    ensures m.oper == t.oper && |m.kids| == |t.kids|
    ensures forall i :: 0 <= i < |t.kids| ==> m.kids[i] == if i < j then Recalc(t.kids[i]) else t.kids[i]
  {
    t.(kids := RecalcAll(t.kids[..j]) + t.kids[j..])
  }

  lemma MixDone(t: Tree)
    ensures Mix(t, |t.kids|).kids == Recalc(t).kids
    ensures SizeOf(t.kids[..|t.kids|]) == SizeOf(t.kids) && DepthOf(t.kids[..|t.kids|]) == DepthOf(t.kids)
  {
    assert t.kids[..|t.kids|] == t.kids;
  }

  /** Once every child is recalculated, the running sums are the recalculated tree's caches. */
  lemma MixSums(t: Tree, sum: nat, maxDepth: nat)
    requires sum == 1 + SizeOf(t.kids[..|t.kids|]) && maxDepth == DepthOf(t.kids[..|t.kids|])
    ensures Mix(t, |t.kids|).kids == Recalc(t).kids && Mix(t, |t.kids|).oper == Recalc(t).oper
    ensures Mix(t, |t.kids|).penalty == Recalc(t).penalty
    ensures sum == Recalc(t).size && maxDepth + 1 == Recalc(t).depth
  {
    MixDone(t);
  }

  lemma MixStep(t: Tree, j: nat)
    requires j < |t.kids|
    ensures Mix(t, j).(kids := Mix(t, j).kids[j := Recalc(t.kids[j])]) == Mix(t, j + 1)
  {
    assert Mix(t, j).kids[j := Recalc(t.kids[j])] == Mix(t, j + 1).kids;
  }

  /**
   * GPNode::recalculateSubtreeSizesRecursive: every cache in the subtree at x
   * is recomputed bottom-up; the subtree size is returned.
   */
  method RecalculateSubtreeSizesRecursive(h: seq<Node>, x: nat, ghost t: Tree, ghost par: Option<nat>)
    returns (h': seq<Node>, sum: nat)
    requires Represents(h, x, t, par)
    ensures Recalculated(h, h', x, t, par) && sum == Size(t)
    decreases t, 2
  {
    var maxDepth;
    h', sum, maxDepth := RecalculateChildren(h, x, t, par);
    var h1 := h'[x := h'[x].(size := sum, depth := maxDepth + 1)];
    RecalcFinish(h, h', h1, x, t, par, Footprint(h, x, t), sum, maxDepth);
    h' := h1;
  }

  /** The loop of recalculateSubtreeSizesRecursive: each child recalculated in turn, summing sizes and taking the deepest. */
  method RecalculateChildren(h: seq<Node>, x: nat, ghost t: Tree, ghost par: Option<nat>)
    returns (h': seq<Node>, sum: nat, maxDepth: nat)
    requires Represents(h, x, t, par)
    ensures RecalcLoop(h, h', x, t, par, |t.kids|, Footprint(h, x, t), sum, maxDepth)
    decreases t, 1
  {
    ghost var F := Footprint(h, x, t);
    sum := 1;
    maxDepth := 0;
    h' := h;
    var children := h[x].children;
    var j := 0;
    RecalcStart(h, x, t, par);
    while j < |children|
      invariant j <= |t.kids| == |children| && children == h[x].children
      invariant RecalcLoop(h, h', x, t, par, j, F, sum, maxDepth)
    {
      h', sum, maxDepth := RecalculateChild(h, h', x, t, par, j, F, children[j], sum, maxDepth);
      j := j + 1;
    }
  }

  /** One iteration of that loop: child j recalculated, its size added and its new depth read back. */
  method RecalculateChild(ghost h: seq<Node>, h': seq<Node>, x: nat, ghost t: Tree, ghost par: Option<nat>, j: nat,
                          ghost F: set<nat>, c: nat, sum: nat, maxDepth: nat)
    returns (h1: seq<Node>, sum': nat, maxDepth': nat)
    requires RecalcLoop(h, h', x, t, par, j, F, sum, maxDepth) && j < |t.kids| && j < |h[x].children| && c == h[x].children[j]
    ensures RecalcLoop(h, h1, x, t, par, j + 1, F, sum', maxDepth')
    decreases t, 0
  {
    RecalcEnter(h, h', x, t, par, j, F, sum, maxDepth);
    var s;
    h1, s := RecalculateSubtreeSizesRecursive(h', c, t.kids[j], Some(x));
    RecalcAdvance(h, h', h1, x, t, par, j, F, sum, maxDepth);
    PrefixStep(t.kids, j);
    sum' := sum + s;
    maxDepth' := maxDepth;
    if h1[c].depth > maxDepth' {
      maxDepth' := h1[c].depth;
    }
  }

  /** The state of the loop of RecalculateSubtreeSizesRecursive after j children. */
  ghost predicate RecalcLoop(h: seq<Node>, h': seq<Node>, x: nat, t: Tree, par: Option<nat>, j: nat, F: set<nat>,
                             sum: nat, maxDepth: nat)
  {
    && j <= |t.kids| && x < |h| && CachesOnly(h, h') && h'[x] == h[x]
    && (forall w :: 0 <= w < |h| && w !in F ==> h'[w] == h[w])
    && Represents(h', x, Mix(t, j), par) && Footprint(h', x, Mix(t, j)) <= F
    && sum == 1 + SizeOf(t.kids[..j]) && maxDepth == DepthOf(t.kids[..j])
  }

  lemma RecalcStart(h: seq<Node>, x: nat, t: Tree, par: Option<nat>)
    requires Represents(h, x, t, par)
    ensures RecalcLoop(h, h, x, t, par, 0, Footprint(h, x, t), 1, 0)
  {
    assert Mix(t, 0) == t;
  }

  lemma RecalcEnter(h: seq<Node>, h': seq<Node>, x: nat, t: Tree, par: Option<nat>, j: nat, F: set<nat>, sum: nat, maxDepth: nat)
    requires RecalcLoop(h, h', x, t, par, j, F, sum, maxDepth) && j < |t.kids|
    ensures j < |h[x].children| && Represents(h', h[x].children[j], t.kids[j], Some(x))
  {
    assert Mix(t, j).kids[j] == t.kids[j];
  }

  lemma RecalcAdvance(h: seq<Node>, h': seq<Node>, h1: seq<Node>, x: nat, t: Tree, par: Option<nat>, j: nat, F: set<nat>,
                      sum: nat, maxDepth: nat)
    requires RecalcLoop(h, h', x, t, par, j, F, sum, maxDepth) && j < |t.kids| && j < |h[x].children|
    requires Represents(h1, h[x].children[j], Recalc(t.kids[j]), Some(x))
    requires Footprint(h1, h[x].children[j], Recalc(t.kids[j])) <= Footprint(h', h[x].children[j], t.kids[j])
    requires CachesOnly(h', h1)
    requires forall w :: 0 <= w < |h'| && w !in Footprint(h', h[x].children[j], t.kids[j]) ==> h1[w] == h'[w]
    requires |h1| == |h| && h1[h[x].children[j]].size == Size(t.kids[j])
    ensures RecalcLoop(h, h1, x, t, par, j + 1, F, sum + Size(t.kids[j]), Max(maxDepth, Depth(t.kids[j])))
    ensures h1[h[x].children[j]].depth == Depth(t.kids[j])
  {
    RecalcStep(h', h1, x, t, par, j, F, h[x].children[j]);
    RecalcFrame(h, h', h1, x, t, par, j, F);
    RecalcKeeps(t.kids[j]);
    PrefixStep(t.kids, j);
  }

  /** The last statement of RecalculateSubtreeSizesRecursive: x's own caches get the computed sums. */
  lemma RecalcFinish(h: seq<Node>, h': seq<Node>, h1: seq<Node>, x: nat, t: Tree, par: Option<nat>, F: set<nat>,
                     sum: nat, maxDepth: nat)
    requires Represents(h, x, t, par) && RecalcLoop(h, h', x, t, par, |t.kids|, F, sum, maxDepth)
    requires F == Footprint(h, x, t)
    requires h1 == h'[x := h'[x].(size := sum, depth := maxDepth + 1)]
    ensures Recalculated(h, h1, x, t, par) && sum == Size(t)
  {
    var m := Mix(t, |t.kids|);
    MixSums(t, sum, maxDepth);
    CacheRetag(h', h1, x, m, par, Recalc(t), sum, maxDepth + 1);
    assert x in Footprint(h', x, m);
    CacheUpdate(h, h', h1, x, F, sum, maxDepth + 1);
  }

  /** Rewriting the root record's caches to those of a tree with the same operator and children. */
  lemma CacheRetag(h': seq<Node>, h1: seq<Node>, x: nat, m: Tree, par: Option<nat>, T: Tree, size: nat, depth: nat)
    requires Represents(h', x, m, par) && T.oper == m.oper && T.kids == m.kids && h'[x].penalty == T.penalty
    requires size == T.size && depth == T.depth
    requires h1 == h'[x := h'[x].(size := size, depth := depth)]
    ensures Represents(h1, x, T, par) && Footprint(h1, x, T) == Footprint(h', x, m)
  {
    FootprintInside(h', x, m, par);
    assert Agree(h', h1, Footprint(h', x, m) - {x});
    Retag(h', h1, x, m, par, T, par);
  }

  /** One child recalculated in place: records outside x's footprint, and x itself, are untouched. */
  lemma RecalcFrame(h: seq<Node>, h': seq<Node>, h1: seq<Node>, x: nat, t: Tree, par: Option<nat>, j: nat, F: set<nat>)
    requires j < |t.kids|
    requires CachesOnly(h, h') && x < |h| && h'[x] == h[x]
    requires forall w :: 0 <= w < |h| && w !in F ==> h'[w] == h[w]
    requires Represents(h', x, Mix(t, j), par) && Footprint(h', x, Mix(t, j)) <= F
    requires CachesOnly(h', h1)
    requires forall w :: 0 <= w < |h'| && w !in Footprint(h', h[x].children[j], t.kids[j]) ==> h1[w] == h'[w]
    ensures CachesOnly(h, h1) && h1[x] == h[x]
    ensures forall w :: 0 <= w < |h| && w !in F ==> h1[w] == h[w]
  {
    var m := Mix(t, j);
    assert m.kids[j] == t.kids[j];
    var Fc := Footprint(h', h[x].children[j], t.kids[j]);
    assert Fc <= Footprint(h', x, m) && x !in Fc;
  }

  /** One child recalculated in place: x now represents the tree with one more child recalculated. */
  lemma RecalcStep(h': seq<Node>, h1: seq<Node>, x: nat, t: Tree, par: Option<nat>, j: nat, F: set<nat>, c: nat)
    requires j < |t.kids| && x < |h'| && j < |h'[x].children| && c == h'[x].children[j]
    requires Represents(h', x, Mix(t, j), par) && Footprint(h', x, Mix(t, j)) <= F
    requires Represents(h1, c, Recalc(t.kids[j]), Some(x))
    requires Footprint(h1, c, Recalc(t.kids[j])) <= Footprint(h', c, t.kids[j])
    requires |h1| == |h'|
    requires forall w :: 0 <= w < |h'| && w !in Footprint(h', c, t.kids[j]) ==> h1[w] == h'[w]
    ensures Represents(h1, x, Mix(t, j + 1), par) && Footprint(h1, x, Mix(t, j + 1)) <= F
  {
    var m := Mix(t, j);
    var u := Recalc(t.kids[j]);
    assert m.kids[j] == t.kids[j];
    SlotApart(h', h1, x, m, par, j, u);
    Assemble(h', h1, x, m, par, j, c, u);
    MixStep(t, j);
  }

  /** The preconditions of Assemble for a child slot rewritten in place inside its own footprint. */
  lemma SlotApart(h': seq<Node>, h1: seq<Node>, x: nat, m: Tree, par: Option<nat>, j: nat, u: Tree)
    requires Represents(h', x, m, par) && j < |m.kids|
    requires Represents(h1, h'[x].children[j], u, Some(x))
    requires Footprint(h1, h'[x].children[j], u) <= Footprint(h', h'[x].children[j], m.kids[j])
    requires |h1| == |h'|
    requires forall w :: 0 <= w < |h'| && w !in Footprint(h', h'[x].children[j], m.kids[j]) ==> h1[w] == h'[w]
    ensures x < |h1| && h1[x] == h'[x].(children := h'[x].children[j := h'[x].children[j]])
    ensures Agree(h', h1, Footprint(h', x, m) - Footprint(h', h'[x].children[j], m.kids[j]) - {x})
    ensures x !in Footprint(h1, h'[x].children[j], u)
    ensures forall i :: 0 <= i < |m.kids| && i != j ==>
      Footprint(h1, h'[x].children[j], u) !! Footprint(h', h'[x].children[i], m.kids[i])
  {
    var c := h'[x].children[j];
    var Fm := Footprint(h', x, m);
    var Fc := Footprint(h', c, m.kids[j]);
    UpdateSame(h'[x].children, j);
    FootprintInside(h', x, m, par);
    assert x in Fm && x !in Fc;
    KidsApart(h', x, m, par, j);
  }

  /**
   * GPNode::recalculateSubtreeSizes on the node x at the end of path P from
   * the root r: the subtree at x is recalculated, then every ancestor up to
   * the root recomputes its caches from its children's caches.
   */
  method RecalculateSubtreeSizes(h: seq<Node>, x: nat, ghost r: nat, ghost V: Tree, ghost P: seq<nat>)
    returns (h': seq<Node>)
    requires Represents(h, r, V, None) && ValidPath(V, P) && x == Locate(h, r, P)
    ensures Refreshed(h, h', r, V, P)
  {
    ghost var q := if P == [] then None else Some(Locate(h, r, P[..|P| - 1]));
    LocateLemma(h, r, V, None, P);
    var sum;
    h', sum := RecalculateSubtreeSizesRecursive(h, x, At(V, P), q);
    UpStart(h, h', x, r, V, P);
    h' := UpPass(h, h', r, V, P, h'[x].parent);
  }

  /** The upward loop of recalculateSubtreeSizes, from the parent of the recalculated node to the root. */
  method UpPass(ghost h: seq<Node>, h1: seq<Node>, ghost r: nat, ghost V: Tree, ghost P: seq<nat>, parent: Option<nat>)
    returns (h': seq<Node>)
    requires UpLoop(h, h1, r, V, P, |P|, parent)
    ensures Refreshed(h, h', r, V, P)
  {
    h' := h1;
    var node := parent;
    ghost var k: nat := |P|;
    while node.Some?
      invariant UpLoop(h, h', r, V, P, k, node)
      decreases k
    {
      h', node, k := RecomputeAncestor(h, h', r, V, P, k, node.value);
    }
  }

  /** One iteration of the upward loop: n's size and depth are recomputed from its children's caches, and the loop moves to n's parent. */
  method RecomputeAncestor(ghost h: seq<Node>, h': seq<Node>, ghost r: nat, ghost V: Tree, ghost P: seq<nat>, ghost k: nat, n: nat)
    returns (h1: seq<Node>, next: Option<nat>, ghost k': nat)
    requires UpLoop(h, h', r, V, P, k, Some(n))
    ensures k' < k && UpLoop(h, h1, r, V, P, k', next)
  {
    UpEnter(h, h', r, V, P, k, n);
    var sum, maxDepth := SumChildren(h', n, At(Partial(V, P, k), P[..k - 1]), UpOwner(h, r, P, k));
    h1 := h'[n := h'[n].(size := sum, depth := maxDepth + 1)];
    UpStep(h, h', h1, r, V, P, k, n);
    next := h1[n].parent;
    k' := k - 1;
  }

  /** The upward pass leaves r representing the refreshed tree, with only caches changed and only inside r's tree. */
  ghost predicate Refreshed(h: seq<Node>, h': seq<Node>, r: nat, V: Tree, P: seq<nat>)
    requires ValidPath(V, P)
  {
    && Represents(h', r, Refresh(V, P), None)
    && Footprint(h', r, Refresh(V, P)) <= Footprint(h, r, V)
    && CachesOnly(h, h')
    && forall w :: 0 <= w < |h| && w !in Footprint(h, r, V) ==> h'[w] == h[w]
  }

  /** The parent of the node at depth k - 1 of the path: None for the root. */
  ghost function UpOwner(h: seq<Node>, r: nat, P: seq<nat>, k: nat): Option<nat>
    requires 0 < k <= |P| + 1
  {
    if k == 1 then None else Some(Locate(h, r, P[..k - 2]))
  }

  /** The state of the upward loop: k ancestors remain, node is the next one (None past the root). */
  ghost predicate UpLoop(h: seq<Node>, h': seq<Node>, r: nat, V: Tree, P: seq<nat>, k: nat, node: Option<nat>)
  {
    && ValidPath(V, P) && k <= |P|
    && Represents(h', r, Partial(V, P, k), None)
    && Footprint(h', r, Partial(V, P, k)) <= Footprint(h, r, V)
    && CachesOnly(h, h')
    && (forall w :: 0 <= w < |h| && w !in Footprint(h, r, V) ==> h'[w] == h[w])
    && (k == 0 ==> node == None)
    && (k > 0 ==> node == Some(Locate(h, r, P[..k - 1])))
  }

  /** The sums the inner loop of the upward pass computes over the children of n. */
  method SumChildren(h: seq<Node>, n: nat, ghost T: Tree, ghost par: Option<nat>) returns (sum: nat, maxDepth: nat)
    requires Represents(h, n, T, par)
    ensures sum == 1 + CachedSizeOf(T.kids) && maxDepth == CachedDepthOf(T.kids)
  {
    sum := 1;
    maxDepth := 0;
    var children := h[n].children;
    var i := 0;
    while i < |children|
      invariant i <= |children| == |T.kids|
      invariant sum == 1 + CachedSizeOf(T.kids[..i]) && maxDepth == CachedDepthOf(T.kids[..i])
    {
      assert T.kids[..i + 1][..i] == T.kids[..i];
      sum := sum + h[children[i]].size;
      if h[children[i]].depth > maxDepth {
        maxDepth := h[children[i]].depth;
      }
      i := i + 1;
    }
    assert T.kids[..i] == T.kids;
  }

  /** After the downward pass the loop state holds with every ancestor still to do. */
  lemma UpStart(h: seq<Node>, h1: seq<Node>, x: nat, r: nat, V: Tree, P: seq<nat>)
    requires Represents(h, r, V, None) && ValidPath(V, P) && x == Locate(h, r, P)
    requires Recalculated(h, h1, x, At(V, P), if P == [] then None else Some(Locate(h, r, P[..|P| - 1])))
    ensures x < |h1| && UpLoop(h, h1, r, V, P, |P|, h1[x].parent)
  {
    LocateLemma(h, r, V, None, P);
    PartialStart(V, P);
    if P != [] {
      var q := Locate(h, r, P[..|P| - 1]);
      var F := Footprint(h, r, V);
      var Z := Footprint(h, x, At(V, P));
      PathPrefix(V, P);
      LocateSnoc(h, r, V, None, P[..|P| - 1], P[|P| - 1]);
      SnocSplit(P);
      LocateLemma(h, r, V, None, P[..|P| - 1]);
      assert q in Footprint(h, q, At(V, P[..|P| - 1]));
      assert q !in Z;
      UpdateSame(h[q].children, P[|P| - 1]);
      FootprintInside(h, r, V, None);
      Graft(h, h1, r, V, None, P, q, x, Recalc(At(V, P)));
    }
  }

  /** The next ancestor represents the subtree of the partial state at its place on the path. */
  lemma UpEnter(h: seq<Node>, h': seq<Node>, r: nat, V: Tree, P: seq<nat>, k: nat, n: nat)
    requires UpLoop(h, h', r, V, P, k, Some(n))
    ensures 0 < k && ValidPath(Partial(V, P, k), P[..k - 1])
    ensures Represents(h', n, At(Partial(V, P, k), P[..k - 1]), UpOwner(h, r, P, k))
  {
    PartialStep(V, P, k);
    var W := Partial(V, P, k);
    var Q := P[..k - 1];
    LocateLinks(h, h', r, Q);
    LocateLemma(h', r, W, None, Q);
    if k > 1 {
      assert Q[..|Q| - 1] == P[..k - 2];
      LocateLinks(h, h', r, P[..k - 2]);
    }
  }

  /** One iteration of the upward loop: the ancestor's caches are recomputed and the loop moves to its parent. */
  lemma UpStep(h: seq<Node>, h': seq<Node>, h1: seq<Node>, r: nat, V: Tree, P: seq<nat>, k: nat, n: nat)
    requires UpLoop(h, h', r, V, P, k, Some(n)) && 0 < k
    requires ValidPath(Partial(V, P, k), P[..k - 1])
    requires Represents(h', n, At(Partial(V, P, k), P[..k - 1]), UpOwner(h, r, P, k))
    requires h1 == h'[n := h'[n].(size := Local(At(Partial(V, P, k), P[..k - 1])).size,
                                  depth := Local(At(Partial(V, P, k), P[..k - 1])).depth)]
    ensures UpLoop(h, h1, r, V, P, k - 1, h1[n].parent)
  {
    var W := Partial(V, P, k);
    PartialStep(V, P, k);
    LocateLinks(h, h', r, P[..k - 1]);
    if k > 1 {
      TakeTake(P, k - 1, k - 2);
      LocateLinks(h, h', r, P[..k - 2]);
    }
    UpGraft(h', h1, r, W, P[..k - 1], n, UpOwner(h, r, P, k));
    var T := At(W, P[..k - 1]);
    CacheUpdate(h, h', h1, n, Footprint(h, r, V), Local(T).size, Local(T).depth);
  }

  /** Rewriting the caches of one record inside F keeps only caches changed, and nothing outside F. */
  lemma CacheUpdate(h: seq<Node>, h': seq<Node>, h1: seq<Node>, n: nat, F: set<nat>, size: nat, depth: nat)
    requires CachesOnly(h, h') && (forall w :: 0 <= w < |h| && w !in F ==> h'[w] == h[w])
    requires n in F && n < |h'| && h1 == h'[n := h'[n].(size := size, depth := depth)]
    ensures CachesOnly(h, h1) && (forall w :: 0 <= w < |h| && w !in F ==> h1[w] == h[w])
  {
  }

  /** Recomputing the caches of the node n at the end of Q makes r represent the tree with Local applied there. */
  lemma UpGraft(h': seq<Node>, h1: seq<Node>, r: nat, W: Tree, Q: seq<nat>, n: nat, o: Option<nat>)
    requires Represents(h', r, W, None) && ValidPath(W, Q) && n == Locate(h', r, Q)
    requires o == (if Q == [] then None else Some(Locate(h', r, Q[..|Q| - 1])))
    requires Represents(h', n, At(W, Q), o)
    requires h1 == h'[n := h'[n].(size := Local(At(W, Q)).size, depth := Local(At(W, Q)).depth)]
    ensures Represents(h1, r, Replace(W, Q, Local(At(W, Q))), None)
    ensures Footprint(h1, r, Replace(W, Q, Local(At(W, Q)))) <= Footprint(h', r, W)
    ensures n in Footprint(h', r, W) && h1[n].parent == o
  {
    var T := At(W, Q);
    FootprintInside(h', n, T, o);
    Retag(h', h1, n, T, o, Local(T), o);
    LocateLemma(h', r, W, None, Q);
    if Q != [] {
      UpGraftDeep(h', h1, r, W, Q, n);
    }
  }

  lemma UpGraftDeep(h': seq<Node>, h1: seq<Node>, r: nat, W: Tree, Q: seq<nat>, n: nat)
    requires Represents(h', r, W, None) && ValidPath(W, Q) && n == Locate(h', r, Q) && Q != []
    requires Represents(h', n, At(W, Q), Some(Locate(h', r, Q[..|Q| - 1])))
    requires Footprint(h', n, At(W, Q)) <= Footprint(h', r, W)
    requires n < |h1| && h1[n].children == h'[n].children && |h1| == |h'|
    requires forall w :: 0 <= w < |h'| && w != n ==> h1[w] == h'[w]
    requires Represents(h1, n, Local(At(W, Q)), Some(Locate(h', r, Q[..|Q| - 1])))
    requires Footprint(h1, n, Local(At(W, Q))) == Footprint(h', n, At(W, Q))
    ensures Represents(h1, r, Replace(W, Q, Local(At(W, Q))), None)
    ensures Footprint(h1, r, Replace(W, Q, Local(At(W, Q)))) <= Footprint(h', r, W)
  {
    var P: seq<nat> := Q[..|Q| - 1];
    var q: nat := Locate(h', r, P);
    var i: nat := Q[|Q| - 1];
    ghost var A: set<nat> := Footprint(h', r, W) - Footprint(h', n, At(W, Q)) - {q};
    assert ValidPath(W, P) && i < |At(W, P).kids| && At(W, Q) == At(W, P).kids[i] by {
      PathPrefix(W, Q);
    }
    assert q < |h'| && i < |h'[q].children| && h'[q].children[i] == n by {
      LocateSnoc(h', r, W, None, P, i);
      SnocSplit(Q);
    }
    assert q != n by {
      LocateLemma(h', r, W, None, P);
      FootprintInside(h', n, At(W, Q), Some(q));
    }
    assert h1[q] == h'[q].(children := h'[q].children[i := n]) by {
      UpdateSame(h'[q].children, i);
    }
    assert Agree(h', h1, A) by {
      FootprintInside(h', r, W, None);
      FootprintInside(h', n, At(W, Q), Some(q));
    }
    Graft(h', h1, r, W, None, Q, q, n, Local(At(W, Q)));
  }

  lemma SnocSplit<T>(s: seq<T>)
    requires s != []
    ensures s[..|s| - 1] + [s[|s| - 1]] == s
  {
  }

  lemma TakeTake<T>(s: seq<T>, a: nat, b: nat)
    requires b <= a <= |s|
    ensures s[..a][..b] == s[..b]
  {
  }

  /**
   * GPNode::getRandomNode on x: a pre-order rank is drawn from [1, size - 1]
   * and the walk descends to the node of that rank, which is returned with
   * its index among its parent's children. The root itself is never chosen.
   */
  method GetRandomNode(h: seq<Node>, x: nat, ghost t: Tree, ghost par: Option<nat>, rng: Rng)
    returns (node: nat, childIndex: nat, rng': Rng, ghost rank: nat)
    requires Represents(h, x, t, par) && Cached(t) && 2 <= Size(t) && rng.Valid()
    ensures rng'.Valid() && rng'.calls == rng.calls + 1
    ensures 1 <= rank < Size(t) && PathAt(t, rank) != []
    ensures node == Locate(h, x, PathAt(t, rank)) && childIndex == PathAt(t, rank)[|PathAt(t, rank)| - 1]
  {
    var draw := rng.Uniform(1, h[x].size - 1);
    var budget: nat := draw.0;
    rng' := draw.1;
    rank := budget;
    node := x;
    childIndex := 0;
    ghost var path: seq<nat> := [];
    WalkStart(h, x, t, par, rank);
    while budget != 0
      invariant Walk(h, x, t, path, budget, rank, node)
      invariant path != [] ==> childIndex == path[|path| - 1]
      decreases budget
    {
      node, childIndex, budget, path := Descend(h, x, t, par, path, budget, rank, node);
    }
    WalkDone(h, x, t, path, rank, node);
  }

  /** One round of the walk: the child of node whose block of ranks holds the budget, and the budget left inside it. */
  method Descend(h: seq<Node>, x: nat, ghost t: Tree, ghost par: Option<nat>, ghost path: seq<nat>, budget: nat,
                 ghost rank: nat, node: nat) returns (node': nat, k: nat, rest: nat, ghost path': seq<nat>)
    requires Represents(h, x, t, par) && Cached(t) && Walk(h, x, t, path, budget, rank, node) && budget != 0
    ensures rest < budget && path' == path + [k] && path'[|path'| - 1] == k
    ensures Walk(h, x, t, path', rest, rank, node')
  {
    WalkEnter(h, x, t, par, path);
    k, rest := ChildOfRank(h, node, At(t, path), if path == [] then par else Some(Locate(h, x, path[..|path| - 1])), budget);
    WalkStep(h, x, t, par, path, budget, k, rank, rest);
    node' := h[node].children[k];
    path' := path + [k];
  }

  /** The walk starts at the root with the whole rank as budget. */
  lemma WalkStart(h: seq<Node>, x: nat, t: Tree, par: Option<nat>, rank: nat)
    requires Represents(h, x, t, par) && rank < Size(t)
    ensures Walk(h, x, t, [], rank, rank, x)
  {
  }

  /** A walk with no budget left stands on the node of rank. */
  lemma WalkDone(h: seq<Node>, x: nat, t: Tree, path: seq<nat>, rank: nat, node: nat)
    requires Walk(h, x, t, path, 0, rank, node)
    ensures path == PathAt(t, rank) && node == Locate(h, x, PathAt(t, rank))
  {
    assert PathAt(At(t, path), 0) == [];
  }

  /** The state of the walk: it stands at the end of path, and the node of rank is budget further down in pre-order. */
  ghost predicate Walk(h: seq<Node>, x: nat, t: Tree, path: seq<nat>, budget: nat, rank: nat, node: nat)
  {
    && ValidPath(t, path) && node == Locate(h, x, path) && budget < Size(At(t, path))
    && rank < Size(t) && path + PathAt(At(t, path), budget) == PathAt(t, rank)
  }

  /** The node the walk stands on represents the subtree there, with correct caches. */
  lemma WalkEnter(h: seq<Node>, x: nat, t: Tree, par: Option<nat>, path: seq<nat>)
    requires Represents(h, x, t, par) && Cached(t) && ValidPath(t, path)
    ensures Represents(h, Locate(h, x, path), At(t, path), if path == [] then par else Some(Locate(h, x, path[..|path| - 1])))
    ensures Cached(At(t, path))
  {
    LocateLemma(h, x, t, par, path);
    CachedAt(t, path);
  }

  /** One descent of the walk: the node of rank b is in the subtree of child k, at rank rest there. */
  lemma WalkStep(h: seq<Node>, x: nat, t: Tree, par: Option<nat>, path: seq<nat>, b: nat, k: nat, rank: nat, rest: nat)
    requires Represents(h, x, t, par) && Walk(h, x, t, path, b, rank, Locate(h, x, path))
    requires 0 < b < Size(At(t, path)) && k < |At(t, path).kids|
    requires SizeOf(At(t, path).kids[..k]) <= b - 1 < SizeOf(At(t, path).kids[..k]) + Size(At(t, path).kids[k])
    requires rest == b - 1 - SizeOf(At(t, path).kids[..k])
    ensures Locate(h, x, path) < |h| && k < |h[Locate(h, x, path)].children|
    ensures Walk(h, x, t, path + [k], rest, rank, h[Locate(h, x, path)].children[k])
  {
    var cur := At(t, path);
    PathAtKid(cur, b, k);
    PathSnoc(t, path, k);
    LocateSnoc(h, x, t, par, path, k);
    AppendAssoc(path, [k], PathAt(cur.kids[k], rest));
  }

  lemma AppendAssoc<T>(a: seq<T>, b: seq<T>, c: seq<T>)
    ensures a + (b + c) == (a + b) + c
  {
  }

  /**
   * The inner loop of getRandomNode: skipping whole children while the
   * budget exceeds their size finds the child whose block of ranks holds
   * budget - 1, and the rank within it.
   */
  method ChildOfRank(h: seq<Node>, n: nat, ghost cur: Tree, ghost par: Option<nat>, budget: nat)
    returns (k: nat, rest: nat)
    requires Represents(h, n, cur, par) && Cached(cur) && 0 < budget < Size(cur)
    ensures k < |cur.kids| == |h[n].children|
    ensures SizeOf(cur.kids[..k]) <= budget - 1 < SizeOf(cur.kids[..k]) + Size(cur.kids[k])
    ensures rest == budget - 1 - SizeOf(cur.kids[..k])
  {
    var children := h[n].children;
    assert cur.kids[..|cur.kids|] == cur.kids;
    assert cur.kids[..0] == [];
    assert forall i :: 0 <= i < |children| ==> h[children[i]].size == Size(cur.kids[i]);
    k := 0;
    rest := budget;
    while rest > h[children[k]].size
      invariant k < |children| == |cur.kids|
      invariant 1 <= rest && rest + SizeOf(cur.kids[..k]) == budget
      decreases rest
    {
      PrefixStep(cur.kids, k);
      rest := rest - h[children[k]].size;
      k := k + 1;
      if k == |children| {
        assert false;
      }
    }
    rest := rest - 1;
  }
}
