/**
 * The one-flip neighbourhood of an assignment
 * (Lab1/Part1/BitVectorNGenerator.h and BitVectorNGenerator.cpp).
 */
module Neighbourhoods {
  import opened BitVectors

  /** The copy of v with logical index `index` negated: what operator* yields. */
  function Flip(v: BitVector, index: int): (r: BitVector)
    requires 0 <= index < v.Size()
    ensures r.Size() == v.Size()
    ensures forall j :: 0 <= j < v.Size() ==> (r.Get(j) != v.Get(j) <==> j == index)
  {
    v.SetBit(index, !v.Get(index))
  }

  /** The logical indices at which two vectors of one size differ. */
  function DiffSet(v: BitVector, w: BitVector): set<nat>
    requires v.Size() == w.Size()
  {
    set j: nat | j < v.Size() && v.Get(j) != w.Get(j)
  }

  /** Hamming distance. */
  function Hamming(v: BitVector, w: BitVector): nat
    requires v.Size() == w.Size()
  {
    |DiffSet(v, w)|
  }

  /** Flipping index k toggles k's membership in the difference set. */
  lemma DiffSetFlip(v: BitVector, w: BitVector, k: nat)
    requires v.Size() == w.Size() && k < w.Size()
    ensures DiffSet(v, Flip(w, k)) == if k in DiffSet(v, w) then DiffSet(v, w) - {k} else DiffSet(v, w) + {k}
  {
  }

  /** createNeighbourhood(): one flipped copy per logical index, in index order. */
  function CreateNeighbourhood(v: BitVector): (ns: seq<BitVector>)
    ensures |ns| == v.Size()
    ensures forall k :: 0 <= k < |ns| ==> ns[k].Size() == v.Size()
    ensures forall k, j :: 0 <= k < |ns| && 0 <= j < v.Size() ==> (ns[k].Get(j) != v.Get(j) <==> j == k)
  {
    seq(v.Size(), k requires 0 <= k < v.Size() => Flip(v, k))
  }

  /**
   * The neighbours are pairwise distinct, none equals the assignment, and
   * each is at Hamming distance 1 from it.
   */
  lemma NeighboursDistinct(v: BitVector)
    ensures var ns := CreateNeighbourhood(v);
      && (forall k, l :: 0 <= k < l < |ns| ==> ns[k] != ns[l])
      && (forall k :: 0 <= k < |ns| ==> ns[k] != v && Hamming(v, ns[k]) == 1)
  {
    var ns := CreateNeighbourhood(v);
    forall k, l | 0 <= k < l < |ns|
      ensures ns[k] != ns[l]
    {
      assert ns[k].Get(k) != ns[l].Get(k);
    }
    forall k | 0 <= k < |ns|
      ensures ns[k] != v && Hamming(v, ns[k]) == 1
    {
      assert ns[k].Get(k) != v.Get(k);
      assert DiffSet(v, ns[k]) == {k};
    }
  }

  /** BitVectorNGenerator: holds its own copy of the assignment. */
  class Generator {
    const assignment: BitVector

    constructor (assignment: BitVector)
      ensures this.assignment == assignment
    {
      this.assignment := assignment;
    }

    /** begin(): an iterator at index 0 over this generator's assignment. */
    method Begin() returns (it: Iterator)
      ensures fresh(it) && it.assignment == assignment && it.index == 0
    {
      it := new Iterator(assignment, 0);
    }

    /** end(): an iterator at index getSize(). */
    method End() returns (it: Iterator)
      ensures fresh(it) && it.assignment == assignment && it.index == assignment.Size()
    {
      it := new Iterator(assignment, assignment.Size());
    }
  }

  /** BitVectorNGenerator::iterator: a read-only view of the assignment and a position. */
  class Iterator {
    const assignment: BitVector
    var index: nat

    constructor (assignment: BitVector, index: nat)
      ensures this.assignment == assignment && this.index == index
    {
      this.assignment := assignment;
      this.index := index;
    }

    /** operator++: advances the position by exactly one. */
    method Next()
      modifies this
      ensures index == old(index) + 1
    {
      index := index + 1;
    }

    /** operator!=: compares the positions only. */
    predicate NotEqual(other: Iterator)
      reads this, other
    {
      index != other.index
    }

    /** operator*: the neighbour at the current position. */
    function Current(): (r: BitVector)
      reads this
      requires index < assignment.Size()
      ensures r == Flip(assignment, index)
    {
      assignment.SetBit(index, !assignment.Get(index))
    }
  }

  /**
   * A range-for over the generator, as the solvers write it: walking
   * begin() to end() yields exactly createNeighbourhood(), element by element.
   */
  method Enumerate(assignment: BitVector) returns (ns: seq<BitVector>)
    ensures ns == CreateNeighbourhood(assignment)
  {
    var generator := new Generator(assignment);
    var it := generator.Begin();
    var end := generator.End();
    ns := [];
    while it.NotEqual(end)
      invariant it.assignment == assignment && end.assignment == assignment
      invariant end.index == assignment.Size()
      invariant it.index <= assignment.Size()
      invariant ns == CreateNeighbourhood(assignment)[..it.index]
      decreases assignment.Size() - it.index
    {
      ns := ns + [it.Current()];
      it.Next();
    }
  }
}
