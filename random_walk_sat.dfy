/**
 * RandomWalkSAT::solve (Lab1/Part1/OARandomWalkSAT.cpp): random restarts;
 * in each flip, with probability p a random variable of a random
 * unsatisfied clause is flipped, and otherwise the walk moves greedily.
 */
module RandomWalkSat {
  import opened Wrappers
  import opened Random
  import opened BitVectors
  import opened Clauses
  import opened SatFormulas
  import opened Neighbourhoods
  import opened LocalSearch

  predicate NoEmptyClause(f: SatFormula)
  {
    forall i :: 0 <= i < |f.clauses| ==> Clauses.Size(f.clauses[i]) >= 1
  }

  /**
   * solve(initial): `initial` is ignored. A value is returned only when
   * whichSatisfied reports every clause satisfied. Moves need at least one
   * variable, and the random-walk move needs non-empty clauses (the literal
   * draw at line 29 has no range otherwise); a walk move never happens
   * when p <= 0. The greedy move is the corrected one, GreedyMove.
   */
  method Solve(f: SatFormula, maxTries: int, maxFlips: int, p: real, initial: Option<BitVector>, rng: Rng)
    returns (result: Option<BitVector>, rng': Rng)
    requires f.WellFormed() && rng.Valid()
    requires maxTries <= 0 || maxFlips <= 0 || |f.clauses| == 0
      || (f.numberOfVariables >= 1 && (p <= 0.0 || NoEmptyClause(f)))
    ensures result.Some? ==> f.Admits(result.value) && f.IsSatisfied(result.value)
    ensures maxTries <= 0 || maxFlips <= 0 ==> result.None?
    ensures rng'.Valid()
  {
    rng', result := rng, None;
    var which := new bool[|f.clauses|];
    var i := 0;
    while i < maxTries
      invariant rng'.Valid() && result.None?
    {
      var assignment;
      assignment, rng' := RandomBitVector(rng', f.numberOfVariables);
      var j := 0;
      while j < maxFlips
        invariant f.Admits(assignment) && rng'.Valid()
      {
        var best := WhichSatisfied(f, assignment, which);
        if best == f.NumberOfClauses() {
          return Some(assignment), rng';
        }
        var roll;
        roll, rng' := RollOf(rng');
        if roll < p {
          assignment, rng' := WalkMove(f, assignment, which, best, rng');
        } else {
          assignment, best, rng' := GreedyMove(f, assignment, rng');
        }
        j := j + 1;
      }
      i := i + 1;
    }
  }

  /** real_dist(rng): a draw in [0, 1). */
  method RollOf(rng: Rng) returns (roll: real, rng': Rng)
    requires rng.Valid()
    ensures 0.0 <= roll < 1.0 && rng'.Valid()
  {
    var (r, next) := rng.Unit();
    roll, rng' := r, next;
  }

  /**
   * The random-walk move (lines 23-35): draw index in [0, #unsatisfied - 1],
   * scan `which` for the index-th false entry, and flip one variable of that
   * clause. The clause was unsatisfied and the flip satisfies it.
   */
  method WalkMove(f: SatFormula, a: BitVector, which: array<bool>, best: int, rng: Rng)
    returns (next: BitVector, rng': Rng)
    requires f.Admits(a) && rng.Valid() && NoEmptyClause(f)
    requires which.Length == |f.clauses|
    requires forall i :: 0 <= i < which.Length ==> which[i] == f.ClauseHolds(i, a)
    requires best == CountTrue(which[..], which.Length) < which.Length
    ensures exists k, l :: (0 <= k < |f.clauses| && !f.ClauseHolds(k, a) && 0 <= l < Clauses.Size(f.clauses[k])
      && next == Flip(a, Variable(f.clauses[k].literals[l])) && f.ClauseHolds(k, next))
    ensures f.Admits(next) && rng'.Valid()
  {
    var (index, r1) := rng.Uniform(0, which.Length - best - 1);
    var count := -1;
    var k := 0;
    next, rng' := a, r1;
    while k < which.Length
      invariant 0 <= k <= which.Length
      invariant count == k - CountTrue(which[..], k) - 1
      invariant count < index
      decreases which.Length - k
    {
      if !which[k] {
        count := count + 1;
      }
      if count == index {
        var clause := f.clauses[k];
        var (l, r2) := r1.Uniform(0, Clauses.Size(clause) - 1);
        var literalToFlip := Variable(clause.literals[l]);
        next, rng' := Flip(a, literalToFlip), r2;
        FlipSatisfies(clause, a, l);
        return;
      }
      k := k + 1;
    }
    assert false;
  }

  /**
   * The greedy move as line 54 writes it: the draw in [0, |bestIndices| - 1]
   * indexes the neighbourhood itself, not bestIndices, so the move goes to
   * one of the first |bestIndices| neighbours, maximal or not.
   */
  method GreedyMoveAsWritten(f: SatFormula, a: BitVector, rng: Rng) returns (next: BitVector, rng': Rng)
    requires f.Admits(a) && a.Size() >= 1 && rng.Valid()
    ensures exists d :: 0 <= d < a.Size() && d < |MaximalNeighbours(f, a)| && next == Flip(a, d)
    ensures rng'.Valid()
  {
    var neighbourhood := CreateNeighbourhood(a);
    var best, bestIndices := BestNeighbours(f, neighbourhood);
    assert forall k :: 0 <= k < a.Size() ==> neighbourhood[k] == Flip(a, k);
    MaximalCount(f, a, neighbourhood, best, bestIndices);
    var (d, r) := rng.Uniform(0, |bestIndices| - 1);
    next, rng' := neighbourhood[d], r;
  }

  /** The indices of the neighbours of maximal nSatisfied. */
  function MaximalNeighbours(f: SatFormula, a: BitVector): set<nat>
    requires f.Admits(a)
  {
    set k: nat | k < a.Size() && forall j :: 0 <= j < a.Size() ==> f.NSatisfied(Flip(a, j)) <= f.NSatisfied(Flip(a, k))
  }

  /** bestIndices lists exactly the maximal neighbours, once each. */
  lemma MaximalCount(f: SatFormula, a: BitVector, ns: seq<BitVector>, best: int, bestIndices: seq<nat>)
    requires f.Admits(a) && ns == CreateNeighbourhood(a) && a.Size() >= 1
    requires forall k :: 0 <= k < a.Size() ==> ns[k] == Flip(a, k)
    requires forall k :: 0 <= k < |ns| ==> f.NSatisfied(ns[k]) <= best
    requires forall i :: 0 <= i < |bestIndices| ==> bestIndices[i] < |ns|
    requires forall k :: 0 <= k < |ns| ==> (k in bestIndices <==> f.NSatisfied(ns[k]) == best)
    requires forall i, j :: 0 <= i < j < |bestIndices| ==> bestIndices[i] < bestIndices[j]
    requires bestIndices != []
    ensures |bestIndices| == |MaximalNeighbours(f, a)|
  {
    var m := MaximalNeighbours(f, a);
    var listed := set i | 0 <= i < |bestIndices| :: bestIndices[i];
    assert f.NSatisfied(ns[bestIndices[0]]) == best;
    assert listed == m;
    IncreasingCard(bestIndices);
  }

  lemma {:induction false} IncreasingCard(s: seq<nat>)
    requires forall i, j :: 0 <= i < j < |s| ==> s[i] < s[j]
    ensures |set i | 0 <= i < |s| :: s[i]| == |s|
  {
    if s != [] {
      var init := s[..|s| - 1];
      IncreasingCard(init);
      assert (set i | 0 <= i < |s| :: s[i]) == (set i | 0 <= i < |init| :: init[i]) + {s[|s| - 1]};
    }
  }

  /**
   * Two variables and the single clause (2), at the all-false assignment:
   * flipping logical index 1 satisfies the clause and flipping index 0 does
   * not, so index 1 is the only maximal neighbour. The draw at line 53 then
   * has the range [0, 0], and line 54 moves to neighbour 0, which is not
   * maximal.
   */
  lemma AsWrittenMovesToNonMaximal()
    ensures var f := SatFormula(2, [Clause([2])]);
      var a := BitVector([false, false]);
      && f.Admits(a)
      && MaximalNeighbours(f, a) == {1}
      && 0 !in MaximalNeighbours(f, a)
      && f.NSatisfied(Flip(a, 0)) < f.NSatisfied(Flip(a, 1))
  {
    var f := SatFormula(2, [Clause([2])]);
    var a := BitVector([false, false]);
    assert Clauses.LiteralHolds(2, Flip(a, 1));
    assert !Clauses.LiteralHolds(2, Flip(a, 0));
    assert f.ClauseHolds(0, Flip(a, 1));
    assert !f.ClauseHolds(0, Flip(a, 0));
    assert f.NSatisfied(Flip(a, 1)) == 1;
    assert f.NSatisfied(Flip(a, 0)) == 0;
  }
}
