/**
 * The neighbourhood scans the SAT solvers share. GreedyHillClimb and
 * PerturbatingILS scan the one-flip neighbours in index order, returning the
 * first one that satisfies every clause and collecting candidates that
 * keep up with the running best (Lab1/Part1/OAGreedyHillClimb.cpp:17-24,
 * OAPerturbatingILS.cpp:20-27). GSAT and RandomWalkSAT collect the indices
 * of all neighbours of maximal fitness (Lab1/Part1/OAGSAT.cpp:16-32,
 * OARandomWalkSAT.cpp:38-54).
 */
module LocalSearch {
  import opened Wrappers
  import opened Random
  import opened BitVectors
  import opened SatFormulas
  import opened Neighbourhoods

  /** nSatisfied of each neighbour of a, in index order. */
  function Fitnesses(f: SatFormula, a: BitVector): (fits: seq<int>)
    requires f.Admits(a)
    ensures |fits| == a.Size()
  {
    seq(a.Size(), k requires 0 <= k < a.Size() => f.NSatisfied(Flip(a, k)))
  }

  /**
   * The candidate indices and running best after the first k neighbours,
   * whose fitnesses are `fits`: a neighbour is pushed when its fitness
   * reaches the running best (`>=` when not strict, `>` when strict), and
   * then becomes the best.
   */
  function Candidates(fits: seq<int>, best: int, strict: bool, k: nat): (seq<nat>, int)
    requires k <= |fits|
  {
    if k == 0 then ([], best)
    else
      var (cs, b) := Candidates(fits, best, strict, k - 1);
      if Reaches(fits[k - 1], b, strict) then (cs + [k - 1], fits[k - 1]) else (cs, b)
  }

  /** The comparison a candidate passes: `>` when strict, `>=` otherwise. */
  predicate Reaches(fitness: int, best: int, strict: bool)
  {
    if strict then fitness > best else fitness >= best
  }

  /**
   * What the candidate list promises: the candidates are distinct
   * neighbours taken in index order, each reaches the best at the start of
   * the scan (strictly, when strict), fitness never falls along the list
   * (and strictly rises, when strict), and the final best is the last
   * candidate's fitness, or the starting best when there is none.
   */
  lemma {:induction false} CandidatesImprove(fits: seq<int>, best: int, strict: bool, k: nat)
    requires k <= |fits|
    ensures var (cs, b) := Candidates(fits, best, strict, k);
      && (forall i :: 0 <= i < |cs| ==> cs[i] < k)
      && (forall i, l :: 0 <= i < l < |cs| ==> cs[i] < cs[l])
      && (forall i :: 0 <= i < |cs| ==> Reaches(fits[cs[i]], best, strict))
      && (forall i, l :: 0 <= i < l < |cs| ==> Reaches(fits[cs[l]], fits[cs[i]], strict))
      && b >= best
      && b == if cs == [] then best else fits[cs[|cs| - 1]]
  {
    if k > 0 {
      CandidatesImprove(fits, best, strict, k - 1);
      var (cs, b) := Candidates(fits, best, strict, k - 1);
      if Reaches(fits[k - 1], b, strict) {
        var cs' := cs + [k - 1];
        assert forall i :: 0 <= i < |cs| ==> cs'[i] == cs[i];
        assert forall i :: 0 <= i < |cs| ==> Reaches(fits[k - 1], fits[cs[i]], strict);
      }
    }
  }

  /**
   * One scan of the neighbourhood. `found` is the first neighbour that
   * satisfies every clause, if any; otherwise the candidates and the new
   * running best are those of the whole neighbourhood.
   */
  method Scan(f: SatFormula, a: BitVector, best: int, strict: bool)
    returns (found: Option<BitVector>, candidates: seq<BitVector>, best': int)
    requires f.Admits(a)
    ensures found.Some? ==> exists k :: 0 <= k < a.Size() && found.value == Flip(a, k)
    ensures found.Some? ==> f.Admits(found.value) && f.IsSatisfied(found.value)
    ensures found.None? ==> forall k :: 0 <= k < a.Size() ==> !f.IsSatisfied(Flip(a, k))
    ensures found.None? ==> var (indices, b) := Candidates(Fitnesses(f, a), best, strict, a.Size());
      && best' == b && |candidates| == |indices|
      && forall i :: 0 <= i < |indices| ==> indices[i] < a.Size() && candidates[i] == Flip(a, indices[i])
  {
    candidates, best' := [], best;
    ghost var indices := [];
    for k := 0 to a.Size()
      invariant ScanSoFar(f, a, best, strict, k, indices, best', candidates)
    {
      var neighbour := Flip(a, k);
      var fitness := f.NSatisfied(neighbour);
      if fitness == f.NumberOfClauses() {
        return Some(neighbour), candidates, best';
      }
      candidates, indices, best' := Consider(f, a, best, strict, k, neighbour, fitness, candidates, indices, best');
    }
    found := None;
  }

  /** The scan after the first k neighbours, none of which satisfies every clause. */
  ghost predicate ScanSoFar(f: SatFormula, a: BitVector, best: int, strict: bool, k: nat,
                            indices: seq<nat>, best': int, candidates: seq<BitVector>)
  {
    && f.Admits(a) && k <= a.Size()
    && (indices, best') == Candidates(Fitnesses(f, a), best, strict, k)
    && |candidates| == |indices|
    && (forall i :: 0 <= i < |indices| ==> indices[i] < a.Size() && candidates[i] == Flip(a, indices[i]))
    && (forall j :: 0 <= j < k ==> !f.IsSatisfied(Flip(a, j)))
  }

  /** The rest of one turn of the scan: neighbour k, which does not satisfy every clause, is pushed when it reaches the running best. */
  method Consider(f: SatFormula, a: BitVector, best: int, strict: bool, k: nat, neighbour: BitVector, fitness: int,
                  candidates: seq<BitVector>, ghost indices: seq<nat>, best': int)
    returns (candidates': seq<BitVector>, ghost indices': seq<nat>, best'': int)
    requires ScanSoFar(f, a, best, strict, k, indices, best', candidates) && k < a.Size()
    requires neighbour == Flip(a, k) && fitness == f.NSatisfied(neighbour) && fitness != f.NumberOfClauses()
    ensures ScanSoFar(f, a, best, strict, k + 1, indices', best'', candidates')
  {
    candidates', indices', best'' := candidates, indices, best';
    if fitness > best' || (!strict && fitness == best') {
      best'' := fitness;
      candidates' := candidates + [neighbour];
      indices' := indices + [k];
    }
  }

  /**
   * The move at the end of a hill-climbing iteration: a candidate drawn
   * uniformly, so a one-flip neighbour that reaches the best at the start
   * of the scan (strictly, when strict).
   */
  method MoveToCandidate(f: SatFormula, a: BitVector, best: int, strict: bool, candidates: seq<BitVector>, rng: Rng)
    returns (next: BitVector, rng': Rng)
    requires f.Admits(a) && rng.Valid() && candidates != []
    requires var (indices, _) := Candidates(Fitnesses(f, a), best, strict, a.Size());
      |candidates| == |indices| && forall i :: 0 <= i < |indices| ==> indices[i] < a.Size() && candidates[i] == Flip(a, indices[i])
    ensures exists k :: 0 <= k < a.Size() && next == Flip(a, k) && Reaches(f.NSatisfied(next), best, strict)
    ensures f.Admits(next) && rng'.Valid()
  {
    var (d, r) := rng.Uniform(0, |candidates| - 1);
    next, rng' := candidates[d], r;
    CandidatesImprove(Fitnesses(f, a), best, strict, a.Size());
    var indices := Candidates(Fitnesses(f, a), best, strict, a.Size()).0;
    assert next == Flip(a, indices[d]);
    assert Fitnesses(f, a)[indices[d]] == f.NSatisfied(next);
  }

  /**
   * The best-neighbour loop: `best` is the largest nSatisfied over the
   * neighbourhood (-1 when it is empty) and bestIndices lists, in
   * ascending order, exactly the neighbours attaining it.
   */
  method BestNeighbours(f: SatFormula, neighbourhood: seq<BitVector>) returns (best: int, bestIndices: seq<nat>)
    requires forall k :: 0 <= k < |neighbourhood| ==> f.Admits(neighbourhood[k])
    ensures neighbourhood == [] <==> best == -1
    ensures forall k :: 0 <= k < |neighbourhood| ==> f.NSatisfied(neighbourhood[k]) <= best
    ensures forall i :: 0 <= i < |bestIndices| ==> bestIndices[i] < |neighbourhood|
    ensures forall k :: 0 <= k < |neighbourhood| ==> (k in bestIndices <==> f.NSatisfied(neighbourhood[k]) == best)
    ensures forall i, j :: 0 <= i < j < |bestIndices| ==> bestIndices[i] < bestIndices[j]
    ensures neighbourhood != [] ==> bestIndices != []
    ensures |bestIndices| <= |neighbourhood|
  {
    best := -1;
    bestIndices := [];
    for k := 0 to |neighbourhood|
      invariant k == 0 <==> best == -1
      invariant forall j :: 0 <= j < k ==> f.NSatisfied(neighbourhood[j]) <= best
      invariant forall i :: 0 <= i < |bestIndices| ==> bestIndices[i] < k
      invariant forall j :: 0 <= j < k ==> (j in bestIndices <==> f.NSatisfied(neighbourhood[j]) == best)
      invariant forall i, j :: 0 <= i < j < |bestIndices| ==> bestIndices[i] < bestIndices[j]
      invariant k > 0 ==> bestIndices != []
      invariant |bestIndices| <= k
    {
      var fitness := f.NSatisfied(neighbourhood[k]);
      if fitness > best {
        best := fitness;
        bestIndices := [k];
      } else if fitness == best {
        bestIndices := bestIndices + [k];
      }
    }
  }

  /**
   * The GSAT move (Lab1/Part1/OAGSAT.cpp:16-32): one of the neighbours of
   * maximal nSatisfied, drawn among all of them, even when it is worse than
   * the current assignment.
   */
  method GreedyMove(f: SatFormula, a: BitVector, rng: Rng) returns (next: BitVector, best: int, rng': Rng)
    requires f.Admits(a) && a.Size() >= 1 && rng.Valid()
    ensures exists k :: 0 <= k < a.Size() && next == Flip(a, k)
    ensures f.Admits(next) && best == f.NSatisfied(next)
    ensures forall k :: 0 <= k < a.Size() ==> f.NSatisfied(Flip(a, k)) <= best
    ensures rng'.Valid()
  {
    var neighbourhood := CreateNeighbourhood(a);
    var bestIndices;
    best, bestIndices := BestNeighbours(f, neighbourhood);
    assert forall k :: 0 <= k < a.Size() ==> neighbourhood[k] == Flip(a, k);
    var (d, r) := rng.Uniform(0, |bestIndices| - 1);
    next, rng' := neighbourhood[bestIndices[d]], r;
  }
}
