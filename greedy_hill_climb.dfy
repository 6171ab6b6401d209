/**
 * GreedyHillClimb::solve (Lab1/Part1/OAGreedyHillClimb.cpp): from the
 * start assignment, repeatedly move to a random neighbour that is at least
 * as good as the best seen in the scan, returning a neighbour as soon as it
 * satisfies every clause.
 */
module GreedyHillClimb {
  import opened Wrappers
  import opened Random
  import opened BitVectors
  import opened SatFormulas
  import opened Neighbourhoods
  import opened LocalSearch

  /**
   * solve(initial): any returned assignment satisfies the formula. Each
   * iteration moves to one of its candidates, a one-flip neighbour; the
   * running best never falls below its value at the start.
   */
  method Solve(f: SatFormula, maxIterations: int, initial: Option<BitVector>, rng: Rng)
    returns (result: Option<BitVector>, rng': Rng)
    requires f.WellFormed() && rng.Valid()
    requires initial.Some? ==> initial.value.Size() == f.numberOfVariables
    ensures result.Some? ==> f.Admits(result.value) && f.IsSatisfied(result.value)
    ensures maxIterations <= 0 ==> result.None?
    ensures rng'.Valid()
  {
    var assignment: BitVector;
    rng' := rng;
    if initial.Some? {
      assignment := initial.value;
    } else {
      assignment, rng' := RandomBitVector(rng', f.numberOfVariables);
    }
    var best := f.NSatisfied(assignment);
    ghost var start := best;
    var i := 0;
    while i < maxIterations
      invariant f.Admits(assignment) && rng'.Valid()
      invariant best >= start
    {
      var found, candidates, best' := Scan(f, assignment, best, false);
      if found.Some? {
        return found, rng';
      }
      if candidates == [] {
        return None, rng';
      }
      var next;
      next, rng' := MoveToCandidate(f, assignment, best, false, candidates, rng');
      CandidatesImprove(Fitnesses(f, assignment), best, false, assignment.Size());
      assignment, best := next, best';
      i := i + 1;
    }
    result := None;
  }
}
