/**
 * GSAT::solve (Lab1/Part1/OAGSAT.cpp): up to maxTries random restarts, each
 * making up to maxFlips greedy moves to a best neighbour.
 */
module Gsat {
  import opened Wrappers
  import opened Random
  import opened BitVectors
  import opened SatFormulas
  import opened LocalSearch

  /**
   * solve(initial): `initial` is ignored. Any returned assignment satisfies
   * the formula, whether it is a fresh start or a neighbour reached by a
   * move; with no tries nothing is returned. The moves need at least one
   * variable: with none, the list of best neighbours is empty and the draw
   * at line 31 has no range.
   */
  method Solve(f: SatFormula, maxTries: int, maxFlips: int, initial: Option<BitVector>, rng: Rng)
    returns (result: Option<BitVector>, rng': Rng)
    requires f.WellFormed() && rng.Valid()
    requires maxTries <= 0 || maxFlips <= 0 || |f.clauses| == 0 || f.numberOfVariables >= 1
    ensures result.Some? ==> f.Admits(result.value) && f.IsSatisfied(result.value)
    ensures maxTries <= 0 ==> result.None?
    ensures rng'.Valid()
  {
    rng' := rng;
    var i := 0;
    while i < maxTries
      invariant rng'.Valid()
    {
      var assignment;
      assignment, rng' := RandomBitVector(rng', f.numberOfVariables);
      if f.IsSatisfied(assignment) {
        return Some(assignment), rng';
      }
      var j := 0;
      while j < maxFlips
        invariant f.Admits(assignment) && rng'.Valid()
      {
        var best;
        assignment, best, rng' := GreedyMove(f, assignment, rng');
        if best == f.NumberOfClauses() {
          return Some(assignment), rng';
        }
        j := j + 1;
      }
      i := i + 1;
    }
    result := None;
  }
}
