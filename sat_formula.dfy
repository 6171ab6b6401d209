/**
 * A CNF formula over numberOfVariables variables
 * (Lab1/Part1/SATFormula.cpp): satisfaction, counting and rendering.
 */
module SatFormulas {
  import opened BitVectors
  import opened Clauses
  import opened Text

  datatype SatFormula = SatFormula(numberOfVariables: nat, clauses: seq<Clause>)
  {
    /** getNumberOfClauses(). */
    function NumberOfClauses(): nat
    {
      |clauses|
    }

    /** Every literal of every clause names one of the variables. */
    predicate WellFormed()
    {
      forall i :: 0 <= i < |clauses| ==> Fits(clauses[i], numberOfVariables)
    }

    /** An assignment the formula can be evaluated on. */
    predicate Admits(a: BitVector)
    {
      WellFormed() && a.Size() == numberOfVariables
    }

    /** Whether clause i holds under the assignment. */
    predicate ClauseHolds(i: int, a: BitVector)
      requires Admits(a) && 0 <= i < |clauses|
    {
      Clauses.IsSatisfied(clauses[i], a)
    }

    /** isSatisfied(assignment): the scan stops at the first failing clause. */
    predicate IsSatisfied(a: BitVector)
      requires Admits(a)
      ensures IsSatisfied(a) <==> forall i :: 0 <= i < |clauses| ==> ClauseHolds(i, a)
    {
      AllHold(|clauses|, a)
    }

    /** Whether each of the first k clauses holds. */
    predicate AllHold(k: nat, a: BitVector)
      requires Admits(a) && k <= |clauses|
      ensures AllHold(k, a) <==> forall i :: 0 <= i < k ==> ClauseHolds(i, a)
    {
      k == 0 || (ClauseHolds(k - 1, a) && AllHold(k - 1, a))
    }

    /** nSatisfied(assignment): how many clauses hold. */
    function NSatisfied(a: BitVector): (count: nat)
      requires Admits(a)
      ensures count <= |clauses|
      ensures count == |clauses| <==> IsSatisfied(a)
    {
      CountHolding(|clauses|, a)
    }

    /** How many of the first k clauses hold. */
    function CountHolding(k: nat, a: BitVector): (count: nat)
      requires Admits(a) && k <= |clauses|
      ensures count <= k
      ensures count == k <==> forall i :: 0 <= i < k ==> ClauseHolds(i, a)
    {
      if k == 0 then 0 else CountHolding(k - 1, a) + (if ClauseHolds(k - 1, a) then 1 else 0)
    }

    /** toString(): each clause in parentheses, joined by single spaces. */
    function ToString(): string
    {
      Join(ClauseTexts(), ' ')
    }

    function ClauseTexts(): (texts: seq<string>)
      ensures |texts| == |clauses|
      ensures forall i :: 0 <= i < |texts| ==> texts[i] == "(" + Clauses.ToString(clauses[i]) + ")"
    {
      seq(|clauses|, i requires 0 <= i < |clauses| => "(" + Clauses.ToString(clauses[i]) + ")")
    }
  }

  /** The number of true entries among the first k. */
  function CountTrue(s: seq<bool>, k: nat): nat
    requires k <= |s|
  {
    if k == 0 then 0 else CountTrue(s, k - 1) + (if s[k - 1] then 1 else 0)
  }

  /**
   * whichSatisfied(assignment, which): records in which[i] whether clause i
   * holds, for every clause, and returns how many hold.
   */
  method WhichSatisfied(f: SatFormula, a: BitVector, which: array<bool>) returns (count: int)
    requires f.Admits(a)
    requires |f.clauses| <= which.Length
    modifies which
    ensures forall i :: 0 <= i < |f.clauses| ==> which[i] == f.ClauseHolds(i, a)
    ensures forall i :: |f.clauses| <= i < which.Length ==> which[i] == old(which[i])
    ensures count == f.NSatisfied(a) == CountTrue(which[..], |f.clauses|)
  {
    count := 0;
    for i := 0 to |f.clauses|
      invariant forall k :: 0 <= k < i ==> which[k] == f.ClauseHolds(k, a)
      invariant forall k :: i <= k < which.Length ==> which[k] == old(which[k])
      invariant count == f.CountHolding(i, a)
    {
      if Clauses.IsSatisfied(f.clauses[i], a) {
        which[i] := true;
        count := count + 1;
      } else {
        which[i] := false;
      }
    }
    CountTrueMatches(f, a, which[..], |f.clauses|);
  }

  lemma {:induction false} CountTrueMatches(f: SatFormula, a: BitVector, which: seq<bool>, k: nat)
    requires f.Admits(a) && k <= |f.clauses| && k <= |which|
    requires forall i :: 0 <= i < k ==> which[i] == f.ClauseHolds(i, a)
    ensures CountTrue(which, k) == f.CountHolding(k, a)
  {
    if k > 0 {
      CountTrueMatches(f, a, which, k - 1);
    }
  }
}
