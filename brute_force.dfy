/**
 * BruteForce::solve (Lab1/Part1/OABruteForce.cpp): every assignment is
 * tested once, counting up from the all-false vector by `increment` until
 * it overflows; the last satisfying one tested is the answer.
 */
module BruteForce {
  import opened Wrappers
  import opened BitVectors
  import opened SatFormulas

  /** The n-variable assignment whose stored bits spell k, least significant first. */
  function Numbered(k: nat, n: nat): (v: BitVector)
    ensures v.Size() == n
  {
    BitVector(FromNat(k, n))
  }

  /** Whether the assignment numbered j satisfies f. */
  predicate SatisfiedAt(f: SatFormula, j: nat)
    requires f.WellFormed()
  {
    f.IsSatisfied(Numbered(j, f.numberOfVariables))
  }

  /** The largest j below k with p(j), if any. */
  function LastWhere(p: nat -> bool, k: nat): (r: Option<nat>)
    ensures r.Some? ==> r.value < k && p(r.value)
  {
    if k == 0 then None
    else if p(k - 1) then Some(k - 1)
    else LastWhere(p, k - 1)
  }

  /** LastWhere finds a number exactly when some j below k has p(j), and no higher one does. */
  lemma {:induction false} LastWhereIsLast(p: nat -> bool, k: nat)
    ensures LastWhere(p, k).Some? <==> exists j :: 0 <= j < k && p(j)
    ensures LastWhere(p, k).Some? ==> forall i :: LastWhere(p, k).value < i < k ==> !p(i)
  {
    if k > 0 && !p(k - 1) {
      LastWhereIsLast(p, k - 1);
      if j :| 0 <= j < k && p(j) {
        assert j < k - 1;
      }
    }
  }

  /** The number of the last of the assignments numbered 0 .. k-1 that satisfies f. */
  function LastSatisfying(f: SatFormula, k: nat): (r: Option<nat>)
    requires f.WellFormed()
    ensures r.Some? ==> r.value < k && SatisfiedAt(f, r.value)
  {
    LastWhere(Satisfying(f), k)
  }

  /** SatisfiedAt as a predicate on numbers. */
  function Satisfying(f: SatFormula): nat -> bool
  {
    (j: nat) => f.WellFormed() && SatisfiedAt(f, j)
  }

  /** Testing assignment k extends the answer for the first k. */
  lemma AnswerStep(f: SatFormula, k: nat)
    requires f.WellFormed()
    ensures Answer(f, k + 1) == if SatisfiedAt(f, k) then Some(Numbered(k, f.numberOfVariables)) else Answer(f, k)
  {
  }

  /** The assignment solve returns when it has tested the first k. */
  function Answer(f: SatFormula, k: nat): (r: Option<BitVector>)
    requires f.WellFormed()
    ensures r.Some? ==> f.Admits(r.value) && f.IsSatisfied(r.value)
  {
    match LastSatisfying(f, k)
    case None => None
    case Some(j) => Some(Numbered(j, f.numberOfVariables))
  }

  /**
   * solve(initial): `initial` is ignored. The assignments are tested in
   * increasing numeric order, each of the 2^n exactly once (`order`), and
   * the answer is the last satisfying one.
   */
  method Solve(f: SatFormula, initial: Option<BitVector>) returns (solution: Option<BitVector>, ghost order: seq<BitVector>)
    requires f.WellFormed()
    ensures solution == Answer(f, Pow2(f.numberOfVariables))
    ensures order == Enumeration(Pow2(f.numberOfVariables), f.numberOfVariables)
  {
    var n := f.numberOfVariables;
    var assignment := new MutableBitVector.Zeros(n);
    ZeroIsNumberedZero(n);
    solution := None;
    order := [];
    var overflow := false;
    ghost var tested: nat := 0;
    while !overflow
      invariant assignment.bits.Length == n
      invariant tested <= Pow2(n)
      invariant !overflow ==> tested < Pow2(n) && assignment.bits[..] == FromNat(tested, n)
      invariant overflow ==> tested == Pow2(n)
      invariant solution == Answer(f, tested)
      invariant order == Enumeration(tested, n)
      decreases Pow2(n) - tested
    {
      var current := assignment.Value();
      assert current == Numbered(tested, n);
      AnswerStep(f, tested);
      if f.IsSatisfied(current) {
        solution := Some(current);
      }
      order := order + [current];
      overflow := Advance(assignment, tested);
      tested := tested + 1;
    }
  }

  /**
   * One `increment()` on the vector holding assignment number k: it moves
   * to number k + 1, or overflows exactly when k was the last one.
   */
  method Advance(assignment: MutableBitVector, ghost k: nat) returns (overflow: bool)
    requires k < Pow2(assignment.bits.Length) && assignment.bits[..] == FromNat(k, assignment.bits.Length)
    modifies assignment.bits
    ensures overflow <==> k + 1 == Pow2(assignment.bits.Length)
    ensures !overflow ==> assignment.bits[..] == FromNat(k + 1, assignment.bits.Length)
  {
    ToNatFromNat(k, assignment.bits.Length);
    overflow := assignment.Increment();
    if !overflow {
      FromNatToNat(assignment.bits[..]);
    }
  }

  /** The assignments numbered 0 .. k-1, in increasing order. */
  function Enumeration(k: nat, n: nat): (vs: seq<BitVector>)
    ensures |vs| == k
    ensures forall j :: 0 <= j < k ==> vs[j] == Numbered(j, n)
  {
    if k == 0 then [] else Enumeration(k - 1, n) + [Numbered(k - 1, n)]
  }

  lemma ZeroIsNumberedZero(n: nat)
    ensures Zero(n).bits == FromNat(0, n)
  {
    if n > 0 {
      ZeroIsNumberedZero(n - 1);
      assert Zero(n).bits == [false] + Zero(n - 1).bits;
    }
  }

  /**
   * Every satisfying assignment a is found: the answer of solve is present
   * and numerically at least a, so with Answer's own contract it is present
   * exactly when f is satisfiable and it is the greatest satisfying assignment.
   */
  lemma SolveFindsGreatest(f: SatFormula, a: BitVector)
    requires f.Admits(a) && f.IsSatisfied(a)
    ensures var r := Answer(f, Pow2(f.numberOfVariables));
      r.Some? && ToNat(a.bits) <= ToNat(r.value.bits)
  {
    var n := f.numberOfVariables;
    var j := ToNat(a.bits);
    NumberedOf(a);
    ToNatBound(a.bits);
    assert Satisfying(f)(j);
    LastWhereIsLast(Satisfying(f), Pow2(n));
    var v := LastWhere(Satisfying(f), Pow2(n)).value;
    ToNatFromNat(v, n);
  }

  /** Every assignment is the one numbered by its own bits. */
  lemma NumberedOf(a: BitVector)
    ensures Numbered(ToNat(a.bits), a.Size()) == a
  {
    FromNatToNat(a.bits);
  }
}
