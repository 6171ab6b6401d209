/**
 * PerturbatingILS (Lab1/Part1/OAPerturbatingILS.cpp): strict hill climbing
 * that, at a local optimum, flips toChange distinct random variables and
 * carries on from there.
 */
module PerturbatingIls {
  import opened Wrappers
  import opened Random
  import opened Sorting
  import opened BitVectors
  import opened SatFormulas
  import opened Neighbourhoods
  import opened LocalSearch

  datatype PerturbatingILS = PerturbatingILS(formula: SatFormula, maxIterations: int, toChange: int)

  /** The conversion of a double to int: truncation toward zero. */
  function Truncate(x: real): (r: int)
    ensures 0.0 <= x ==> 0 <= r && r as real <= x < r as real + 1.0
    ensures x < 0.0 ==> r <= 0 && r as real - 1.0 < x <= r as real
  {
    if x >= 0.0 then x.Floor else -((-x).Floor)
  }

  /** The constructor: toChange is the fraction of the variables, truncated. */
  function New(formula: SatFormula, maxIterations: int, fraction: real): (s: PerturbatingILS)
    ensures s.formula == formula && s.maxIterations == maxIterations
    ensures s.toChange == Truncate(formula.numberOfVariables as real * fraction)
  {
    PerturbatingILS(formula, maxIterations, Truncate(formula.numberOfVariables as real * fraction))
  }

  /** A fraction in [0, 1], as the header documents it, gives 0 <= toChange <= n. */
  lemma FractionFits(formula: SatFormula, maxIterations: int, fraction: real)
    requires 0.0 <= fraction <= 1.0
    ensures 0 <= New(formula, maxIterations, fraction).toChange <= formula.numberOfVariables
  {
    var n := formula.numberOfVariables as real;
    assert n * fraction <= n * 1.0;
  }

  /** A shuffle deck over n variables: each of 0 .. n-1 exactly once. */
  predicate IsDeck(deck: seq<nat>, n: nat)
  {
    && |deck| == n
    && (forall i :: 0 <= i < n ==> deck[i] < n)
    && (forall i, j :: 0 <= i < j < n ==> deck[i] != deck[j])
  }

  /** std::iota gives a deck, and so does any shuffle of a deck. */
  lemma ShuffledDeck(deck: seq<nat>, shuffled: seq<nat>, n: nat)
    requires IsDeck(deck, n) && multiset(shuffled) == multiset(deck)
    ensures IsDeck(shuffled, n)
  {
    PermutationKeepsDistinct(deck, shuffled);
    forall i | 0 <= i < n
      ensures shuffled[i] < n
    {
      assert shuffled[i] in multiset(shuffled);
      assert shuffled[i] in multiset(deck);
    }
  }

  /** The number of loop rounds `for (j = 0; j < t; j++)` makes. */
  function Rounds(t: int): nat
  {
    if t < 0 then 0 else t
  }

  /**
   * The perturbation (lines 31-35): on a copy of a, flip the variables
   * deck[0] .. deck[toChange - 1]. They are distinct, so exactly those
   * variables differ afterwards, toChange of them.
   */
  method Perturb(a: BitVector, deck: seq<nat>, toChange: int) returns (r: BitVector)
    requires IsDeck(deck, a.Size()) && toChange <= a.Size()
    ensures r.Size() == a.Size()
    ensures DiffSet(a, r) == Elements(deck[..Rounds(toChange)])
    ensures Hamming(a, r) == Rounds(toChange)
  {
    var newAssignment := Copy(a);
    var j := 0;
    while j < toChange
      invariant 0 <= j <= Rounds(toChange)
      invariant newAssignment.Value().Size() == a.Size()
      invariant DiffSet(a, newAssignment.Value()) == Elements(deck[..j])
      invariant |DiffSet(a, newAssignment.Value())| == j
    {
      ghost var before := newAssignment.Value();
      var index := deck[j];
      newAssignment.Set(index, !newAssignment.Value().Get(index));
      PerturbStep(a, before, deck, j);
      j := j + 1;
    }
    r := newAssignment.Value();
  }

  /** One flip of the perturbation adds deck[j] to the difference set. */
  lemma PerturbStep(a: BitVector, before: BitVector, deck: seq<nat>, j: nat)
    requires IsDeck(deck, a.Size()) && before.Size() == a.Size() && j < a.Size()
    requires DiffSet(a, before) == Elements(deck[..j])
    requires |DiffSet(a, before)| == j
    ensures DiffSet(a, Flip(before, deck[j])) == Elements(deck[..j + 1])
    ensures |DiffSet(a, Flip(before, deck[j]))| == j + 1
  {
    var index := deck[j];
    DiffSetFlip(a, before, index);
    assert index !in deck[..j];
    assert deck[..j + 1] == deck[..j] + [index];
    assert Elements(deck[..j] + [index]) == Elements(deck[..j]) + {index};
  }

  /** The values a sequence holds. */
  function Elements(s: seq<nat>): set<nat>
  {
    set x | x in s
  }

  /**
   * solve(initial): any returned assignment satisfies the formula, whether
   * it is the start, a neighbour or a perturbed vector. A neighbour move
   * strictly improves on the best at the start of its iteration; after a
   * perturbation the best is reset to the new fitness and may fall.
   */
  method Solve(s: PerturbatingILS, initial: Option<BitVector>, rng: Rng) returns (result: Option<BitVector>, rng': Rng)
    requires s.formula.WellFormed() && rng.Valid()
    requires initial.Some? ==> initial.value.Size() == s.formula.numberOfVariables
    requires s.toChange <= s.formula.numberOfVariables
    ensures result.Some? ==> s.formula.Admits(result.value) && s.formula.IsSatisfied(result.value)
    ensures rng'.Valid()
  {
    var f := s.formula;
    var n := f.numberOfVariables;
    var assignment: BitVector;
    rng' := rng;
    if initial.Some? {
      assignment := initial.value;
    } else {
      assignment, rng' := RandomBitVector(rng', n);
    }
    var shuffleDeck: seq<nat> := seq(n, i => i);
    var best := f.NSatisfied(assignment);
    if best == f.NumberOfClauses() {
      return Some(assignment), rng';
    }
    var i := 0;
    while i < s.maxIterations
      invariant f.Admits(assignment) && rng'.Valid()
      invariant IsDeck(shuffleDeck, n)
    {
      var found, candidates, best' := Scan(f, assignment, best, true);
      if found.Some? {
        return found, rng';
      }
      if candidates == [] {
        var shuffled;
        shuffled, rng' := Shuffle(shuffleDeck, rng');
        ShuffledDeck(shuffleDeck, shuffled, n);
        shuffleDeck := shuffled;
        assignment := Perturb(assignment, shuffleDeck, s.toChange);
        best := f.NSatisfied(assignment);
        if best == f.NumberOfClauses() {
          return Some(assignment), rng';
        }
      } else {
        assignment, rng' := MoveToCandidate(f, assignment, best, true, candidates, rng');
        best := best';
      }
      i := i + 1;
    }
    result := None;
  }
}
