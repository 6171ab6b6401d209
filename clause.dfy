/**
 * A disjunctive clause of the 3-SAT substrate (Lab1/Part1/Clause.cpp).
 * A literal is a non-zero int: +k stands for variable k (logical index
 * k - 1) and -k for its negation.
 */
module Clauses {
  import opened BitVectors
  import opened Text
  import Tokenizer

  datatype Clause = Clause(literals: seq<int>)

  /** getSize(): the number of literals. */
  function Size(c: Clause): nat
  {
    |c.literals|
  }

  /** getLiteral(index): the stored literal at that position. */
  function Literal(c: Clause, index: int): int
    requires 0 <= index < Size(c)
  {
    c.literals[index]
  }

  /**
   * A literal the clause can look up in an assignment of n variables:
   * literal 0 would read get(-1), and |l| > n reads past the end.
   */
  predicate LiteralFits(l: int, n: nat)
  {
    l != 0 && -(n as int) <= l <= n
  }

  predicate Fits(c: Clause, n: nat)
  {
    forall k :: 0 <= k < |c.literals| ==> LiteralFits(c.literals[k], n)
  }

  /** The logical index of the variable a literal names. */
  function Variable(l: int): (v: nat)
    requires l != 0
    ensures v + 1 == if l > 0 then l else -l
  {
    if l > 0 then l - 1 else -l - 1
  }

  /** Whether one literal holds under the assignment. */
  predicate LiteralHolds(l: int, a: BitVector)
    requires LiteralFits(l, a.Size())
  {
    if l > 0 then a.Get(l - 1) else !a.Get(-l - 1)
  }

  /**
   * isSatisfied(assignment): the scan returns true at the first literal
   * that holds, and false once the literals run out.
   */
  predicate IsSatisfied(c: Clause, a: BitVector)
    requires Fits(c, a.Size())
  {
    AnyHolds(c.literals, a)
  }

  predicate AnyHolds(literals: seq<int>, a: BitVector)
    requires forall k :: 0 <= k < |literals| ==> LiteralFits(literals[k], a.Size())
    ensures AnyHolds(literals, a) <==> exists k :: 0 <= k < |literals| && LiteralHolds(literals[k], a)
  {
    if literals == [] then false
    else
      assert forall k :: 1 <= k < |literals| ==> literals[1..][k - 1] == literals[k];
      LiteralHolds(literals[0], a) || AnyHolds(literals[1..], a)
  }

  /** An empty clause is never satisfied. */
  lemma EmptyNeverSatisfied(a: BitVector)
    ensures !IsSatisfied(Clause([]), a)
  {
  }

  /**
   * Flipping the variable of a literal that is false makes the literal,
   * and with it the clause, satisfied.
   */
  lemma FlipSatisfies(c: Clause, a: BitVector, k: nat)
    requires Fits(c, a.Size()) && k < Size(c)
    requires !LiteralHolds(c.literals[k], a)
    ensures var v := Variable(c.literals[k]);
      IsSatisfied(c, a.SetBit(v, !a.Get(v)))
  {
    var l := c.literals[k];
    var b := a.SetBit(Variable(l), !a.Get(Variable(l)));
    assert LiteralHolds(l, b);
  }

  /** toString(): the literals in order, separated by single spaces. */
  function ToString(c: Clause): (s: string)
  {
    Join(LiteralTexts(c), ' ')
  }

  /** The decimal text of each literal, in order. */
  function LiteralTexts(c: Clause): (texts: seq<string>)
    ensures |texts| == Size(c)
    ensures forall k :: 0 <= k < |texts| ==> texts[k] == IntToString(c.literals[k])
  {
    seq(|c.literals|, k requires 0 <= k < |c.literals| => IntToString(c.literals[k]))
  }

  /**
   * The text reads back: splitting toString() on spaces, the way the
   * tokenizer splits, and parsing each token gives the literals in order.
   */
  lemma ToStringRoundTrip(c: Clause)
    ensures var tokens := Tokenizer.TrimAll(Tokenizer.Tokens(ToString(c), ' '));
      && |tokens| == Size(c)
      && forall k :: 0 <= k < |tokens| ==> (
        && |tokens[k]| >= 1
        && (forall j :: (if tokens[k][0] == '-' then 1 else 0) <= j < |tokens[k]| ==> IsDigit(tokens[k][j]))
        && ParseInt(tokens[k]) == c.literals[k])
  {
    var texts := LiteralTexts(c);
    forall k | 0 <= k < |texts|
      ensures ' ' !in texts[k] && Tokenizer.Trim(texts[k]) == texts[k]
    {
      assert forall j :: 0 <= j < |texts[k]| ==> texts[k][j] != ' ';
    }
    Tokenizer.SplitOfJoin(texts, ' ');
    forall k | 0 <= k < |texts|
      ensures (forall j :: (if texts[k][0] == '-' then 1 else 0) <= j < |texts[k]| ==> IsDigit(texts[k][j]))
        && ParseInt(texts[k]) == c.literals[k]
    {
      IntRoundTrip(c.literals[k]);
    }
  }
}
