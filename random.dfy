/**
 * The random-number engines of the system (std::mt19937 with uniform
 * distributions) are not modelled; what is modelled is the range each draw
 * falls in. An `Rng` is an oracle plus the number of draws taken so far, so
 * that threading an `Rng` value through a computation stands for the engine
 * state that the source advances in place. Every property proved about a
 * computation that draws from an `Rng` holds for every valid oracle.
 */
module Random {
  /** `ints(t, n)` is the t-th integer draw over [0, n); `reals(t)` the t-th draw over [0, 1). */
  datatype Rng = Rng(ints: (nat, nat) -> nat, reals: nat -> real, calls: nat)
  {
    ghost predicate Valid()
    {
      && (forall t, n :: 0 < n ==> ints(t, n) < n)
      && (forall t :: 0.0 <= reals(t) < 1.0)
    }

    /** std::uniform_int_distribution(lo, hi) with lo <= hi. */
    function Uniform(lo: nat, hi: nat): (res: (nat, Rng))
      requires Valid() && lo <= hi
      ensures lo <= res.0 <= hi
      ensures res.1.Valid() && res.1.calls == calls + 1
    {
      (lo + ints(calls, hi - lo + 1), this.(calls := calls + 1))
    }

    /** std::uniform_real_distribution(0, 1). */
    function Unit(): (res: (real, Rng))
      requires Valid()
      ensures 0.0 <= res.0 < 1.0
      ensures res.1.Valid() && res.1.calls == calls + 1
    {
      (reals(calls), this.(calls := calls + 1))
    }

    /** std::uniform_real_distribution(lo, hi) with lo <= hi: a unit draw scaled onto the interval. */
    function UniformReal(lo: real, hi: real): (res: (real, Rng))
      requires Valid() && lo <= hi
      ensures lo <= res.0 <= hi
      ensures res.1.Valid() && res.1.calls == calls + 1
    {
      var draw := Unit();
      var v := Scaled(draw.0, lo, hi);
      (v, draw.1)
    }
  }

  /** A unit draw scaled onto [lo, hi]. */
  function Scaled(u: real, lo: real, hi: real): (v: real)
    requires 0.0 <= u < 1.0 && lo <= hi
    ensures lo <= v <= hi
  {
    ScaledUnit(u, lo, hi);
    lo + u * (hi - lo)
  }

  /** A unit draw scaled onto [lo, hi] stays inside it. */
  lemma ScaledUnit(u: real, lo: real, hi: real)
    requires 0.0 <= u < 1.0 && lo <= hi
    ensures lo <= lo + u * (hi - lo) <= hi
  {
    var w := hi - lo;
    NonNegativeProduct(u, w);
    NonNegativeProduct(1.0 - u, w);
    assert u * (hi - lo) == u * w;
    assert w - u * w == (1.0 - u) * w;
  }

  lemma NonNegativeProduct(a: real, b: real)
    requires 0.0 <= a && 0.0 <= b
    ensures 0.0 <= a * b
  {
  }
}
