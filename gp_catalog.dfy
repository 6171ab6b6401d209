/**
 * The operator tables the GP constructor builds once: the operators sorted
 * by arity, the count of operators of arity at most a for every a up to the
 * largest arity, the smallest non-zero arity (the all-ones std::size_t
 * value when there is none), the 20-entry geometric series of that arity,
 * which `full` uses to reserve a budget for every level still to fill, and
 * the deepest full tree that fits the node budget. All std::size_t
 * arithmetic wraps modulo 2^64 and is written out where it can.
 */
module GpCatalog {
  import opened Wrappers
  import opened GpTrees
  import opened Sorting

  /** The number of std::size_t values. */
  const Word: nat := 0x1_0000_0000_0000_0000
  /** std::size_t(-1), the "unset" value of minNonZeroArity. */
  const SizeMax: nat := Word - 1
  /** Entries of minArityGeometricSeries. */
  const SeriesLength: nat := 20

  /** The tables, as the fields of GP hold them after construction. */
  datatype Catalog = Catalog(operators: seq<Operator>, counts: seq<nat>, minNonZero: nat, maxArity: nat, series: seq<nat>)

  predicate ArityOrdered(ops: seq<Operator>)
  {
    forall i, j :: 0 <= i < j < |ops| ==> ops[i].arity <= ops[j].arity
  }

  /** The number of operators of arity at most a. */
  function CountUpTo(ops: seq<Operator>, a: nat): (c: nat)
    ensures c <= |ops|
  {
    if ops == [] then 0
    else CountUpTo(ops[..|ops| - 1], a) + (if ops[|ops| - 1].arity <= a then 1 else 0)
  }

  /** The number of operators of arity exactly a. */
  function CountOf(ops: seq<Operator>, a: nat): (c: nat)
    ensures c <= |ops|
  {
    if ops == [] then 0
    else CountOf(ops[..|ops| - 1], a) + (if ops[|ops| - 1].arity == a then 1 else 0)
  }

  /** The first non-zero arity met in order, SizeMax when every operator is a terminal. */
  function MinNonZeroOf(ops: seq<Operator>): nat
  {
    if ops == [] then SizeMax
    else
      var m := MinNonZeroOf(ops[..|ops| - 1]);
      if m == SizeMax && ops[|ops| - 1].arity != 0 then ops[|ops| - 1].arity else m
  }

  /** The t-th power of m with every product wrapped to std::size_t. */
  function PowW(m: nat, k: nat): nat
  {
    if k == 0 then 1 else (PowW(m, k - 1) * m) % Word
  }

  /** minArityGeometricSeries[k] as the constructor computes it, sums wrapped to std::size_t. */
  function SeriesW(m: nat, k: nat): nat
  {
    if k == 0 then 1 else (SeriesW(m, k - 1) + PowW(m, k)) % Word
  }

  /** The exact series 1 + m + ... + m^k: the fewest nodes of a full tree of depth k + 1 whose inner nodes have arity m. */
  function Geo(m: nat, k: nat): nat
  {
    if k == 0 then 1 else Geo(m, k - 1) + Pow(m, k)
  }

  function Pow(m: nat, k: nat): nat
  {
    if k == 0 then 1 else Pow(m, k - 1) * m
  }

  /** What the constructor leaves in the tables for the given operators. */
  ghost predicate Built(cat: Catalog, ops: seq<Operator>)
  {
    && ops != []
    && multiset(cat.operators) == multiset(ops)
    && ArityOrdered(cat.operators)
    && cat.maxArity == cat.operators[|cat.operators| - 1].arity
    && |cat.counts| == cat.maxArity + 1
    && (forall a :: 0 <= a <= cat.maxArity ==> cat.counts[a] == CountUpTo(cat.operators, a))
    && cat.minNonZero == MinNonZeroOf(cat.operators)
    && |cat.series| == SeriesLength
    && (forall k :: 0 <= k < SeriesLength ==> cat.series[k] == SeriesW(cat.minNonZero, k))
  }

  // ---------------------------------------------------------------------------
  // The constructor's loops

  /**
   * GP::GP, lines building the tables: sort the operators by arity, read the
   * largest arity off the back, count arities, turn the counts into running
   * sums, and fill the geometric series.
   */
  method Build(ops: seq<Operator>) returns (cat: Catalog)
    requires ops != []
    ensures Built(cat, ops)
  {
    var sorted := SortByArity(ops);
    var maxArity := sorted[|sorted| - 1].arity;
    var counts, minNonZero := CountTable(sorted, maxArity);
    var series := GeometricSeries(minNonZero);
    cat := Catalog(sorted, counts, minNonZero, maxArity, series);
  }

  /** std::sort of the operators with the comparator a.arity < b.arity. */
  method SortByArity(ops: seq<Operator>) returns (sorted: seq<Operator>)
    ensures multiset(sorted) == multiset(ops) && ArityOrdered(sorted)
  {
    sorted := SortBy(ops, (o: Operator) => o.arity as real);
  }

  /**
   * The counting loop and the running-sum loop: counts[a] ends as the number
   * of operators of arity at most a; minNonZero is the first non-zero arity.
   */
  method CountTable(ops: seq<Operator>, maxArity: nat) returns (counts: seq<nat>, minNonZero: nat)
    requires forall i :: 0 <= i < |ops| ==> ops[i].arity <= maxArity
    ensures |counts| == maxArity + 1
    ensures forall a :: 0 <= a <= maxArity ==> counts[a] == CountUpTo(ops, a)
    ensures minNonZero == MinNonZeroOf(ops)
  {
    counts := seq(maxArity + 1, _ => 0);
    minNonZero := SizeMax;
    for i := 0 to |ops|
      invariant |counts| == maxArity + 1
      invariant forall a :: 0 <= a <= maxArity ==> counts[a] == CountOf(ops[..i], a)
      invariant minNonZero == MinNonZeroOf(ops[..i])
    {
      assert ops[..i + 1][..i] == ops[..i];
      counts := counts[ops[i].arity := counts[ops[i].arity] + 1];
      if minNonZero == SizeMax && ops[i].arity != 0 {
        minNonZero := ops[i].arity;
      }
    }
    assert ops[..|ops|] == ops;
    ghost var exact := counts;
    var count := 0;
    for i := 0 to maxArity + 1
      invariant |counts| == maxArity + 1
      invariant forall a :: 0 <= a < i ==> counts[a] == CountUpTo(ops, a)
      invariant forall a :: i <= a <= maxArity ==> counts[a] == exact[a]
      invariant count == if i == 0 then 0 else CountUpTo(ops, i - 1)
    {
      CountSplit(ops, i);
      counts := counts[i := counts[i] + count];
      count := counts[i];
    }
  }

  /** The running sum of exact counts is the at-most count. */
  lemma {:induction false} CountSplit(ops: seq<Operator>, a: nat)
    ensures CountUpTo(ops, a) == (if a == 0 then 0 else CountUpTo(ops, a - 1)) + CountOf(ops, a)
  {
    if ops != [] {
      CountSplit(ops[..|ops| - 1], a);
    }
  }

  /** The running counts never decrease. */
  lemma {:induction false} CountGrows(ops: seq<Operator>, a: nat, b: nat)
    requires a <= b
    ensures CountUpTo(ops, a) <= CountUpTo(ops, b)
    decreases b - a
  {
    if a < b {
      CountGrows(ops, a, b - 1);
      CountSplit(ops, b);
    }
  }

  /** The series loop: geoSum is multiplied by the arity and added on, 19 times. */
  method GeometricSeries(m: nat) returns (series: seq<nat>)
    ensures |series| == SeriesLength
    ensures forall k :: 0 <= k < SeriesLength ==> series[k] == SeriesW(m, k)
  {
    var geoSum := 1;
    series := [geoSum];
    for n := 1 to SeriesLength
      invariant |series| == n && geoSum == PowW(m, n - 1)
      invariant forall k :: 0 <= k < n ==> series[k] == SeriesW(m, k)
    {
      ghost var before := series;
      geoSum := (geoSum * m) % Word;
      series := series + [(series[n - 1] + geoSum) % Word];
      assert series[n] == SeriesW(m, n);
      assert forall k :: 0 <= k < n ==> series[k] == before[k];
    }
  }

  /**
   * The search for maxDepthFull: from maxTreeDepth down to 2, the first depth
   * d whose fewest-node full tree, series[d - 1] nodes, fits maxTreeNodes.
   * None stands for the field left unset.
   */
  method MaxDepthFull(series: seq<nat>, maxTreeDepth: nat, maxTreeNodes: nat) returns (r: Option<nat>)
    requires maxTreeDepth <= |series|
    ensures r.Some? ==> 2 <= r.value <= maxTreeDepth && maxTreeNodes >= series[r.value - 1]
    ensures r.Some? ==> forall k :: r.value <= k < maxTreeDepth ==> maxTreeNodes < series[k]
    ensures r.None? ==> forall k :: 1 <= k < maxTreeDepth ==> maxTreeNodes < series[k]
  {
    r := None;
    var d: nat := maxTreeDepth;
    while d > 1
      invariant d <= maxTreeDepth
      invariant forall k :: d <= k < maxTreeDepth ==> maxTreeNodes < series[k]
    {
      if maxTreeNodes >= series[d - 1] {
        r := Some(d);
        return;
      }
      d := d - 1;
    }
  }

  // ---------------------------------------------------------------------------
  // What the tables mean

  /** In an arity-sorted table, the operators of arity at most a are exactly the first CountUpTo(ops, a). */
  lemma {:induction false} SortedCount(ops: seq<Operator>, a: nat)
    requires ArityOrdered(ops)
    ensures forall i :: 0 <= i < |ops| ==> (i < CountUpTo(ops, a) <==> ops[i].arity <= a)
  {
    if ops != [] {
      var n := |ops| - 1;
      var init := ops[..n];
      SortedCount(init, a);
      if ops[n].arity <= a {
        assert forall i :: 0 <= i < n ==> init[i].arity <= a;
        AllCounted(init, a);
      }
    }
  }

  lemma {:induction false} AllCounted(ops: seq<Operator>, a: nat)
    requires forall i :: 0 <= i < |ops| ==> ops[i].arity <= a
    ensures CountUpTo(ops, a) == |ops|
  {
    if ops != [] {
      AllCounted(ops[..|ops| - 1], a);
    }
  }

  /** An operator drawn from the first counts[a] entries has arity at most a; one drawn from counts[0] on is a non-terminal. */
  lemma Drawn(cat: Catalog, ops: seq<Operator>, a: nat, i: nat)
    requires Built(cat, ops) && a <= cat.maxArity && i < cat.counts[a]
    ensures i < |cat.operators| && cat.operators[i].arity <= a
    ensures i >= cat.counts[0] ==> cat.operators[i].arity >= 1
  {
    SortedCount(cat.operators, a);
    SortedCount(cat.operators, 0);
  }

  /** The table holds a non-terminal, and minNonZero is an arity some operator has. */
  ghost predicate HasNonTerminal(cat: Catalog)
  {
    && 1 <= cat.minNonZero <= cat.maxArity < |cat.counts|
    && cat.counts[cat.minNonZero - 1] < cat.counts[cat.minNonZero]
  }

  /** An operator of non-zero arity among the inputs makes the table fit for full. */
  lemma NonTerminalFound(cat: Catalog, ops: seq<Operator>, o: Operator)
    requires Built(cat, ops) && forall i :: 0 <= i < |ops| ==> ops[i].arity < SizeMax
    requires o in ops && o.arity != 0
    ensures HasNonTerminal(cat)
  {
    var sorted := cat.operators;
    assert forall i :: 0 <= i < |sorted| ==> sorted[i] in multiset(ops);
    assert o in multiset(sorted);
    MinNonZeroIsLeast(sorted);
    var i :| 0 <= i < |sorted| && sorted[i].arity == cat.minNonZero;
    assert sorted[i].arity <= sorted[|sorted| - 1].arity;
    ArityPresent(cat, ops, cat.minNonZero);
  }

  /** counts[a] - counts[a - 1] > 0 (no wrap: the counts only grow) exactly when some operator has arity a. */
  lemma ArityPresent(cat: Catalog, ops: seq<Operator>, a: nat)
    requires Built(cat, ops) && 1 <= a <= cat.maxArity
    ensures cat.counts[a - 1] < cat.counts[a] <==> exists i :: 0 <= i < |cat.operators| && cat.operators[i].arity == a
  {
    SortedCount(cat.operators, a);
    SortedCount(cat.operators, a - 1);
    if exists i :: 0 <= i < |cat.operators| && cat.operators[i].arity == a {
      var i :| 0 <= i < |cat.operators| && cat.operators[i].arity == a;
      assert i < cat.counts[a];
    }
    if cat.counts[a - 1] < cat.counts[a] {
      assert cat.operators[cat.counts[a - 1]].arity == a;
    }
  }

  /**
   * minNonZeroArity is the smallest non-zero arity when there is a
   * non-terminal (arities below the sentinel), and the sentinel otherwise.
   */
  lemma {:induction false} MinNonZeroIsLeast(ops: seq<Operator>)
    requires ArityOrdered(ops) && forall i :: 0 <= i < |ops| ==> ops[i].arity < SizeMax
    ensures MinNonZeroOf(ops) == SizeMax <==> forall i :: 0 <= i < |ops| ==> ops[i].arity == 0
    ensures MinNonZeroOf(ops) != SizeMax ==>
      && (exists i :: 0 <= i < |ops| && ops[i].arity == MinNonZeroOf(ops))
      && MinNonZeroOf(ops) != 0
      && forall i :: 0 <= i < |ops| && ops[i].arity != 0 ==> MinNonZeroOf(ops) <= ops[i].arity
  {
    if ops != [] {
      var n := |ops| - 1;
      var init := ops[..n];
      assert forall i :: 0 <= i < n ==> init[i] == ops[i];
      MinNonZeroIsLeast(init);
      if MinNonZeroOf(init) != SizeMax {
        var i :| 0 <= i < n && init[i].arity == MinNonZeroOf(init);
        assert ops[i].arity == MinNonZeroOf(ops);
      } else if ops[n].arity != 0 {
        assert ops[n].arity == MinNonZeroOf(ops);
      }
    }
  }

  /** One more level of a full tree of arity m: 1 + m + ... + m^k == 1 + m (1 + ... + m^(k-1)). */
  lemma {:induction false} GeoStep(m: nat, k: nat)
    requires 1 <= k
    ensures Geo(m, k) == 1 + m * Geo(m, k - 1)
  {
    if k > 1 {
      GeoStep(m, k - 1);
      calc {
        Geo(m, k);
        Geo(m, k - 1) + Pow(m, k - 1) * m;
        1 + m * Geo(m, k - 2) + Pow(m, k - 1) * m;
        { assert m * Geo(m, k - 2) + Pow(m, k - 1) * m == m * (Geo(m, k - 2) + Pow(m, k - 1)); }
        1 + m * Geo(m, k - 1);
      }
    }
  }

  /** The series grows and each power is part of it. */
  lemma {:induction false} GeoBounds(m: nat, k: nat)
    ensures Pow(m, k) <= Geo(m, k)
    ensures k >= 1 ==> Geo(m, k - 1) <= Geo(m, k)
  {
  }

  /** Without overflow the wrapped series is the exact one. */
  lemma {:induction false} NoWrap(m: nat, k: nat)
    requires Geo(m, k) < Word
    ensures PowW(m, k) == Pow(m, k) && SeriesW(m, k) == Geo(m, k)
  {
    if k > 0 {
      GeoBounds(m, k);
      NoWrap(m, k - 1);
    }
  }

  /** The series of a table whose exact series does not overflow up to entry k: each entry is one plus m times the one before. */
  lemma SeriesLevels(cat: Catalog, ops: seq<Operator>, k: nat)
    requires Built(cat, ops) && k < SeriesLength && Geo(cat.minNonZero, k) < Word
    ensures forall j :: 1 <= j <= k ==> cat.series[j] == 1 + cat.minNonZero * cat.series[j - 1]
    ensures forall j :: 0 <= j <= k ==> cat.series[j] == Geo(cat.minNonZero, j)
  {
    ExactPrefix(cat.series, cat.minNonZero, k);
  }

  /** The wrapped series is exact up to an entry k that does not overflow. */
  lemma ExactPrefix(series: seq<nat>, m: nat, k: nat)
    requires k < |series| && Geo(m, k) < Word
    requires forall i :: 0 <= i < |series| ==> series[i] == SeriesW(m, i)
    ensures forall j :: 1 <= j <= k ==> series[j] == 1 + m * series[j - 1]
    ensures forall j :: 0 <= j <= k ==> series[j] == Geo(m, j)
  {
    forall j | 0 <= j <= k
      ensures series[j] == Geo(m, j)
    {
      ExactEntry(series, m, j, k);
    }
    forall j | 1 <= j <= k
      ensures series[j] == 1 + m * series[j - 1]
    {
      ExactEntry(series, m, j, k);
      ExactEntry(series, m, j - 1, k);
      GeoStep(m, j);
    }
  }

  /** An entry at or below an exact entry k of the wrapped series is exact. */
  lemma ExactEntry(series: seq<nat>, m: nat, j: nat, k: nat)
    requires j <= k < |series| && Geo(m, k) < Word
    requires forall i :: 0 <= i < |series| ==> series[i] == SeriesW(m, i)
    ensures series[j] == Geo(m, j)
  {
    GeoMonotone(m, j, k);
    NoWrap(m, j);
  }

  lemma {:induction false} GeoMonotone(m: nat, j: nat, k: nat)
    requires j <= k
    ensures Geo(m, j) <= Geo(m, k)
    decreases k - j
  {
    if j < k {
      GeoMonotone(m, j, k - 1);
      GeoBounds(m, k);
    }
  }

  /** With exact entries up to k the series increases up to k. */
  lemma SeriesIncreasing(cat: Catalog, ops: seq<Operator>, j: nat, k: nat)
    requires Built(cat, ops) && j <= k < SeriesLength && Geo(cat.minNonZero, k) < Word
    ensures cat.series[j] <= cat.series[k]
  {
    SeriesLevels(cat, ops, k);
    GeoMonotone(cat.minNonZero, j, k);
  }
}
