/**
 * The two library algorithms the system relies on: std::sort with a
 * comparator that compares one numeric key, and std::shuffle driven by the
 * engine. std::sort promises only some sorted permutation; the model is one
 * such permutation (an insertion sort). std::shuffle promises a permutation;
 * the model is the Fisher-Yates sweep with the engine's draws.
 */
module Sorting {
  import opened Random

  /** Ascending order of `key` along the sequence. */
  ghost predicate SortedBy<T>(s: seq<T>, key: T -> real)
  {
    forall i, j :: 0 <= i < j < |s| ==> key(s[i]) <= key(s[j])
  }

  /** Inserts `x` after every element whose key is at most key(x). */
  method InsertBy<T>(r: seq<T>, x: T, key: T -> real) returns (res: seq<T>)
    requires SortedBy(r, key)
    ensures multiset(res) == multiset(r) + multiset{x}
    ensures SortedBy(res, key)
  {
    var j := 0;
    while j < |r| && key(r[j]) <= key(x)
      invariant 0 <= j <= |r|
      invariant forall k :: 0 <= k < j ==> key(r[k]) <= key(x)
    {
      j := j + 1;
    }
    res := r[..j] + [x] + r[j..];
    InsertAtBoundary(r, x, j, key);
  }

  lemma InsertAtBoundary<T>(r: seq<T>, x: T, j: nat, key: T -> real)
    requires SortedBy(r, key) && j <= |r|
    requires forall k :: 0 <= k < j ==> key(r[k]) <= key(x)
    requires j < |r| ==> key(x) < key(r[j])
    ensures multiset(r[..j] + [x] + r[j..]) == multiset(r) + multiset{x}
    ensures SortedBy(r[..j] + [x] + r[j..], key)
  {
    InsertMultiset(r, x, j);
    InsertShape(r, x, j);
    SortedAfterInsert(r, x, j, key, r[..j] + [x] + r[j..]);
  }

  /** Putting x in at j adds exactly one x to the bag. */
  lemma InsertMultiset<T>(r: seq<T>, x: T, j: nat)
    requires j <= |r|
    ensures multiset(r[..j] + [x] + r[j..]) == multiset(r) + multiset{x}
  {
    calc {
      multiset(r[..j] + [x] + r[j..]);
      multiset(r[..j] + [x]) + multiset(r[j..]);
      multiset(r[..j]) + multiset{x} + multiset(r[j..]);
      { assert r == r[..j] + r[j..]; }
      multiset(r) + multiset{x};
    }
  }

  /** Where each element lands when x goes in at j. */
  lemma InsertShape<T>(r: seq<T>, x: T, j: nat)
    requires j <= |r|
    ensures |r[..j] + [x] + r[j..]| == |r| + 1 && (r[..j] + [x] + r[j..])[j] == x
    ensures forall k :: 0 <= k < j ==> (r[..j] + [x] + r[j..])[k] == r[k]
    ensures forall k :: j < k <= |r| ==> (r[..j] + [x] + r[j..])[k] == r[k - 1]
  {
  }

  lemma SortedAfterInsert<T>(r: seq<T>, x: T, j: nat, key: T -> real, res: seq<T>)
    requires SortedBy(r, key) && j <= |r|
    requires forall k :: 0 <= k < j ==> key(r[k]) <= key(x)
    requires j < |r| ==> key(x) < key(r[j])
    requires |res| == |r| + 1 && res[j] == x
    requires forall k :: 0 <= k < j ==> res[k] == r[k]
    requires forall k :: j < k < |res| ==> res[k] == r[k - 1]
    ensures SortedBy(res, key)
  {
    forall a, b | 0 <= a < b < |res| ensures key(res[a]) <= key(res[b]) {
      if b < j {
        assert res[a] == r[a] && res[b] == r[b];
      } else if a > j {
        assert res[a] == r[a - 1] && res[b] == r[b - 1];
      } else if a == j {
        assert res[b] == r[b - 1];
        assert key(r[j]) <= key(r[b - 1]);
      } else if b == j {
        assert res[a] == r[a];
      } else {
        assert res[a] == r[a] && res[b] == r[b - 1];
      }
    }
  }

  /** std::sort(begin, end, [](a, b) { return key(a) < key(b); }) */
  method SortBy<T>(s: seq<T>, key: T -> real) returns (r: seq<T>)
    ensures multiset(r) == multiset(s)
    ensures SortedBy(r, key)
  {
    r := [];
    for i := 0 to |s|
      invariant multiset(r) == multiset(s[..i])
      invariant SortedBy(r, key)
    {
      r := InsertBy(r, s[i], key);
      assert s[..i + 1] == s[..i] + [s[i]];
    }
    assert s[..|s|] == s;
  }

  /** std::shuffle(begin, end, rng): for i from the back, swap s[i] with a uniformly drawn s[j], j <= i. */
  method Shuffle<T>(s: seq<T>, rng: Rng) returns (r: seq<T>, rng': Rng)
    requires rng.Valid()
    ensures multiset(r) == multiset(s)
    ensures rng'.Valid()
  {
    r, rng' := s, rng;
    var i := |s|;
    while i > 1
      invariant 0 <= i <= |s| == |r|
      invariant multiset(r) == multiset(s)
      invariant rng'.Valid()
    {
      i := i - 1;
      var (j, next) := rng'.Uniform(0, i);
      r, rng' := r[i := r[j]][j := r[i]], next;
    }
  }

  lemma {:induction false} PermutationKeepsDistinct<T>(s: seq<T>, r: seq<T>)
    requires multiset(r) == multiset(s)
    requires forall i, j :: 0 <= i < j < |s| ==> s[i] != s[j]
    ensures |r| == |s|
    ensures forall i, j :: 0 <= i < j < |r| ==> r[i] != r[j]
  {
    assert |r| == |multiset(r)| == |multiset(s)| == |s|;
    forall i, j | 0 <= i < j < |r| ensures r[i] != r[j] {
      if r[i] == r[j] {
        var x := r[i];
        assert multiset(r)[x] >= 2 by {
          assert r == r[..i] + [r[i]] + r[i+1..j] + [r[j]] + r[j+1..];
        }
        DistinctCount(s, x);
        assert false;
      }
    }
  }

  lemma {:induction false} DistinctCount<T>(s: seq<T>, x: T)
    requires forall i, j :: 0 <= i < j < |s| ==> s[i] != s[j]
    ensures multiset(s)[x] <= 1
  {
    if s != [] {
      var t := s[1..];
      assert s == [s[0]] + t;
      DistinctCount(t, x);
      if s[0] == x {
        assert forall k :: 0 <= k < |t| ==> t[k] != x by {
          forall k | 0 <= k < |t| ensures t[k] != x { assert t[k] == s[k + 1]; }
        }
        assert x !in multiset(t);
      }
    }
  }
}
