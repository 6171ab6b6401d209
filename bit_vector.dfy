/**
 * Bit vectors of the 3-SAT substrate (Lab1/Part1/BitVector.cpp and
 * MutableBitVector.cpp). The stored bits follow boost::dynamic_bitset:
 * position 0 is the least significant bit. The logical index used by
 * `get` and `set` is reversed, so logical index 0 is the highest stored
 * position.
 */
module BitVectors {
  import opened Random

  /** An immutable BitVector: a copy of a dynamic_bitset. */
  datatype BitVector = BitVector(bits: seq<bool>)
  {
    /** getSize(): the number of stored bits. */
    function Size(): nat
    {
      |bits|
    }

    /** get(index): the stored bit at position size - 1 - index. */
    function Get(index: int): bool
      requires 0 <= index < Size()
    {
      bits[|bits| - 1 - index]
    }

    /** The value `set(index, value)` leaves behind, on a copy. */
    function SetBit(index: int, value: bool): (r: BitVector)
      requires 0 <= index < Size()
      ensures r.Size() == Size()
      ensures forall j :: 0 <= j < Size() ==> r.Get(j) == if j == index then value else Get(j)
    {
      BitVector(bits[|bits| - 1 - index := value])
    }

    /**
     * toString(): boost::to_string writes the highest stored position first,
     * so the text reads the logical indices 0, 1, ... from left to right.
     */
    function ToString(): (s: string)
      ensures |s| == Size()
      ensures forall k :: 0 <= k < |s| ==> (s[k] == '1' || s[k] == '0') && (s[k] == '1' <==> Get(k))
      decreases |bits|
    {
      if bits == [] then ""
      else
        var rest := BitVector(bits[1..]);
        assert forall k :: 0 <= k < |bits| - 1 ==> rest.Get(k) == Get(k);
        rest.ToString() + [BitChar(bits[0])]
    }
  }

  /** BitVector(int n): n bits, all false. */
  function Zero(n: nat): (v: BitVector)
    ensures v.Size() == n
    ensures forall i :: 0 <= i < n ==> !v.Get(i)
  {
    BitVector(seq(n, _ => false))
  }

  /** The character boost::to_string writes for one stored bit. */
  function BitChar(b: bool): char
  {
    if b then '1' else '0'
  }

  /** The random constructor BitVector(rng, numberOfBits): one draw over {0, 1} per stored bit. */
  method RandomBitVector(rng: Rng, numberOfBits: nat) returns (v: BitVector, rng': Rng)
    requires rng.Valid()
    ensures v.Size() == numberOfBits
    ensures rng'.Valid()
  {
    var bits: seq<bool> := [];
    rng' := rng;
    for i := 0 to numberOfBits
      invariant |bits| == i
      invariant rng'.Valid()
    {
      var (b, next) := rng'.Uniform(0, 1);
      bits, rng' := bits + [b == 1], next;
    }
    v := BitVector(bits);
  }

  // ---------------------------------------------------------------------
  // The number a bit vector stands for: bits[0] is the least significant.

  function Pow2(n: nat): (p: nat)
    ensures p >= 1
  {
    if n == 0 then 1 else 2 * Pow2(n - 1)
  }

  function ToNat(s: seq<bool>): nat
  {
    if s == [] then 0 else (if s[0] then 1 else 0) + 2 * ToNat(s[1..])
  }

  /** The n-bit vector of k mod 2^n, least significant bit first. */
  function FromNat(k: nat, n: nat): (s: seq<bool>)
    ensures |s| == n
  {
    if n == 0 then [] else [k % 2 == 1] + FromNat(k / 2, n - 1)
  }

  lemma {:induction false} ToNatBound(s: seq<bool>)
    ensures ToNat(s) < Pow2(|s|)
  {
    if s != [] {
      ToNatBound(s[1..]);
    }
  }

  lemma {:induction false} ToNatAppend(a: seq<bool>, b: seq<bool>)
    ensures ToNat(a + b) == ToNat(a) + Pow2(|a|) * ToNat(b)
  {
    if a == [] {
      assert a + b == b;
    } else {
      var a0 := if a[0] then 1 else 0;
      assert (a + b)[1..] == a[1..] + b;
      ToNatAppend(a[1..], b);
      calc {
        ToNat(a + b);
        a0 + 2 * ToNat(a[1..] + b);
        a0 + 2 * (ToNat(a[1..]) + Pow2(|a| - 1) * ToNat(b));
        { Distribute(ToNat(a[1..]), Pow2(|a| - 1) * ToNat(b)); }
        a0 + 2 * ToNat(a[1..]) + 2 * (Pow2(|a| - 1) * ToNat(b));
        { Associate(Pow2(|a| - 1), ToNat(b)); }
        ToNat(a) + Pow2(|a|) * ToNat(b);
      }
    }
  }

  lemma Distribute(x: int, y: int)
    ensures 2 * (x + y) == 2 * x + 2 * y
  {
  }

  lemma Associate(x: int, y: int)
    ensures 2 * (x * y) == (2 * x) * y
  {
  }

  lemma {:induction false} ToNatConst(s: seq<bool>, b: bool)
    requires forall k :: 0 <= k < |s| ==> s[k] == b
    ensures ToNat(s) == if b then Pow2(|s|) - 1 else 0
  {
    if s != [] {
      ToNatConst(s[1..], b);
    }
  }

  lemma {:induction false} FromNatToNat(s: seq<bool>)
    ensures FromNat(ToNat(s), |s|) == s
  {
    if s != [] {
      FromNatToNat(s[1..]);
      var k := ToNat(s);
      assert k / 2 == ToNat(s[1..]);
      assert (k % 2 == 1) == s[0];
      assert s == [s[0]] + s[1..];
    }
  }

  lemma {:induction false} ToNatFromNat(k: nat, n: nat)
    requires k < Pow2(n)
    ensures ToNat(FromNat(k, n)) == k
  {
    if n > 0 {
      ToNatFromNat(k / 2, n - 1);
      var s := FromNat(k, n);
      assert s[1..] == FromNat(k / 2, n - 1);
    }
  }

  /** Equal numbers mean equal bit vectors of one length. */
  lemma ToNatInjective(s: seq<bool>, t: seq<bool>)
    requires |s| == |t| && ToNat(s) == ToNat(t)
    ensures s == t
  {
    FromNatToNat(s);
    FromNatToNat(t);
  }

  /**
   * One carry step: `before` is 1...1 0 rest and `after` is 0...0 1 rest,
   * with the first j stored bits flipped from 1 to 0.
   */
  lemma {:induction false} CarryAdds(before: seq<bool>, after: seq<bool>, j: nat)
    requires |before| == |after| && j < |before|
    requires forall k :: 0 <= k < j ==> before[k] && !after[k]
    requires !before[j] && after[j]
    requires forall k :: j < k < |before| ==> after[k] == before[k]
    ensures ToNat(after) == ToNat(before) + 1
  {
    var rest := before[j + 1..];
    assert after[j + 1..] == rest;
    ValueAround(before, j, true);
    ValueAround(after, j, false);
    ShiftByOne(Pow2(j), ToNat(rest));
  }

  /** The value of s whose first j stored bits all equal b, split around bit j. */
  lemma ValueAround(s: seq<bool>, j: nat, b: bool)
    requires j < |s| && forall k :: 0 <= k < j ==> s[k] == b
    ensures ToNat(s) == (if b then Pow2(j) - 1 else 0) + Pow2(j) * ((if s[j] then 1 else 0) + 2 * ToNat(s[j + 1..]))
  {
    var pre, tail := s[..j], [s[j]] + s[j + 1..];
    assert s == pre + tail;
    HeadValue(s[j], s[j + 1..]);
    ToNatAppend(pre, tail);
    ToNatConst(pre, b);
  }

  lemma HeadValue(x: bool, rest: seq<bool>)
    ensures ToNat([x] + rest) == (if x then 1 else 0) + 2 * ToNat(rest)
  {
    assert ([x] + rest)[1..] == rest;
  }

  lemma ShiftByOne(p: int, r: int)
    ensures p * (1 + 2 * r) == p + p * (2 * r)
  {
  }

  /**
   * A MutableBitVector: the same dynamic_bitset, with `set` and `increment`
   * writing its bits in place.
   */
  class MutableBitVector {
    const bits: array<bool>

    /** The BitVector this object currently holds. */
    function Value(): BitVector
      reads this, bits
    {
      BitVector(bits[..])
    }

    /** MutableBitVector(const dynamic_bitset&): a copy of the given bits. */
    constructor FromBits(v: BitVector)
      ensures Value() == v
      ensures fresh(bits)
    {
      bits := new bool[|v.bits|](i requires 0 <= i < |v.bits| => v.bits[i]);
    }

    /** MutableBitVector(int n): n bits, all false. */
    constructor Zeros(n: nat)
      ensures Value() == Zero(n)
      ensures fresh(bits)
    {
      bits := new bool[n](_ => false);
    }

    /** set(index, value): bits[size - 1 - index] = value. */
    method Set(index: int, value: bool)
      requires 0 <= index < bits.Length
      modifies bits
      ensures Value() == old(Value()).SetBit(index, value)
    {
      bits[bits.Length - 1 - index] := value;
    }

    /**
     * increment(): adds 1 to the number whose least significant bit is
     * bits[0], modulo 2^size, and reports the overflow.
     */
    method Increment() returns (carry: bool)
      modifies bits
      ensures carry <==> forall k :: 0 <= k < bits.Length ==> old(bits[k])
      ensures carry <==> ToNat(old(bits[..])) + 1 == Pow2(bits.Length)
      ensures ToNat(bits[..]) == if carry then 0 else ToNat(old(bits[..])) + 1
      ensures carry ==> forall k :: 0 <= k < bits.Length ==> !bits[k]
      ensures forall k, i :: 0 <= k < i < bits.Length && !old(bits[k]) ==> bits[i] == old(bits[i])
    {
      carry := true;
      var i := 0;
      while i < bits.Length && carry
        invariant 0 <= i <= bits.Length
        invariant carry ==> forall k :: 0 <= k < i ==> old(bits[k]) && !bits[k]
        invariant !carry ==> 1 <= i && !old(bits[i - 1]) && bits[i - 1]
        invariant !carry ==> forall k :: 0 <= k < i - 1 ==> old(bits[k]) && !bits[k]
        invariant forall k :: i <= k < bits.Length ==> bits[k] == old(bits[k])
      {
        carry := bits[i];
        bits[i] := !carry;
        i := i + 1;
      }
      ghost var before, after := old(bits[..]), bits[..];
      ToNatBound(after);
      if carry {
        ToNatConst(before, true);
        ToNatConst(after, false);
      } else {
        CarryAdds(before, after, i - 1);
      }
    }
  }

  /** copy(): a MutableBitVector holding the same bits in fresh storage. */
  method Copy(v: BitVector) returns (m: MutableBitVector)
    ensures fresh(m) && fresh(m.bits)
    ensures m.Value() == v
  {
    m := new MutableBitVector.FromBits(v);
  }
}
