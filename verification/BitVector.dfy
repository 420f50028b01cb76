/**
 The packed bit vector of common/common.h.
 */
module BitVectors {
  function Mask(k: nat): bv8
    requires k < 8
  {
    1 << k
  }

  /** Setting bit k of a byte sets it and leaves the other seven alone. */
  lemma SetOneBit(x: bv8, k: nat, j: nat)
    requires k < 8 && j < 8
    ensures ((x | Mask(k)) & Mask(j)) != 0 <==> j == k || (x & Mask(j)) != 0
  {
    assert Mask(0) == 1 && Mask(1) == 2 && Mask(2) == 4 && Mask(3) == 8;
    assert Mask(4) == 16 && Mask(5) == 32 && Mask(6) == 64 && Mask(7) == 128;
  }

  class BitVector {
    const vec: array<bv8>
    ghost const size: nat

    ghost predicate Valid()
      reads this
    {
      vec.Length == (size + 7) / 8
    }

    constructor (n: nat)
      ensures Valid() && size == n && fresh(vec)
      ensures Bits() == seq(n, _ => false)
    {
      size := n;
      vec := new bv8[(n + 7) / 8](_ => 0);
    }

    predicate Get(idx: nat)
      requires Valid() && idx < size
      reads this, vec
    {
      (vec[idx / 8] & Mask(idx % 8)) != 0
    }

    /** The vector as the list of its bits. */
    ghost function Bits(): (bits: seq<bool>)
      requires Valid()
      reads this, vec
    {
      seq(size, i requires 0 <= i < size && Valid() reads this, vec => Get(i))
    }

    method Set(idx: nat)
      requires Valid() && idx < size
      modifies vec
      ensures Valid() && Bits() == old(Bits())[idx := true]
    {
      vec[idx / 8] := vec[idx / 8] | Mask(idx % 8);
      forall i: nat | i < size ensures Get(i) <==> i == idx || old(Get(i)) {
        SetOneBit(old(vec[idx / 8]), idx % 8, i % 8);
        assert i == 8 * (i / 8) + i % 8;
      }
      assert forall i :: 0 <= i < size ==> Bits()[i] == Get(i) && old(Bits()[i]) == old(Get(i));
    }
  }
}
