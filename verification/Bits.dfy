/**
 Bytes and the small arithmetic helpers of common/common.h.

 Machine words are natural numbers here.  `x & (p - 1)` for a power of two p is written `x % p`,
 and `x & ~(p - 1)` is written `x - x % p`.
 */
module Bits {
  newtype byte = x: int | 0 <= x < 256

  const TWO_64 := 0x1_0000_0000_0000_0000
  const TWO_32 := 0x1_0000_0000

  /** Conversion to a 64-bit word. */
  function U64(x: int): (r: nat)
    ensures r < TWO_64 && (0 <= x < TWO_64 ==> r == x)
  {
    x % 0x1_0000_0000_0000_0000
  }

  function Pow2(k: nat): (r: nat)
    ensures r > 0
  {
    if k == 0 then 1 else 2 * Pow2(k - 1)
  }

  /** The number of bits of a word up to its highest set bit: 64 minus the leading zeros. */
  function BitLength(v: nat): nat {
    if v == 0 then 0 else 1 + BitLength(v / 2)
  }

  predicate HasSingleBit(v: nat) {
    v > 0 && v == Pow2(BitLength(v) - 1)
  }

  function BitCeil(v: nat): nat {
    if HasSingleBit(v) then v else Pow2(BitLength(v))
  }

  lemma {:induction false} BitLengthBounds(v: nat)
    requires v > 0
    ensures BitLength(v) > 0 && Pow2(BitLength(v) - 1) <= v < Pow2(BitLength(v))
  {
    if v > 1 {
      BitLengthBounds(v / 2);
      assert Pow2(BitLength(v) - 1) == 2 * Pow2(BitLength(v / 2) - 1);
    } else {
      assert Pow2(1) == 2;
    }
  }

  lemma MulGrows(p: nat, d: int)
    ensures d >= 1 ==> p * d >= p
    ensures d <= -1 ==> p * d <= 0 - p
  {
    if d >= 1 {
      assert p * d == p + p * (d - 1);
    } else if d <= -1 {
      assert p * d == p * (d + 1) - p;
    }
  }

  /** Quotient and remainder are unique. */
  lemma ModUnique(x: int, p: nat, q: int, r: int)
    requires x == p * q + r && 0 <= r < p
    ensures x / p == q && x % p == r
  {
    assert p * (x / p - q) == r - x % p;
    MulGrows(p, x / p - q);
  }

  lemma {:induction false} Pow2Divides(j: nat, k: nat)
    requires j <= k
    ensures Pow2(j) <= Pow2(k) && Pow2(k) % Pow2(j) == 0
    decreases k
  {
    var p, q := Pow2(j), Pow2(k);
    if j == k {
      ModUnique(q, p, 1, 0);
    } else {
      Pow2Divides(j, k - 1);
      assert q == p * (2 * (Pow2(k - 1) / p));
      ModUnique(q, p, 2 * (Pow2(k - 1) / p), 0);
    }
  }

  /** The low k bits are zero. */
  predicate LowZeros(v: nat, k: nat)
    decreases k
  {
    k == 0 || (v % 2 == 0 && LowZeros(v / 2, k - 1))
  }

  lemma {:induction false} LowZerosIsMultiple(v: nat, k: nat)
    ensures LowZeros(v, k) <==> v % Pow2(k) == 0
    decreases k
  {
    if k > 0 {
      LowZerosIsMultiple(v / 2, k - 1);
      HalvedMod(v, Pow2(k - 1));
    }
  }

  /** Dividing by 2 p is dividing by 2 and then by p. */
  lemma HalvedMod(v: int, p: nat)
    requires p > 0
    ensures v / (2 * p) == v / 2 / p && v % (2 * p) == v % 2 + 2 * (v / 2 % p)
  {
    var h := v / 2;
    var q, r := h / p, h % p;
    assert h == p * q + r;
    assert v == 2 * p * q + (v % 2 + 2 * r);
    ModUnique(v, 2 * p, q, v % 2 + 2 * r);
  }

  /** A multiple of a multiple. */
  lemma MultipleOfMultiple(x: int, p: nat, g: nat)
    requires p > 0 && g > 0 && p % g == 0 && x % p == 0
    ensures x % g == 0
  {
    var m, n := p / g, x / p;
    assert p == g * m && x == p * n;
    assert x == g * (m * n);
    ModUnique(x, g, m * n, 0);
  }

  /** bit_ceil is the least power of two that is not below its argument. */
  lemma BitCeilIsLeast(v: nat, k: nat)
    ensures v <= BitCeil(v) && exists j :: BitCeil(v) == Pow2(j)
    ensures v <= Pow2(k) ==> BitCeil(v) <= Pow2(k) && Pow2(k) % BitCeil(v) == 0
  {
    var n := BitCeilExponent(v);
    if v <= Pow2(k) {
      if k < n {
        Pow2Divides(k, n - 1);
      } else {
        Pow2Divides(n, k);
      }
    }
  }

  lemma BitCeilExponent(v: nat) returns (n: nat)
    ensures BitCeil(v) == Pow2(n) >= v
    ensures n > 0 ==> Pow2(n - 1) < v
  {
    if v == 0 {
      n := 0;
    } else {
      BitLengthBounds(v);
      n := if HasSingleBit(v) then BitLength(v) - 1 else BitLength(v);
    }
  }

  /** align_to on 64-bit words, for a power of two. */
  function AlignTo(val: nat, align: nat): nat {
    if align == 0 then val
    else
      var t := U64(val + align - 1);
      t - t % align
  }

  /** Without overflow align_to yields the first multiple of the alignment that is not below its argument. */
  lemma AlignToIsLeast(val: nat, align: nat)
    requires align > 0 && val + align <= TWO_64
    ensures AlignTo(val, align) % align == 0
    ensures AlignTo(val, align) == val + (if val % align == 0 then 0 else align - val % align)
  {
    RoundUp(val, align);
    assert U64(val + align - 1) == val + align - 1;
  }

  lemma RoundUp(val: nat, p: nat)
    requires p > 0
    ensures
      var t := val + p - 1;
      (t - t % p) % p == 0 && t - t % p == val + (if val % p == 0 then 0 else p - val % p)
  {
    var q, r := val / p, val % p;
    assert val == p * q + r;
    if r == 0 {
      RoundDown(p, q, p - 1);
    } else {
      RoundDown(p, q + 1, r - 1);
      assert p * (q + 1) == p * q + p;
    }
  }

  lemma RoundDown(p: nat, q: nat, r: nat)
    requires r < p
    ensures p * q + r - (p * q + r) % p == p * q && (p * q) % p == 0
  {
    ModUnique(p * q + r, p, q, r);
    ModUnique(p * q, p, q, 0);
  }
}
