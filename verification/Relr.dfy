/**
 Packed relative relocations (encode_relr in elf/output-chunks.cc; the SHT_RELR format of the ELF
 generic ABI).

 An even entry is the address of a word; an odd one is a bitmap of the words that follow the last
 ones described.
 */
module Relr {
  import opened Bits

  predicate WordSize(w: nat) {
    w == 4 || w == 8
  }

  function BitmapSize(w: nat): nat {
    8 * w - (if w > 0 then 1 else 0)
  }

  // ---- what the loader reads

  /** The words a bitmap stands for, from the word at `base` on. */
  function SetBits(bits: nat, base: nat, w: nat, n: nat): seq<nat>
    decreases n
  {
    if n == 0 then []
    else (if bits % 2 == 1 then [base] else []) + SetBits(bits / 2, base + w, w, n - 1)
  }

  /** The first word that has not been described. */
  function After(vec: seq<nat>, w: nat): nat {
    if vec == [] then 0
    else
      var init, e := vec[..|vec| - 1], vec[|vec| - 1];
      if e % 2 == 0 then e + w else After(init, w) + BitmapSize(w) * w
  }

  function Decode(vec: seq<nat>, w: nat): seq<nat> {
    if vec == [] then []
    else
      var init, e := vec[..|vec| - 1], vec[|vec| - 1];
      Decode(init, w) + if e % 2 == 0 then [e] else SetBits(e / 2, After(init, w), w, BitmapSize(w))
  }

  lemma DecodeBitmap(vec: seq<nat>, w: nat, bits: nat)
    ensures Decode(vec + [2 * bits + 1], w) == Decode(vec, w) + SetBits(bits, After(vec, w), w, BitmapSize(w))
    ensures After(vec + [2 * bits + 1], w) == After(vec, w) + BitmapSize(w) * w
  {
    assert (vec + [2 * bits + 1])[..|vec|] == vec;
    assert (2 * bits + 1) / 2 == bits && (2 * bits + 1) % 2 == 1;
  }

  lemma {:induction false} NoBits(base: nat, w: nat, n: nat)
    ensures SetBits(0, base, w, n) == []
    decreases n
  {
    if n > 0 {
      NoBits(base + w, w, n - 1);
    }
  }

  /** Setting a bit above all others adds its word at the end. */
  lemma {:induction false} AddBit(bits: nat, base: nat, w: nat, n: nat, k: nat)
    requires k < n && bits < Pow2(k)
    ensures SetBits(bits + Pow2(k), base, w, n) == SetBits(bits, base, w, n) + [base + k * w]
    decreases n
  {
    if k == 0 {
      NoBits(base + w, w, n - 1);
      assert (bits + Pow2(0)) / 2 == 0;
    } else {
      AddBit(bits / 2, base + w, w, n - 1, k - 1);
      assert base + w + (k - 1) * w == base + k * w by {
        assert (k - 1) * w + w == k * w;
      }
    }
  }

  // ---- the encoder

  /** Addresses of words, in order, that fit a word themselves. */
  ghost predicate Sorted(pos: seq<nat>, w: nat) {
    WordSize(w) && (forall i :: 0 <= i < |pos| ==> Aligned(pos[i], w) && pos[i] < Pow2(8 * w)) &&
    forall i, j :: 0 <= i < j < |pos| ==> pos[i] < pos[j]
  }

  predicate Aligned(x: nat, w: nat)
    requires w > 0
  {
    x % w == 0
  }

  lemma AlignedGap(x: nat, y: nat, w: nat)
    requires WordSize(w) && Aligned(x, w) && Aligned(y, w) && x < y
    ensures x + w <= y
  {
    var a, b := x / w, y / w;
    assert x == w * a && y == w * b && w * (b - a) == y - x;
    MulGrows(w, b - a);
  }

  ghost predicate AllFit(vec: seq<nat>, w: nat) {
    forall k :: 0 <= k < |vec| ==> vec[k] < Pow2(8 * w)
  }

  /** The words from i0 to i are those of the bitmap, and no bit from position `next` on is set. */
  ghost predicate Bitmap(pos: seq<nat>, w: nat, base: nat, i0: nat, i: nat, bits: nat, next: nat) {
    i0 <= i <= |pos| && next <= BitmapSize(w) && bits < Pow2(next) && (bits == 0 <==> i == i0) &&
    SetBits(bits, base, w, BitmapSize(w)) == pos[i0..i] &&
    (i < |pos| ==> base + next * w <= pos[i])
  }

  /** The bit of a word is its distance from the base in words. */
  lemma IndexOf(x: nat, base: nat, w: nat, next: nat) returns (k: nat)
    requires WordSize(w) && Aligned(x, w) && Aligned(base, w) && base + next * w <= x
    requires x - base < BitmapSize(w) * w
    ensures k == (x - base) / w && x == base + k * w && next <= k < BitmapSize(w)
  {
    k := WordsBetween(x, base, w);
  }

  lemma WordsBetween(x: nat, base: nat, w: nat) returns (k: nat)
    requires w > 0 && Aligned(x, w) && Aligned(base, w) && base <= x
    ensures k == (x - base) / w && x == base + k * w
  {
    var a, b := x / w, base / w;
    assert x == w * a && base == w * b && x - base == w * (a - b);
    k := (x - base) / w;
    ModUnique(x - base, w, a - b, 0);
  }

  lemma BitmapStep(pos: seq<nat>, w: nat, base: nat, i0: nat, i: nat, bits: nat, next: nat)
    requires Sorted(pos, w) && Aligned(base, w) && Bitmap(pos, w, base, i0, i, bits, next)
    requires i < |pos| && pos[i] - base < BitmapSize(w) * w
    ensures
      var k := (pos[i] - base) / w;
      next <= k && Bitmap(pos, w, base, i0, i + 1, bits + Pow2(k), k + 1)
  {
    var k := IndexOf(pos[i], base, w, next);
    BitmapAdd(pos, w, base, i0, i, bits, next, k);
  }

  lemma BitmapAdd(pos: seq<nat>, w: nat, base: nat, i0: nat, i: nat, bits: nat, next: nat, k: nat)
    requires Sorted(pos, w) && Bitmap(pos, w, base, i0, i, bits, next)
    requires i < |pos| && pos[i] == base + k * w && next <= k < BitmapSize(w)
    ensures Bitmap(pos, w, base, i0, i + 1, bits + Pow2(k), k + 1)
  {
    BitIsAbove(bits, next, k);
    AddBit(bits, base, w, BitmapSize(w), k);
    assert pos[i0..i + 1] == pos[i0..i] + [pos[i]];
    if i + 1 < |pos| {
      AlignedGap(pos[i], pos[i + 1], w);
      NextIndex(k, w);
    }
  }

  lemma BitIsAbove(bits: nat, next: nat, k: nat)
    requires bits < Pow2(next) && next <= k
    ensures bits < Pow2(k) && 0 < bits + Pow2(k) < Pow2(k + 1)
  {
    Pow2Divides(next, k);
  }

  lemma NextIndex(k: nat, w: nat)
    ensures (k + 1) * w == k * w + w
  {
  }

  /** Sets the bit of word i. */
  method AddWord(pos: seq<nat>, w: nat, base: nat, i0: nat, i: nat, bits: nat, ghost next: nat)
    returns (bits': nat, ghost next': nat)
    requires Sorted(pos, w) && Aligned(base, w) && Bitmap(pos, w, base, i0, i, bits, next)
    requires i < |pos| && pos[i] - base < BitmapSize(w) * w
    ensures bits' == bits + Pow2((pos[i] - base) / w)
    ensures Bitmap(pos, w, base, i0, i + 1, bits', next')
  {
    BitmapStep(pos, w, base, i0, i, bits, next);
    var k := (pos[i] - base) / w;
    bits', next' := bits + Pow2(k), k + 1;
  }

  /** The innermost loop: one bitmap. */
  method FillBitmap(pos: seq<nat>, w: nat, base: nat, i0: nat) returns (bits: nat, i: nat)
    requires Sorted(pos, w) && Aligned(base, w) && i0 <= |pos| && (i0 < |pos| ==> base <= pos[i0])
    ensures i0 <= i <= |pos| && bits < Pow2(BitmapSize(w)) && (bits == 0 <==> i == i0)
    ensures SetBits(bits, base, w, BitmapSize(w)) == pos[i0..i]
    ensures i < |pos| ==> base + BitmapSize(w) * w <= pos[i]
  {
    bits, i := 0, i0;
    ghost var next: nat := 0;
    EmptyBitmap(pos, w, base, i0);
    while i < |pos| && pos[i] - base < BitmapSize(w) * w
      invariant Bitmap(pos, w, base, i0, i, bits, next)
      decreases |pos| - i
    {
      bits, next := AddWord(pos, w, base, i0, i, bits, next);
      i := i + 1;
    }
    BitmapDone(pos, w, base, i0, i, bits, next);
  }

  lemma BitmapDone(pos: seq<nat>, w: nat, base: nat, i0: nat, i: nat, bits: nat, next: nat)
    requires Sorted(pos, w) && Bitmap(pos, w, base, i0, i, bits, next)
    requires i < |pos| ==> pos[i] - base >= BitmapSize(w) * w
    ensures i0 <= i <= |pos| && bits < Pow2(BitmapSize(w)) && (bits == 0 <==> i == i0)
    ensures SetBits(bits, base, w, BitmapSize(w)) == pos[i0..i]
    ensures i < |pos| ==> base + BitmapSize(w) * w <= pos[i]
  {
    BitmapIsSmall(bits, next, BitmapSize(w));
  }

  lemma EmptyBitmap(pos: seq<nat>, w: nat, base: nat, i0: nat)
    requires i0 <= |pos| && (i0 < |pos| ==> base <= pos[i0])
    ensures Bitmap(pos, w, base, i0, i0, 0, 0)
  {
    NoBits(base, w, BitmapSize(w));
    assert pos[i0..i0] == [];
  }

  lemma BitmapIsSmall(bits: nat, next: nat, n: nat)
    requires next <= n && bits < Pow2(next)
    ensures bits < Pow2(n)
  {
    Pow2Divides(next, n);
  }

  /** How far the encoder has come. */
  ghost predicate Encoded(pos: seq<nat>, w: nat, i: nat, vec: seq<nat>, base: nat)
    requires w > 0
  {
    i <= |pos| && Decode(vec, w) == pos[..i] && AllFit(vec, w) && After(vec, w) == base && Aligned(base, w) &&
    (i < |pos| ==> base <= pos[i])
  }

  lemma AddressStep(pos: seq<nat>, w: nat, i: nat, vec: seq<nat>)
    requires Sorted(pos, w) && i < |pos| && Decode(vec, w) == pos[..i] && AllFit(vec, w)
    ensures Encoded(pos, w, i + 1, vec + [pos[i]], pos[i] + w)
  {
    EvenAddress(pos[i], w);
    assert pos[..i + 1] == pos[..i] + [pos[i]];
    if i + 1 < |pos| {
      AlignedGap(pos[i], pos[i + 1], w);
    }
  }

  lemma EvenAddress(x: nat, w: nat)
    requires WordSize(w) && Aligned(x, w)
    ensures x % 2 == 0 && Aligned(x + w, w) && Aligned(x + BitmapSize(w) * w, w)
  {
    var q := x / w;
    assert x == w * q && w == 2 * (w / 2);
    assert x == 2 * (w / 2 * q);
    ModUnique(x, 2, w / 2 * q, 0);
    Shifted(x, w, q, 1);
    Shifted(x, w, q, BitmapSize(w));
  }

  lemma Shifted(x: nat, w: nat, q: nat, n: nat)
    requires w > 0 && x == w * q
    ensures Aligned(x + n * w, w)
  {
    assert x + n * w == w * (q + n);
    ModUnique(x + n * w, w, q + n, 0);
  }

  lemma BitmapEntry(pos: seq<nat>, w: nat, i0: nat, i: nat, vec: seq<nat>, base: nat, bits: nat)
    requires Sorted(pos, w) && Encoded(pos, w, i0, vec, base) && i0 <= i <= |pos| && bits < Pow2(BitmapSize(w))
    requires SetBits(bits, base, w, BitmapSize(w)) == pos[i0..i]
    requires i < |pos| ==> base + BitmapSize(w) * w <= pos[i]
    ensures Encoded(pos, w, i, vec + [2 * bits + 1], base + BitmapSize(w) * w)
  {
    EvenAddress(base, w);
    DecodeBitmap(vec, w, bits);
    assert pos[..i] == pos[..i0] + pos[i0..i];
    BitmapFits(vec, w, bits);
  }

  lemma BitmapFits(vec: seq<nat>, w: nat, bits: nat)
    requires w > 0 && AllFit(vec, w) && bits < Pow2(BitmapSize(w))
    ensures AllFit(vec + [2 * bits + 1], w)
  {
    assert Pow2(8 * w) == 2 * Pow2(BitmapSize(w));
  }

  /**
   encode_relr.  What the loader decodes is exactly the list that was encoded, and every entry fits a word.
   */
  method EncodeRelr(pos: seq<nat>, w: nat) returns (vec: seq<nat>)
    requires Sorted(pos, w)
    ensures Decode(vec, w) == pos
    ensures AllFit(vec, w)
  {
    vec := [];
    var i: nat := 0;
    while i < |pos|
      invariant i <= |pos| && Decode(vec, w) == pos[..i] && AllFit(vec, w)
      decreases |pos| - i
    {
      AddressStep(pos, w, i, vec);
      vec := vec + [pos[i]];
      var base := pos[i] + w;
      i := i + 1;
      vec, i := EncodeBitmaps(pos, w, i, vec, base);
    }
    assert pos[..|pos|] == pos;
  }

  /** Bitmaps as long as they have any bits. */
  method EncodeBitmaps(pos: seq<nat>, w: nat, i0: nat, vec0: seq<nat>, base0: nat) returns (vec: seq<nat>, i: nat)
    requires Sorted(pos, w) && Encoded(pos, w, i0, vec0, base0)
    ensures i0 <= i <= |pos| && Decode(vec, w) == pos[..i] && AllFit(vec, w)
  {
    vec, i := vec0, i0;
    var base: nat := base0;
    while true
      invariant i0 <= i && Encoded(pos, w, i, vec, base)
      decreases |pos| - i
    {
      var bits, next := FillBitmap(pos, w, base, i);
      if bits == 0 {
        return;
      }
      BitmapEntry(pos, w, i, next, vec, base, bits);
      vec, i, base := vec + [2 * bits + 1], next, base + BitmapSize(w) * w;
    }
  }
}
