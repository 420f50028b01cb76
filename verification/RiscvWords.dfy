/**
 RISC-V instruction words and their immediate fields (elf/arch-riscv.cc, the encoders at the top).

 A word is the list of its bits, least significant first, so that a little-endian word in memory is
 the concatenation of its bytes.  Formats are those of section 2.3 of the RISC-V Unprivileged ISA
 manual and of its chapter on the "C" extension.
 */
module RiscvWords {
  import opened Bits

  type Bitlist = seq<bool>
  type Octet = b: Bitlist | |b| == 8 witness [false, false, false, false, false, false, false, false]
  type Half = b: Bitlist | |b| == 16 witness seq(16, _ => false)
  type Word = b: Bitlist | |b| == 32 witness seq(32, _ => false)

  predicate BitOf(v: int, k: nat) {
    v / Pow2(k) % 2 == 1
  }

  /** The low n bits of an integer in two's complement. */
  function ToBits(v: int, n: nat): Bitlist {
    seq(n, k requires 0 <= k < n => BitOf(v, k))
  }

  function Unsigned(b: Bitlist): nat {
    if b == [] then 0 else (if b[0] then 1 else 0) + 2 * Unsigned(b[1..])
  }

  function Signed(b: Bitlist): int {
    Unsigned(b) - if b != [] && b[|b| - 1] then Pow2(|b|) else 0
  }

  lemma ToBitsCons(v: int, n: nat)
    requires n > 0
    ensures ToBits(v, n)[0] == (v % 2 == 1) && ToBits(v, n)[1..] == ToBits(v / 2, n - 1)
  {
    forall k | 0 <= k < n - 1 ensures BitOf(v, k + 1) == BitOf(v / 2, k) {
      HalvedMod(v, Pow2(k));
    }
  }

  lemma {:induction false} UnsignedMod(v: int, n: nat)
    ensures Unsigned(ToBits(v, n)) == v % Pow2(n)
    decreases n
  {
    if n > 0 {
      ToBitsCons(v, n);
      UnsignedMod(v / 2, n - 1);
      HalvedMod(v, Pow2(n - 1));
    }
  }

  lemma {:induction false} UnsignedRange(b: Bitlist)
    ensures Unsigned(b) < Pow2(|b|)
    ensures b != [] ==> (b[|b| - 1] <==> Unsigned(b) >= Pow2(|b| - 1))
  {
    if |b| == 1 {
      assert Unsigned(b[1..]) == 0 && Pow2(1) == 2 * Pow2(0);
    } else if b != [] {
      UnsignedRange(b[1..]);
      assert b[1..][|b| - 2] == b[|b| - 1];
    }
  }

  /** A number that fits n + 1 bits with sign is recovered from them, and no other is. */
  lemma SignedFits(v: int, n: nat)
    ensures Signed(ToBits(v, n + 1)) == v <==> 0 - Pow2(n) <= v < Pow2(n)
  {
    SignedIsRemainder(v, n);
    CentredRemainder(v, Pow2(n));
  }

  /** sign_extend of common/common.h: the low size + 1 bits, read as a signed number. */
  function SignExtend(v: int, size: nat): int {
    (v + Pow2(size)) % (2 * Pow2(size)) - Pow2(size)
  }

  /** It agrees with keeping the bits and reading them back. */
  lemma SignExtendIsSigned(v: int, size: nat)
    ensures SignExtend(v, size) == Signed(ToBits(v, size + 1))
  {
    SignedIsRemainder(v, size);
    HalfTurn(v, Pow2(size));
  }

  lemma HalfTurn(v: int, h: nat)
    requires h > 0
    ensures (v + h) % (2 * h) - h == v % (2 * h) - if v % (2 * h) >= h then 2 * h else 0
  {
    var q, r := v / (2 * h), v % (2 * h);
    assert v == 2 * h * q + r;
    if r >= h {
      assert v + h == 2 * h * (q + 1) + (r - h);
      ModUnique(v + h, 2 * h, q + 1, r - h);
    } else {
      ModUnique(v + h, 2 * h, q, r + h);
    }
  }

  /** A number survives sign extension exactly when it fits. */
  lemma SignExtendFits(v: int, n: nat)
    ensures SignExtend(v, n) == v <==> 0 - Pow2(n) <= v < Pow2(n)
  {
    SignExtendIsSigned(v, n);
    SignedFits(v, n);
  }

  lemma SignedIsRemainder(v: int, n: nat)
    ensures
      var r := v % (2 * Pow2(n));
      Signed(ToBits(v, n + 1)) == r - if r >= Pow2(n) then 2 * Pow2(n) else 0
  {
    var b := ToBits(v, n + 1);
    UnsignedMod(v, n + 1);
    UnsignedRange(b);
    assert Pow2(n + 1) == 2 * Pow2(n);
    assert b[|b| - 1] <==> Unsigned(b) >= Pow2(n);
  }

  lemma CentredRemainder(v: int, h: nat)
    requires h > 0
    ensures v % (2 * h) - (if v % (2 * h) >= h then 2 * h else 0) == v <==> 0 - h <= v < h
  {
    if 0 <= v < h {
      ModUnique(v, 2 * h, 0, v);
    } else if 0 - h <= v < 0 {
      ModUnique(v, 2 * h, -1, v + 2 * h);
    }
  }

  // ---- words in memory, little-endian

  function WordOf(o: seq<Octet>): Word
    requires |o| == 4
  {
    seq(32, k requires 0 <= k < 32 => o[k / 8][k % 8])
  }

  function HalfOf(o: seq<Octet>): Half
    requires |o| == 2
  {
    seq(16, k requires 0 <= k < 16 => o[k / 8][k % 8])
  }

  function Octets(b: Bitlist): (o: seq<Octet>)
    requires |b| % 8 == 0
    ensures |o| == |b| / 8
  {
    seq(|b| / 8, i requires 0 <= i < |b| / 8 => b[8 * i..8 * i + 8])
  }

  lemma OctetsOfWord(w: Word)
    ensures |Octets(w)| == 4 && WordOf(Octets(w)) == w
  {
    var o := Octets(w);
    forall k | 0 <= k < 32 ensures o[k / 8][k % 8] == w[k] {
      assert o[k / 8] == w[8 * (k / 8)..8 * (k / 8) + 8];
    }
    assert WordOf(o) == w;
  }

  lemma OctetsOfHalf(w: Half)
    ensures |Octets(w)| == 2 && HalfOf(Octets(w)) == w
  {
    var o := Octets(w);
    forall k | 0 <= k < 16 ensures o[k / 8][k % 8] == w[k] {
      assert o[k / 8] == w[8 * (k / 8)..8 * (k / 8) + 8];
    }
    assert HalfOf(o) == w;
  }

  // ---- encoders: the bits of `val` go to their places, all other bits of the word stay

  function WriteIType(w: Word, val: Word): Word {
    seq(32, k requires 0 <= k < 32 => if k < 20 then w[k] else val[k - 20])
  }

  function WriteSType(w: Word, val: Word): Word {
    seq(32, k requires 0 <= k < 32 => if 7 <= k < 12 then val[k - 7] else if k < 25 then w[k] else val[k - 20])
  }

  function WriteBType(w: Word, val: Word): Word {
    seq(32, k requires 0 <= k < 32 =>
      if k == 7 then val[11] else if 8 <= k < 12 then val[k - 7]
      else if k < 25 then w[k] else if k < 31 then val[k - 20] else val[12])
  }

  /** Adds 0x800 to make up for the sign of the low part; only the upper 20 bits are used. */
  function UType(val: Word): Word {
    ToBits(Unsigned(val) + 0x800, 32)
  }

  function WriteUType(w: Word, val: Word): Word {
    seq(32, k requires 0 <= k < 32 => if k < 12 then w[k] else UType(val)[k])
  }

  function WriteJType(w: Word, val: Word): Word {
    seq(32, k requires 0 <= k < 32 =>
      if k < 12 then w[k] else if k < 20 then val[k] else if k == 20 then val[11]
      else if k < 31 then val[k - 20] else val[20])
  }

  /** Which bit of the immediate goes to bit k of a CB-type instruction; 0 stands for none. */
  function CBSource(k: nat): (j: nat)
    ensures j <= 8
  {
    match k
    case 2 => 5 case 3 => 1 case 4 => 2 case 5 => 6 case 6 => 7
    case 10 => 3 case 11 => 4 case 12 => 8
    case _ => 0
  }

  function WriteCBType(w: Half, val: Word): Half {
    seq(16, k requires 0 <= k < 16 => if CBSource(k) == 0 then w[k] else val[CBSource(k)])
  }

  function CJSource(k: nat): (j: nat)
    ensures j <= 11
  {
    match k
    case 2 => 5 case 3 => 1 case 4 => 2 case 5 => 3 case 6 => 7
    case 7 => 6 case 8 => 10 case 9 => 8 case 10 => 9 case 11 => 4
    case 12 => 11
    case _ => 0
  }

  function WriteCJType(w: Half, val: Word): Half {
    seq(16, k requires 0 <= k < 16 => if CJSource(k) == 0 then w[k] else val[CJSource(k)])
  }

  function GetRd(w: Word): nat {
    Unsigned(w[7..12])
  }

  // ---- decoders: the immediates as the processor reads them

  function IBits(w: Word): Bitlist {
    seq(12, j requires 0 <= j < 12 => w[j + 20])
  }

  function SBits(w: Word): Bitlist {
    seq(12, j requires 0 <= j < 12 => if j < 5 then w[j + 7] else w[j + 20])
  }

  function BBits(w: Word): Bitlist {
    seq(13, j requires 0 <= j < 13 =>
      if j == 0 then false else if j < 5 then w[j + 7] else if j < 11 then w[j + 20]
      else if j == 11 then w[7] else w[31])
  }

  function JBits(w: Word): Bitlist {
    seq(21, j requires 0 <= j < 21 =>
      if j == 0 then false else if j < 11 then w[j + 20] else if j == 11 then w[20]
      else if j < 20 then w[j] else w[31])
  }

  /** Where the processor finds bit j of the immediate of a CB-type instruction. */
  function CBPlace(j: nat): (k: nat)
    ensures k < 16
  {
    match j
    case 1 => 3 case 2 => 4 case 3 => 10 case 4 => 11 case 5 => 2
    case 6 => 5 case 7 => 6 case 8 => 12 case _ => 0
  }

  function CBBits(w: Half): Bitlist {
    seq(9, j requires 0 <= j < 9 => j > 0 && w[CBPlace(j)])
  }

  function CJPlace(j: nat): (k: nat)
    ensures k < 16
  {
    match j
    case 1 => 3 case 2 => 4 case 3 => 5 case 4 => 11 case 5 => 2 case 6 => 7
    case 7 => 6 case 8 => 9 case 9 => 10 case 10 => 8 case 11 => 12
    case _ => 0
  }

  function CJBits(w: Half): Bitlist {
    seq(12, j requires 0 <= j < 12 => j > 0 && w[CJPlace(j)])
  }

  lemma CBBitsWritten(w: Half, val: Word, j: nat)
    requires 0 < j <= 8
    ensures CBBits(WriteCBType(w, val))[j] == val[j]
  {
  }

  lemma CJBitsWritten(w: Half, val: Word, j: nat)
    requires 0 < j <= 11
    ensures CJBits(WriteCJType(w, val))[j] == val[j]
  {
  }

  function IImm(w: Word): int { Signed(IBits(w)) }

  function SImm(w: Word): int { Signed(SBits(w)) }

  function BImm(w: Word): int { Signed(BBits(w)) }

  function JImm(w: Word): int { Signed(JBits(w)) }

  function CBImm(w: Half): int { Signed(CBBits(w)) }

  function CJImm(w: Half): int { Signed(CJBits(w)) }

  function UImm(w: Word): nat {
    0x1000 * Unsigned(w[12..])
  }

  // ---- decoding inverts encoding on the numbers that fit

  /** Immediate bits that are the low bits of a number read as that number exactly when it fits. */
  lemma ImmediateFits(imm: Bitlist, v: int, n: nat)
    requires |imm| == n + 1 <= 32
    requires forall j :: 0 <= j <= n ==> imm[j] == (if j == 0 then v % 2 == 1 else ToBits(v, 32)[j])
    ensures Signed(imm) == v <==> 0 - Pow2(n) <= v < Pow2(n)
  {
    SignedFits(v, n);
    assert imm == ToBits(v, n + 1);
  }

  lemma JTypeRoundTrip(w: Word, v: int)
    requires v % 2 == 0
    ensures JImm(WriteJType(w, ToBits(v, 32))) == v <==> -0x10_0000 <= v < 0x10_0000
    ensures WriteJType(w, ToBits(v, 32))[..12] == w[..12]
  {
    PowersOfTwo();
    ImmediateFits(JBits(WriteJType(w, ToBits(v, 32))), v, 20);
  }

  lemma BTypeRoundTrip(w: Word, v: int)
    requires v % 2 == 0
    ensures BImm(WriteBType(w, ToBits(v, 32))) == v <==> -0x1000 <= v < 0x1000
    ensures WriteBType(w, ToBits(v, 32))[..7] == w[..7]
    ensures WriteBType(w, ToBits(v, 32))[12..25] == w[12..25]
  {
    PowersOfTwo();
    ImmediateFits(BBits(WriteBType(w, ToBits(v, 32))), v, 12);
  }

  lemma CJTypeRoundTrip(w: Half, v: int)
    requires v % 2 == 0
    ensures CJImm(WriteCJType(w, ToBits(v, 32))) == v <==> -0x800 <= v < 0x800
    ensures WriteCJType(w, ToBits(v, 32))[..2] == w[..2]
    ensures WriteCJType(w, ToBits(v, 32))[13..] == w[13..]
  {
    PowersOfTwo();
    var imm := CJBits(WriteCJType(w, ToBits(v, 32)));
    forall j: nat | 0 < j <= 11 ensures imm[j] == ToBits(v, 32)[j] {
      CJBitsWritten(w, ToBits(v, 32), j);
    }
    ImmediateFits(imm, v, 11);
  }

  lemma CBTypeRoundTrip(w: Half, v: int)
    requires v % 2 == 0
    ensures CBImm(WriteCBType(w, ToBits(v, 32))) == v <==> -0x100 <= v < 0x100
    ensures WriteCBType(w, ToBits(v, 32))[..2] == w[..2]
    ensures WriteCBType(w, ToBits(v, 32))[7..10] == w[7..10]
    ensures WriteCBType(w, ToBits(v, 32))[13..] == w[13..]
  {
    PowersOfTwo();
    var imm := CBBits(WriteCBType(w, ToBits(v, 32)));
    forall j: nat | 0 < j <= 8 ensures imm[j] == ToBits(v, 32)[j] {
      CBBitsWritten(w, ToBits(v, 32), j);
    }
    ImmediateFits(imm, v, 8);
  }

  /** The signed low twelve bits of a number. */
  function Low12(v: int): int {
    (v + 0x800) % 0x1000 - 0x800
  }

  lemma Low12Bits(imm: Bitlist, v: int)
    requires |imm| == 12 && forall j :: 0 <= j < 12 ==> imm[j] == ToBits(v, 32)[j]
    ensures Signed(imm) == Low12(v)
  {
    assert imm == ToBits(v, 12);
    SignedIsRemainder(v, 11);
    PowersOfTwo();
    Low12Formula(v);
  }

  lemma Low12Formula(v: int)
    ensures v % 0x1000 - (if v % 0x1000 >= 0x800 then 0x1000 else 0) == Low12(v)
  {
    HalfTurn(v, 0x800);
  }

  lemma ITypeLow(w: Word, v: int)
    ensures IImm(WriteIType(w, ToBits(v, 32))) == Low12(v)
    ensures WriteIType(w, ToBits(v, 32))[..20] == w[..20]
  {
    Low12Bits(IBits(WriteIType(w, ToBits(v, 32))), v);
  }

  lemma STypeLow(w: Word, v: int)
    ensures SImm(WriteSType(w, ToBits(v, 32))) == Low12(v)
    ensures WriteSType(w, ToBits(v, 32))[..7] == w[..7]
    ensures WriteSType(w, ToBits(v, 32))[12..25] == w[12..25]
  {
    Low12Bits(SBits(WriteSType(w, ToBits(v, 32))), v);
  }

  /** The upper part as the processor sees it: rounded to the nearest multiple of 0x1000. */
  lemma UTypeHigh(w: Word, v: int)
    ensures UImm(WriteUType(w, ToBits(v, 32))) == (v - Low12(v)) % 0x1_0000_0000
    ensures WriteUType(w, ToBits(v, 32))[..12] == w[..12]
  {
    var x := WriteUType(w, ToBits(v, 32));
    var u := Unsigned(ToBits(v, 32)) + 0x800;
    UnsignedMod(v, 32);
    PowersOfTwo();
    DropBits(u, 32, 12);
    var y := UType(ToBits(v, 32));
    assert y == ToBits(u, 32);
    assert forall k :: 12 <= k < 32 ==> x[k] == y[k];
    assert x[12..] == y[12..];
    UnsignedMod(u / 0x1000, 20);
    Rounding(v);
  }

  lemma Rounding(v: int)
    ensures 0x1000 * ((v % 0x1_0000_0000 + 0x800) / 0x1000 % 0x10_0000) == (v - Low12(v)) % 0x1_0000_0000
  {
    var q, h := v / 0x1_0000_0000, (v + 0x800) / 0x1000;
    assert v % 0x1_0000_0000 + 0x800 == v + 0x800 - 0x1_0000_0000 * q;
    assert (v % 0x1_0000_0000 + 0x800) / 0x1000 == h - 0x10_0000 * q;
    ModUnique(h - 0x10_0000 * q, 0x10_0000, h / 0x10_0000 - q, h % 0x10_0000);
    assert v - Low12(v) == 0x1000 * h;
    ModUnique(0x1000 * h, 0x1_0000_0000, h / 0x10_0000, 0x1000 * (h % 0x10_0000));
  }

  lemma {:induction false} DropBits(v: int, n: nat, k: nat)
    requires k <= n
    ensures ToBits(v, n)[k..] == ToBits(v / Pow2(k), n - k)
    decreases k
  {
    if k > 0 {
      ToBitsCons(v, n);
      DropBits(v / 2, n - 1, k - 1);
      assert ToBits(v, n)[k..] == ToBits(v, n)[1..][k - 1..];
      HalvedMod(v, Pow2(k - 1));
    }
  }

  /** An upper and a lower part made from one number add up to it again. */
  lemma HighAndLow(v: int)
    ensures ((v - Low12(v)) % 0x1_0000_0000 + Low12(v)) % 0x1_0000_0000 == v % 0x1_0000_0000
  {
  }

  // ---- set_rs1

  /** Puts a register into the rs1 field.  The mask of the source is one digit short and clears bit 31. */
  function SetRs1(w: Word, rs1: nat): Word {
    seq(32, k requires 0 <= k < 32 =>
      if k == 31 then false else if 15 <= k < 20 then BitOf(rs1, k - 15) else w[k])
  }

  lemma ClearedSign(b: Bitlist, c: Bitlist)
    requires |b| == |c| == 12 && !c[11] && forall j :: 0 <= j < 11 ==> c[j] == b[j]
    ensures Signed(c) == Signed(b) <==> Signed(b) >= 0
  {
    UnsignedRange(b);
    if !b[11] {
      assert b == c;
    }
  }

  /** Rewriting the base register keeps the immediate just written exactly when it is not negative. */
  lemma SetRs1KeepsNonNegative(w: Word, v: int, rs1: nat)
    ensures IImm(SetRs1(WriteIType(w, ToBits(v, 32)), rs1)) == Low12(v) <==> Low12(v) >= 0
    ensures SImm(SetRs1(WriteSType(w, ToBits(v, 32)), rs1)) == Low12(v) <==> Low12(v) >= 0
  {
    ITypeLow(w, v);
    STypeLow(w, v);
    var x, y := WriteIType(w, ToBits(v, 32)), WriteSType(w, ToBits(v, 32));
    ClearedSign(IBits(x), IBits(SetRs1(x, rs1)));
    ClearedSign(SBits(y), SBits(SetRs1(y, rs1)));
  }

  lemma PowersOfTwo()
    ensures Pow2(8) == 0x100 && Pow2(11) == 0x800 && Pow2(12) == 0x1000
    ensures Pow2(20) == 0x10_0000 && Pow2(32) == 0x1_0000_0000
  {
  }
}
