/**
 RISC-V linker relaxation (elf/arch-riscv.cc): deciding which bytes to delete, moving symbols, and
 copying what is left.
 */
module RiscvRelax {
  import opened Bits
  import opened RiscvWords
  import opened ByteMap

  datatype Kind =
    | NONE | RELAX | ALIGN | CALL | HI20 | LO12_I | LO12_S | TPREL_HI20 | TPREL_ADD | TPREL_LO12_I | TPREL_LO12_S
    | JAL | BRANCH | RVC_BRANCH | RVC_JUMP
    | PCREL_HI20 | GOT_HI20 | TLS_GOT_HI20 | TLS_GD_HI20 | PCREL_LO12_I | PCREL_LO12_S

  datatype Rel = Rel(offset: nat, kind: Kind, addend: int, sym: nat) {
    /** How many bytes of the section the relocation is about. */
    function Extent(): int {
      match kind
      case NONE => 0
      case RELAX => 0
      case ALIGN => addend
      case CALL => 8
      case RVC_BRANCH => 2
      case RVC_JUMP => 2
      case _ => 4
    }
  }

  /** The layout and the symbol addresses before relaxation, and the options that matter. */
  datatype Env = Env(
    addr: nat, p2align: nat, relax: bool, useRvc: bool, is64: bool, tpAddr: int,
    symAddr: seq<int>, far: seq<bool>, synthesized: seq<bool>)
  {
    /** The unit instructions are aligned to. */
    function Grain(): nat {
      if useRvc then 2 else 4
    }

    predicate Whole(x: int) {
      if useRvc then x % 2 == 0 else x % 4 == 0
    }
  }

  const INT32_MAX := 0x7fff_ffff

  /** Absolute and undefined weak symbols count as out of reach. */
  function Distance(env: Env, r: Rel): int
    requires r.sym < |env.symAddr| == |env.far|
  {
    if env.far[r.sym] then INT32_MAX else env.symAddr[r.sym] + r.addend - (env.addr + r.offset)
  }

  /** The number of padding bytes an alignment directive gives up. */
  function AlignSlack(loc: nat, addend: nat): int {
    loc + addend - AlignTo(loc, BitCeil(addend + 1))
  }

  predicate Even(x: int) {
    x % 2 == 0
  }

  function CallSlack(env: Env, dist: int, rd: nat): (n: nat)
    ensures n in {0, 4} || (n == 6 && env.useRvc && rd in {0, 1})
  {
    if dist % 2 == 1 then 0
    else if rd == 0 && SignExtend(dist, 11) == dist && env.useRvc then 6
    else if rd == 1 && SignExtend(dist, 11) == dist && env.useRvc && !env.is64 then 6
    else if SignExtend(dist, 20) == dist then 4
    else 0
  }

  function WordAt(buf: seq<Octet>, p: nat): Word
    requires p + 4 <= |buf|
  {
    WordOf(buf[p..p + 4])
  }

  ghost predicate RelInRange(env: Env, size: nat, r: Rel) {
    r.sym < |env.symAddr| && r.Extent() >= 0 && r.offset + r.Extent() <= size
  }

  ghost predicate InRange(env: Env, contents: seq<Octet>, rels: seq<Rel>) {
    |env.symAddr| == |env.far| == |env.synthesized| &&
    forall i :: 0 <= i < |rels| ==> RelInRange(env, |contents|, rels[i])
  }

  /** The padding given up at an alignment directive after `delta` bytes have been deleted. */
  function AlignRemoval(env: Env, r: Rel, delta: int): int
    requires r.addend >= 0
  {
    AlignSlack(U64(env.addr + r.offset - delta), r.addend)
  }

  function HiSlack(val: int): nat {
    if SignExtend(val, 11) == val then 4 else 0
  }

  /** What relaxing a call saves. */
  function CallAmount(env: Env, contents: seq<Octet>, r: Rel): (n: nat)
    requires |env.symAddr| == |env.far| && RelInRange(env, |contents|, r) && r.kind == CALL
    ensures n in {0, 4} || (n == 6 && env.useRvc && CallRd(contents, r) in {0, 1})
  {
    CallSlack(env, Distance(env, r), CallRd(contents, r))
  }

  /** The register a call links to, read from its JALR. */
  function CallRd(contents: seq<Octet>, r: Rel): nat
    requires r.offset + 8 <= |contents|
  {
    GetRd(WordAt(contents, r.offset + 4))
  }

  /** What an optional relaxation deletes. */
  function OptionalSlack(env: Env, contents: seq<Octet>, r: Rel): (n: nat)
    requires |env.symAddr| == |env.far| && RelInRange(env, |contents|, r)
    ensures n <= r.Extent() && (n in {0, 4} || (n == 6 && env.useRvc))
  {
    if r.kind == CALL then CallAmount(env, contents, r)
    else if r.kind == HI20 then HiSlack(env.symAddr[r.sym] + r.addend)
    else if r.kind == TPREL_HI20 || r.kind == TPREL_ADD then HiSlack(env.symAddr[r.sym] + r.addend - env.tpAddr)
    else 0
  }

  /** The bytes deleted at relocation i when `delta` bytes have been deleted before it. */
  function Removed(env: Env, contents: seq<Octet>, rels: seq<Rel>, i: nat, delta: int): int
    requires InRange(env, contents, rels) && i < |rels|
  {
    var r := rels[i];
    if r.kind == ALIGN then AlignRemoval(env, r, delta)
    else if !env.relax || i == |rels| - 1 || rels[i + 1].kind != RELAX then 0
    else if env.synthesized[r.sym] then 0
    else OptionalSlack(env, contents, r)
  }

  /** Instructions are aligned, and so is padding; an alignment never exceeds that of the section. */
  ghost predicate RelAligned(env: Env, r: Rel) {
    r.Extent() > 0 ==>
      env.Whole(r.offset) &&
      (r.kind == ALIGN ==> r.addend + env.Grain() == BitCeil(r.addend + 1) <= Pow2(env.p2align))
  }

  /** Sorted, and no two relocations are about the same bytes. */
  ghost predicate Separate(rels: seq<Rel>) {
    (forall i, j :: 0 <= i < j < |rels| ==> rels[i].offset <= rels[j].offset) &&
    (forall i, j :: 0 <= i < j < |rels| && rels[i].Extent() > 0 && rels[j].Extent() > 0 ==>
       rels[i].offset + rels[i].Extent() <= rels[j].offset)
  }

  /** A section is placed at a multiple of its alignment, away from the end of the address space. */
  ghost predicate Placed(addr: nat, p2align: nat, size: nat) {
    LowZeros(addr, p2align) && addr + size + Pow2(p2align) <= TWO_64
  }

  /** The assumptions about compiler output. */
  ghost predicate WellFormed(env: Env, contents: seq<Octet>, rels: seq<Rel>) {
    InRange(env, contents, rels) && Separate(rels) && Placed(env.addr, env.p2align, |contents|) &&
    forall i :: 0 <= i < |rels| ==> RelAligned(env, rels[i])
  }

  // ---- alignment directives

  /** The padding given up is between nothing and all of it exactly when the next boundary lies within it. */
  lemma AlignSlackBounds(loc: nat, addend: nat)
    requires loc + BitCeil(addend + 1) <= TWO_64
    ensures
      var alignment := BitCeil(addend + 1);
      alignment > 0 && (loc + addend - AlignSlack(loc, addend)) % alignment == 0 &&
      AlignSlack(loc, addend) <= addend &&
      (0 <= AlignSlack(loc, addend) <==> loc % alignment == 0 || loc % alignment + addend >= alignment)
  {
    BitCeilIsLeast(addend + 1, 0);
    AlignToIsLeast(loc, BitCeil(addend + 1));
  }

  predicate EndsAligned(loc: nat, padding: int, alignment: nat)
    requires alignment > 0
  {
    (loc + padding) % alignment == 0
  }

  /** The padding left is the least that makes what follows aligned. */
  ghost predicate LeastPadding(loc: nat, padding: int, alignment: nat) {
    alignment > 0 && padding >= 0 && EndsAligned(loc, padding, alignment) &&
    forall p :: 0 <= p < padding ==> !EndsAligned(loc, p, alignment)
  }

  lemma RoundsUp(loc: nat, a: nat)
    requires a > 0 && loc + a <= TWO_64
    ensures LeastPadding(loc, AlignTo(loc, a) - loc, a)
  {
    AlignToIsLeast(loc, a);
    forall p | 0 <= p < AlignTo(loc, a) - loc ensures !EndsAligned(loc, p, a) {
      NotAligned(loc, a, p);
    }
  }

  lemma NotAligned(loc: nat, a: nat, p: nat)
    requires a > 0 && 0 < loc % a && loc % a + p < a
    ensures !EndsAligned(loc, p, a)
  {
    ModUnique(loc + p, a, loc / a, loc % a + p);
  }

  lemma AlignSlackIsLargest(loc: nat, addend: nat)
    requires loc + BitCeil(addend + 1) <= TWO_64
    ensures LeastPadding(loc, addend - AlignSlack(loc, addend), BitCeil(addend + 1))
  {
    BitCeilIsLeast(addend + 1, 0);
    RoundsUp(loc, BitCeil(addend + 1));
  }

  lemma PowersDivide(a: nat, g: nat, k: nat)
    requires (g == 2 || g == 4) && a == Pow2(k)
    ensures if a < g then g % a == 0 else a % g == 0
  {
    if k == 0 {
    } else if k == 1 {
      assert Pow2(1) == 2;
    } else {
      Pow2Divides(2, k);
      assert Pow2(2) == 4;
    }
  }

  /** The bytes that a location is above a boundary: none, or at least one unit. */
  lemma AboveBoundary(loc: nat, a: nat, g: nat, k: nat)
    requires (g == 2 || g == 4) && a == Pow2(k) && loc % g == 0
    ensures loc % a == 0 || loc % a >= g
  {
    PowersDivide(a, g, k);
    if a < g {
      var m, n := g / a, loc / g;
      assert loc == g * n && g == a * m;
      assert loc == a * (m * n);
      ModUnique(loc, a, m * n, 0);
    } else {
      GrainOfRemainder(loc, a, g);
    }
  }

  lemma PaddingIsEnough(loc: nat, addend: nat, g: nat)
    requires g == 2 || g == 4
    requires loc % g == 0 && loc + BitCeil(addend + 1) <= TWO_64 && addend + g >= BitCeil(addend + 1)
    ensures 0 <= AlignSlack(loc, addend)
  {
    var k := BitCeilExponent(addend + 1);
    AlignToIsLeast(loc, BitCeil(addend + 1));
    AboveBoundary(loc, BitCeil(addend + 1), g, k);
  }

  lemma PaddingIsShort(addend: nat, g: nat)
    requires g > 0 && addend + g < BitCeil(addend + 1) && g + BitCeil(addend + 1) <= TWO_64
    ensures AlignSlack(g, addend) < 0
  {
    FirstBoundary(g, BitCeil(addend + 1));
  }

  lemma FirstBoundary(g: nat, a: nat)
    requires 0 < g < a && g + a <= TWO_64
    ensures AlignTo(g, a) == a
  {
    AlignToIsLeast(g, a);
    ModUnique(g, a, 0, g);
  }

  predicate MultipleOf(x: nat, g: nat)
    requires g > 0
  {
    x % g == 0
  }

  /**
   Padding of a given length is enough wherever instructions of g bytes end, exactly if it is at most one unit
   short of the alignment.
   */
  lemma PaddingSuffices(addend: nat, g: nat)
    requires g == 2 || g == 4
    requires g + BitCeil(addend + 1) <= TWO_64
    ensures (forall loc: nat :: MultipleOf(loc, g) && loc + BitCeil(addend + 1) <= TWO_64 ==>
               0 <= AlignSlack(loc, addend))
            <==> addend + g >= BitCeil(addend + 1)
  {
    if addend + g >= BitCeil(addend + 1) {
      forall loc: nat | MultipleOf(loc, g) && loc + BitCeil(addend + 1) <= TWO_64
        ensures 0 <= AlignSlack(loc, addend)
      {
        PaddingIsEnough(loc, addend, g);
      }
    } else {
      assert MultipleOf(g, g);
      PaddingIsShort(addend, g);
    }
  }

  /** For padding in whole units, enough means exactly one unit short of the alignment. */
  lemma WholePadding(addend: nat, g: nat)
    requires (g == 2 || g == 4) && addend > 0 && addend % g == 0
    ensures addend + g >= BitCeil(addend + 1) <==> addend + g == BitCeil(addend + 1)
  {
    var a := BitCeil(addend + 1);
    var k := BitCeilExponent(addend + 1);
    PowersDivide(a, g, k);
    var m, n := a / g, addend / g;
    assert addend == g * n;
    if a >= g {
      assert a == g * m && g * (m - n) > 0;
      assert m - n >= 1;
    }
  }

  lemma GrainDivides(g: nat, k: nat)
    requires g == 2 || g == 4
    requires Pow2(k) > g
    ensures Pow2(k) % g == 0
  {
    if k >= 2 {
      Pow2Divides(2, k);
      assert Pow2(k) % 4 == 0;
    }
  }

  lemma AlignedSlack(loc: nat, addend: nat, g: nat)
    requires g == 2 || g == 4
    requires loc % g == 0 && loc + BitCeil(addend + 1) <= TWO_64
    requires addend == 0 || addend + g == BitCeil(addend + 1)
    ensures 0 <= AlignSlack(loc, addend) <= addend && AlignSlack(loc, addend) % g == 0
  {
    var k := BitCeilExponent(addend + 1);
    AlignToIsLeast(loc, BitCeil(addend + 1));
    if addend == 0 {
      assert BitCeil(1) == 1;
    } else {
      GrainDivides(g, k);
      SlackFormula(loc, BitCeil(addend + 1), g);
    }
  }

  lemma SlackFormula(loc: nat, a: nat, g: nat)
    requires g == 2 || g == 4
    requires a > 0 && a % g == 0 && loc % g == 0 && loc + a <= TWO_64
    ensures 0 <= loc + (a - g) - AlignTo(loc, a) <= a - g && (loc + (a - g) - AlignTo(loc, a)) % g == 0
  {
    AlignToIsLeast(loc, a);
    GrainOfRemainder(loc, a, g);
    SlackOfRemainder(loc % a, a, g);
  }

  lemma SlackOfRemainder(r: nat, a: nat, g: nat)
    requires g == 2 || g == 4
    requires r < a && a % g == 0 && r % g == 0
    ensures var s := if r == 0 then a - g else r - g; 0 <= s <= a - g && s % g == 0
  {
    OneLess(a, g);
    if r > 0 {
      OneLess(r, g);
    }
  }

  lemma OneLess(x: nat, g: nat)
    requires g > 0 && x > 0 && x % g == 0
    ensures x >= g && (x - g) % g == 0
  {
    var b := x / g;
    assert x == g * b;
    MulGrows(g, b);
    ModUnique(x - g, g, b - 1, 0);
  }

  lemma GrainOfRemainder(loc: nat, a: nat, g: nat)
    requires g == 2 || g == 4
    requires a > 0 && loc % g == 0 && a % g == 0
    ensures (loc % a) % g == 0
  {
    var q, b, m := loc / a, a / g, loc / g;
    assert loc == g * m && a == g * b;
    assert loc % a == g * m - g * b * q == g * (m - b * q);
    ModUnique(loc % a, g, m - b * q, 0);
  }

  // ---- shrink_section

  /** The running total before relocation i. */
  function Delta(env: Env, contents: seq<Octet>, rels: seq<Rel>, i: nat): int
    requires InRange(env, contents, rels) && i <= |rels|
  {
    if i == 0 then 0
    else Delta(env, contents, rels, i - 1) + Removed(env, contents, rels, i - 1, Delta(env, contents, rels, i - 1))
  }

  /** The CALL case. */
  method ShrinkCall(env: Env, dist: int, rd: nat) returns (removed: int)
    ensures removed == CallSlack(env, dist, rd)
  {
    if dist % 2 == 1 {
      return 0;
    }
    if rd == 0 && SignExtend(dist, 11) == dist && env.useRvc {
      return 6;
    } else if rd == 1 && SignExtend(dist, 11) == dist && env.useRvc && !env.is64 {
      return 6;
    } else if SignExtend(dist, 20) == dist {
      return 4;
    }
    return 0;
  }

  method ShrinkCallAt(env: Env, contents: seq<Octet>, r: Rel) returns (removed: int)
    requires |env.symAddr| == |env.far| && RelInRange(env, |contents|, r) && r.kind == CALL
    ensures removed == CallAmount(env, contents, r)
  {
    var dist, rd := Distance(env, r), CallRd(contents, r);
    removed := ShrinkCall(env, dist, rd);
  }

  /** The switch of shrink_section. */
  method ShrinkOptional(env: Env, contents: seq<Octet>, r: Rel) returns (removed: int)
    requires |env.symAddr| == |env.far| && RelInRange(env, |contents|, r)
    ensures removed == OptionalSlack(env, contents, r)
  {
    if r.kind == CALL {
      removed := ShrinkCallAt(env, contents, r);
    } else if r.kind == HI20 {
      removed := HiSlack(env.symAddr[r.sym] + r.addend);
    } else if r.kind == TPREL_HI20 || r.kind == TPREL_ADD {
      removed := HiSlack(env.symAddr[r.sym] + r.addend - env.tpAddr);
    } else {
      removed := 0;
    }
  }

  /** The amount shrink_section adds to its running total at one relocation. */
  method ShrinkAt(env: Env, contents: seq<Octet>, rels: seq<Rel>, i: nat, delta: int) returns (removed: int)
    requires InRange(env, contents, rels) && i < |rels|
    ensures removed == Removed(env, contents, rels, i, delta)
  {
    var r := rels[i];
    assert RelInRange(env, |contents|, r);
    if r.kind == ALIGN {
      var loc := U64(env.addr + r.offset - delta);
      var nextLoc := loc + r.addend;
      var alignment := BitCeil(r.addend + 1);
      return nextLoc - AlignTo(loc, alignment);
    }
    if !env.relax || i == |rels| - 1 || rels[i + 1].kind != RELAX {
      return 0;
    }
    if env.synthesized[r.sym] {
      return 0;
    }
    removed := ShrinkOptional(env, contents, r);
  }

  /** One iteration of shrink_section: the next running total. */
  method ShrinkStep(env: Env, contents: seq<Octet>, rels: seq<Rel>, i: nat, delta: int) returns (delta': int)
    requires InRange(env, contents, rels) && i < |rels| && delta == Delta(env, contents, rels, i)
    ensures delta' == Delta(env, contents, rels, i + 1)
  {
    var removed := ShrinkAt(env, contents, rels, i, delta);
    delta' := delta + removed;
  }

  ghost predicate IsDeltas(env: Env, contents: seq<Octet>, rels: seq<Rel>, deltas: seq<int>)
    requires InRange(env, contents, rels)
  {
    |deltas| == |rels| + 1 && forall i :: 0 <= i <= |rels| ==> deltas[i] == Delta(env, contents, rels, i)
  }

  /** Fills r_deltas and returns the new section size. */
  method ShrinkSection(env: Env, contents: seq<Octet>, rels: seq<Rel>)
    returns (deltas: array<int>, size: int)
    requires InRange(env, contents, rels)
    ensures fresh(deltas) && IsDeltas(env, contents, rels, deltas[..])
    ensures size == |contents| - Delta(env, contents, rels, |rels|)
  {
    deltas := new int[|rels| + 1];
    var delta := 0;
    for i := 0 to |rels|
      invariant delta == Delta(env, contents, rels, i)
      invariant forall k :: 0 <= k < i ==> deltas[k] == Delta(env, contents, rels, k)
    {
      deltas[i] := delta;
      delta := ShrinkStep(env, contents, rels, i, delta);
    }
    deltas[|rels|] := delta;
    size := |contents| - delta;
  }

  lemma {:induction false} AlignRemoves(env: Env, size: nat, r: Rel, delta: nat)
    requires Placed(env.addr, env.p2align, size) && RelInRange(env, size, r) && RelAligned(env, r)
    requires r.kind == ALIGN && env.Whole(delta) && (r.addend > 0 ==> delta <= r.offset)
    ensures
      var removed := AlignRemoval(env, r, delta);
      0 <= removed <= r.addend && env.Whole(removed)
  {
    var loc := U64(env.addr + r.offset - delta);
    assert AlignRemoval(env, r, delta) == AlignSlack(loc, r.addend);
    if r.addend == 0 {
      NoPadding(loc);
    } else {
      AddrIsWhole(env, r);
      LocIsWhole(env, r.offset, delta);
      AlignedSlack(loc, r.addend, env.Grain());
    }
  }

  lemma LocIsWhole(env: Env, offset: nat, delta: nat)
    requires env.Whole(env.addr) && env.Whole(offset) && env.Whole(delta) && delta <= offset
    requires env.addr + offset < TWO_64
    ensures U64(env.addr + offset - delta) == env.addr + offset - delta
    ensures U64(env.addr + offset - delta) % env.Grain() == 0
  {
    WholeDifference(env, env.addr, offset);
    WholeDifference(env, env.addr + offset, delta);
    assert U64(env.addr + offset - delta) == env.addr + offset - delta;
  }

  /** A section with padding in it is aligned to more than one instruction unit. */
  lemma {:induction false} AddrIsWhole(env: Env, r: Rel)
    requires LowZeros(env.addr, env.p2align) && RelAligned(env, r) && r.kind == ALIGN && r.addend > 0
    ensures env.Whole(env.addr)
  {
    LowZerosIsMultiple(env.addr, env.p2align);
    GrainDivides(env.Grain(), env.p2align);
    MultipleOfMultiple(env.addr, Pow2(env.p2align), env.Grain());
  }

  lemma ModDifference(x: int, y: int, g: nat)
    requires g > 0 && y % g == 0
    ensures (x - y) % g == x % g && (x + y) % g == x % g
  {
    var a, b, r := x / g, y / g, x % g;
    assert x == g * a + r && y == g * b;
    assert x - y == g * (a - b) + r && x + y == g * (a + b) + r;
    ModUnique(x - y, g, a - b, r);
    ModUnique(x + y, g, a + b, r);
  }

  lemma WholeDifference(env: Env, x: int, y: int)
    requires env.Whole(y)
    ensures env.Whole(x - y) <==> env.Whole(x)
    ensures env.Whole(x + y) <==> env.Whole(x)
  {
    if env.useRvc {
      ModDifference(x, y, 2);
    } else {
      ModDifference(x, y, 4);
    }
  }

  lemma NoPadding(loc: nat)
    requires loc < TWO_64
    ensures AlignSlack(loc, 0) == 0
  {
    assert BitCeil(1) == 1;
    AlignToIsLeast(loc, 1);
  }

  /** What is deleted at a relocation is part of what it is about, in whole instruction units. */
  lemma {:induction false} RemovedBounds(env: Env, contents: seq<Octet>, rels: seq<Rel>, i: nat, delta: nat)
    requires WellFormed(env, contents, rels) && i < |rels| && env.Whole(delta)
    requires rels[i].Extent() > 0 ==> delta <= rels[i].offset
    ensures
      var removed := Removed(env, contents, rels, i, delta);
      0 <= removed <= rels[i].Extent() && env.Whole(removed)
  {
    var r := rels[i];
    assert RelInRange(env, |contents|, r);
    if r.kind == ALIGN {
      assert RelAligned(env, r);
      AlignRemoves(env, |contents|, r, delta);
    } else {
      WholeAmount(env, OptionalSlack(env, contents, r));
      WholeAmount(env, 0);
    }
  }

  lemma WholeAmount(env: Env, n: nat)
    requires n in {0, 4} || (n == 6 && env.useRvc)
    ensures env.Whole(n)
  {
  }

  lemma {:induction false} DeltaBounds(env: Env, contents: seq<Octet>, rels: seq<Rel>, i: nat, p: nat)
    requires WellFormed(env, contents, rels) && i <= |rels|
    requires forall j :: 0 <= j < i && rels[j].Extent() > 0 ==> rels[j].offset + rels[j].Extent() <= p
    ensures 0 <= Delta(env, contents, rels, i) <= p && env.Whole(Delta(env, contents, rels, i))
  {
    if i > 0 {
      var j := i - 1;
      DeltaBounds(env, contents, rels, j, if rels[j].Extent() > 0 then rels[j].offset else p);
      DeltaStep(env, contents, rels, j);
    }
  }

  lemma {:induction false} DeltaStep(env: Env, contents: seq<Octet>, rels: seq<Rel>, j: nat)
    requires WellFormed(env, contents, rels) && j < |rels|
    requires Delta(env, contents, rels, j) >= 0 && env.Whole(Delta(env, contents, rels, j))
    requires rels[j].Extent() > 0 ==> Delta(env, contents, rels, j) <= rels[j].offset
    ensures
      var delta, next := Delta(env, contents, rels, j), Delta(env, contents, rels, j + 1);
      delta <= next <= delta + rels[j].Extent() && env.Whole(next)
  {
    var delta := Delta(env, contents, rels, j);
    RemovedBounds(env, contents, rels, j, delta);
    WholeDifference(env, delta, Removed(env, contents, rels, j, delta));
  }

  // ---- padding that is too short

  /** A word with the given bits set. */
  function WordWith(bits: set<nat>): Word {
    seq(32, k requires 0 <= k < 32 => k in bits)
  }

  /** auipc x0, jalr x0 and a nop: a jump followed by padding that was meant for 4-byte instructions. */
  function MixedContents(): (c: seq<Octet>)
    ensures |c| == 12
  {
    Octets(WordWith({0, 1, 2, 4})) + Octets(WordWith({0, 1, 2, 5, 6})) + Octets(WordWith({0, 1, 4}))
  }

  function MixedRels(): seq<Rel> {
    [Rel(0, CALL, 0, 0), Rel(0, RELAX, 0, 0), Rel(8, ALIGN, 4, 0)]
  }

  function MixedEnv(): Env {
    Env(0, 3, true, true, true, 0, [12], [false], [false])
  }

  lemma MixedCall()
    ensures InRange(MixedEnv(), MixedContents(), MixedRels())
    ensures Removed(MixedEnv(), MixedContents(), MixedRels(), 0, 0) == 6
    ensures Removed(MixedEnv(), MixedContents(), MixedRels(), 1, 6) == 0
  {
    MixedRd();
    SignExtendFits(12, 11);
    PowersOfTwo();
  }

  lemma MixedRd()
    ensures CallRd(MixedContents(), MixedRels()[0]) == 0
  {
    var jalr := WordWith({0, 1, 2, 5, 6});
    OctetsOfWord(jalr);
    assert MixedContents()[4..8] == Octets(jalr);
    assert jalr[7..12] == [false, false, false, false, false];
    NoBitsSet();
  }

  lemma NoBitsSet()
    ensures Unsigned([false, false, false, false, false]) == 0
  {
    assert [false, false, false, false, false][1..] == [false, false, false, false];
    assert [false, false, false, false][1..] == [false, false, false];
    assert [false, false, false][1..] == [false, false];
    assert [false, false][1..] == [false];
  }

  lemma MixedAlign()
    ensures AlignRemoval(MixedEnv(), MixedRels()[2], 6) == -2
    ensures BitCeil(5) == 8
  {
    assert BitCeil(5) == 8 by {
      assert BitLength(5) == 3;
    }
    FirstBoundary(2, 8);
  }

  lemma MixedDeltas()
    ensures InRange(MixedEnv(), MixedContents(), MixedRels())
    ensures Delta(MixedEnv(), MixedContents(), MixedRels(), 2) == 6
    ensures Delta(MixedEnv(), MixedContents(), MixedRels(), 3) == 4
  {
    MixedCall();
    MixedAlign();
    assert Delta(MixedEnv(), MixedContents(), MixedRels(), 0) == 0;
    assert Delta(MixedEnv(), MixedContents(), MixedRels(), 1) == 6;
  }

  lemma MixedLayout()
    ensures
      var env, contents, rels := MixedEnv(), MixedContents(), MixedRels();
      Separate(rels) && Placed(env.addr, env.p2align, |contents|) &&
      forall i :: 0 <= i < |rels| ==> env.Whole(rels[i].offset) && env.Whole(rels[i].addend)
  {
    assert Pow2(3) == 8 && LowZeros(0, 3);
  }

  /**
   A section whose padding satisfies everything but that: once the jump before it has become c.j, the padding
   ends two bytes short of a boundary, so a negative number of bytes is removed and the total falls.
   */
  lemma MixedGrainOverruns()
    ensures
      var env, contents, rels := MixedEnv(), MixedContents(), MixedRels();
      InRange(env, contents, rels) && Separate(rels) && Placed(env.addr, env.p2align, |contents|) &&
      (forall i :: 0 <= i < |rels| ==> env.Whole(rels[i].offset) && env.Whole(rels[i].addend)) &&
      rels[2].addend + env.Grain() < BitCeil(rels[2].addend + 1) <= Pow2(env.p2align) &&
      Delta(env, contents, rels, 2) == 6 && Removed(env, contents, rels, 2, 6) == -2 &&
      Delta(env, contents, rels, 3) == 4
  {
    MixedAlign();
    MixedDeltas();
    MixedLayout();
    assert Pow2(3) == 8;
  }

  // ---- the deletions as a byte map

  lemma {:induction false} RemovalAt(env: Env, contents: seq<Octet>, rels: seq<Rel>, i: nat)
    requires WellFormed(env, contents, rels) && i < |rels|
    ensures
      var removed := Removed(env, contents, rels, i, Delta(env, contents, rels, i));
      0 <= removed <= rels[i].Extent() && env.Whole(removed) &&
      Delta(env, contents, rels, i + 1) == Delta(env, contents, rels, i) + removed
  {
    assert RelInRange(env, |contents|, rels[i]);
    forall j | 0 <= j < i && rels[j].Extent() > 0 ensures rels[j].offset + rels[j].Extent() <= |contents| {
      assert RelInRange(env, |contents|, rels[j]);
    }
    DeltaBounds(env, contents, rels, i, if rels[i].Extent() > 0 then rels[i].offset else |contents|);
    RemovedBounds(env, contents, rels, i, Delta(env, contents, rels, i));
  }

  /** The deletion at each relocation. */
  ghost function Cuts(env: Env, contents: seq<Octet>, rels: seq<Rel>): (c: seq<Cut>)
    requires WellFormed(env, contents, rels)
    ensures |c| == |rels|
  {
    seq(|rels|, i requires 0 <= i < |rels| => CutAt(env, contents, rels, i))
  }

  ghost function CutAt(env: Env, contents: seq<Octet>, rels: seq<Rel>, i: nat): (c: Cut)
    requires WellFormed(env, contents, rels) && i < |rels|
    ensures c.offset == rels[i].offset && c.removed <= rels[i].Extent() && env.Whole(c.removed)
    ensures c.removed == Delta(env, contents, rels, i + 1) - Delta(env, contents, rels, i)
  {
    RemovalAt(env, contents, rels, i);
    Cut(rels[i].offset, Removed(env, contents, rels, i, Delta(env, contents, rels, i)))
  }

  lemma {:induction false} CutRemoves(env: Env, contents: seq<Octet>, rels: seq<Rel>, i: nat)
    requires WellFormed(env, contents, rels) && i < |rels|
    ensures Cuts(env, contents, rels)[i].removed == Delta(env, contents, rels, i + 1) - Delta(env, contents, rels, i)
    ensures Cuts(env, contents, rels)[i].removed ==
            Removed(env, contents, rels, i, Delta(env, contents, rels, i))
    ensures Cuts(env, contents, rels)[i].offset == rels[i].offset
  {
    var c := CutAt(env, contents, rels, i);
  }

  lemma {:induction false} DeltaIsTotal(env: Env, contents: seq<Octet>, rels: seq<Rel>, k: nat)
    requires WellFormed(env, contents, rels) && k <= |rels|
    ensures Total(Cuts(env, contents, rels), k) == Delta(env, contents, rels, k)
  {
    if k > 0 {
      DeltaIsTotal(env, contents, rels, k - 1);
      CutRemoves(env, contents, rels, k - 1);
    }
  }

  /** Relaxation deletes disjoint ranges of bytes, and r_deltas counts them. */
  lemma {:induction false} CutsAreDisjoint(env: Env, contents: seq<Octet>, rels: seq<Rel>)
    requires WellFormed(env, contents, rels)
    ensures Disjoint(Cuts(env, contents, rels), |contents|)
    ensures forall k :: 0 <= k <= |rels| ==>
              Total(Cuts(env, contents, rels), k) == Delta(env, contents, rels, k)
    ensures forall j, k :: 0 <= j <= k <= |rels| ==>
              Delta(env, contents, rels, j) <= Delta(env, contents, rels, k)
  {
    forall k | 0 <= k <= |rels| ensures Total(Cuts(env, contents, rels), k) == Delta(env, contents, rels, k) {
      DeltaIsTotal(env, contents, rels, k);
    }
    forall j, k | 0 <= j <= k <= |rels| ensures Delta(env, contents, rels, j) <= Delta(env, contents, rels, k) {
      TotalsRise(Cuts(env, contents, rels), j, k);
    }
  }

  lemma {:induction false} TotalsRise(cuts: seq<Cut>, j: nat, k: nat)
    requires j <= k <= |cuts|
    ensures Total(cuts, j) <= Total(cuts, k)
    decreases k
  {
    if j < k {
      TotalsRise(cuts, j, k - 1);
    }
  }

  // ---- symbols

  method LowerBound(rels: seq<Rel>, value: nat) returns (k: nat)
    requires forall i, j :: 0 <= i < j < |rels| ==> rels[i].offset <= rels[j].offset
    ensures k <= |rels|
    ensures forall i :: 0 <= i < k ==> rels[i].offset < value
    ensures forall i :: k <= i < |rels| ==> rels[i].offset >= value
  {
    var lo, hi := 0, |rels|;
    while lo < hi
      invariant 0 <= lo <= hi <= |rels|
      invariant forall i :: 0 <= i < lo ==> rels[i].offset < value
      invariant forall i :: hi <= i < |rels| ==> rels[i].offset >= value
    {
      var mid := (lo + hi) / 2;
      if rels[mid].offset < value {
        lo := mid + 1;
      } else {
        hi := mid;
      }
    }
    k := lo;
  }

  /** A symbol is moved by the running total at its lower bound. */
  ghost predicate Moved(env: Env, contents: seq<Octet>, rels: seq<Rel>, value: nat, value': int)
    requires WellFormed(env, contents, rels)
  {
    exists k :: IsLowerBound(Cuts(env, contents, rels), value, k) &&
                value' == value - Total(Cuts(env, contents, rels), k)
  }

  /** It ends up at its byte's new position exactly when it does not point strictly inside a deletion. */
  lemma MovedWithItsByte(env: Env, contents: seq<Octet>, rels: seq<Rel>, value: nat, value': int)
    requires WellFormed(env, contents, rels) && Moved(env, contents, rels, value, value')
    ensures value' == NewPos(Cuts(env, contents, rels), value) <==>
            !StrictlyInside(Cuts(env, contents, rels), value)
  {
    var cuts := Cuts(env, contents, rels);
    var k :| IsLowerBound(cuts, value, k) && value' == value - Total(cuts, k);
    CutsAreDisjoint(env, contents, rels);
    LowerBoundAdjusts(cuts, |contents|, value, k);
  }

  /**
   Moves a symbol.  It ends up at its byte's new position, or at the first byte kept after a deletion that
   starts there, exactly when it does not point strictly inside a deletion.
   */
  method FixSymbol(env: Env, contents: seq<Octet>, rels: seq<Rel>, deltas: seq<int>, value: nat)
    returns (value': int)
    requires WellFormed(env, contents, rels) && IsDeltas(env, contents, rels, deltas)
    ensures Moved(env, contents, rels, value, value')
    ensures value' == NewPos(Cuts(env, contents, rels), value) <==>
            !StrictlyInside(Cuts(env, contents, rels), value)
  {
    var k := LowerBound(rels, value);
    value' := value - deltas[k];
    DeltaIsTotal(env, contents, rels, k);
    assert IsLowerBound(Cuts(env, contents, rels), value, k);
    MovedWithItsByte(env, contents, rels, value, value');
  }

  // ---- copy_contents_riscv

  method Memcpy(buf: array<Octet>, at: nat, src: seq<Octet>)
    requires at + |src| <= buf.Length
    modifies buf
    ensures buf[..] == old(buf[..at]) + src + old(buf[at + |src|..])
  {
    for i := 0 to |src|
      invariant buf[..] == old(buf[..at]) + src[..i] + old(buf[at + i..])
    {
      buf[at + i] := src[i];
      assert src[..i + 1] == src[..i] + [src[i]];
    }
    assert src[..|src|] == src;
  }

  /** The deletions before i are behind position pos, the others ahead. */
  ghost predicate Between(cuts: seq<Cut>, i: nat, pos: nat) {
    i <= |cuts| &&
    (forall j :: 0 <= j < i && cuts[j].removed > 0 ==> cuts[j].offset + cuts[j].removed <= pos) &&
    forall j :: i <= j < |cuts| && cuts[j].removed > 0 ==> pos <= cuts[j].offset
  }

  /** How much of the buffer has been written when position pos has been reached. */
  ghost predicate CopiedTo(cuts: seq<Cut>, contents: seq<Octet>, was: seq<Octet>, now: seq<Octet>, pos: nat, at: nat) {
    pos <= |contents| && at == NewPos(cuts, pos) <= |was| && now == Kept(cuts, contents, pos) + was[at..]
  }

  ghost predicate CutsAre(cuts: seq<Cut>, rels: seq<Rel>, deltas: seq<int>) {
    |cuts| == |rels| && |deltas| == |rels| + 1 &&
    forall i :: 0 <= i < |rels| ==>
      cuts[i].offset == rels[i].offset && cuts[i].removed == deltas[i + 1] - deltas[i]
  }

  /** Copies what is between the deletions, piece by piece. */
  method CopyPieces(contents: seq<Octet>, rels: seq<Rel>, deltas: seq<int>, buf: array<Octet>, ghost cuts: seq<Cut>)
    requires CutsAre(cuts, rels, deltas) && Disjoint(cuts, |contents|)
    requires NewPos(cuts, |contents|) <= buf.Length
    modifies buf
    ensures CopiedTo(cuts, contents, old(buf[..]), buf[..], |contents|, NewPos(cuts, |contents|))
  {
    ghost var was := buf[..];
    var pos: nat, at: nat := 0, 0;
    for i := 0 to |rels|
      invariant Between(cuts, i, pos) && CopiedTo(cuts, contents, was, buf[..], pos, at)
    {
      var delta := deltas[i + 1] - deltas[i];
      assert cuts[i].removed == delta && cuts[i].offset == rels[i].offset;
      if delta == 0 {
        continue;
      }
      pos, at := CopyPiece(contents, rels[i].offset, delta, buf, pos, at, cuts, i, was);
    }
    CopyRest(contents, buf, pos, at, cuts, was);
  }

  method CopyRest(contents: seq<Octet>, buf: array<Octet>, pos: nat, at: nat, ghost cuts: seq<Cut>,
                  ghost was: seq<Octet>)
    requires Between(cuts, |cuts|, pos) && CopiedTo(cuts, contents, was, buf[..], pos, at)
    requires NewPos(cuts, |contents|) <= |was|
    modifies buf
    ensures CopiedTo(cuts, contents, was, buf[..], |contents|, NewPos(cuts, |contents|))
  {
    CopyEnd(cuts, contents, was, buf[..], pos, at);
    Memcpy(buf, at, contents[pos..]);
  }

  /** Copies up to the next deletion and skips that. */
  method CopyPiece(contents: seq<Octet>, offset: nat, delta: nat, buf: array<Octet>, pos: nat, at: nat,
                   ghost cuts: seq<Cut>, ghost i: nat, ghost was: seq<Octet>)
    returns (pos': nat, at': nat)
    requires Disjoint(cuts, |contents|) && Between(cuts, i, pos) && CopiedTo(cuts, contents, was, buf[..], pos, at)
    requires i < |cuts| && cuts[i] == Cut(offset, delta) && delta > 0 && NewPos(cuts, |contents|) <= |was|
    modifies buf
    ensures Between(cuts, i + 1, pos') && CopiedTo(cuts, contents, was, buf[..], pos', at')
  {
    CopyStep(cuts, contents, was, buf[..], i, pos, at);
    Memcpy(buf, at, contents[pos..offset]);
    at' := at + (offset - pos);
    pos' := offset + delta;
  }

  /** Between the end of one deletion and the start of the next everything is kept. */
  lemma {:induction false} CopyStep(cuts: seq<Cut>, contents: seq<Octet>, was: seq<Octet>, now: seq<Octet>,
                                    i: nat, pos: nat, at: nat)
    requires Disjoint(cuts, |contents|) && Between(cuts, i, pos) && CopiedTo(cuts, contents, was, now, pos, at)
    requires i < |cuts| && cuts[i].removed > 0 && NewPos(cuts, |contents|) <= |was|
    ensures pos <= cuts[i].offset && at + (cuts[i].offset - pos) <= |now| == |was|
    ensures Between(cuts, i + 1, cuts[i].offset + cuts[i].removed)
    ensures CopiedTo(cuts, contents, was,
                     now[..at] + contents[pos..cuts[i].offset] + now[at + (cuts[i].offset - pos)..],
                     cuts[i].offset + cuts[i].removed, at + (cuts[i].offset - pos))
  {
    var off, next := cuts[i].offset, cuts[i].offset + cuts[i].removed;
    NothingBetween(cuts, i, pos);
    KeptRun(cuts, contents, pos, off);
    forall x | off <= x < next ensures Deleted(cuts, x) {
      assert Inside(cuts[i], x);
    }
    DeletedRun(cuts, contents, off, next);
    Monotone(cuts, next, |contents|);
    Appended(Kept(cuts, contents, pos), was, contents[pos..off]);
    assert |Kept(cuts, contents, next)| == at + (off - pos);
  }

  lemma NothingBetween(cuts: seq<Cut>, i: nat, pos: nat)
    requires Between(cuts, i, pos) && i < |cuts| && cuts[i].removed > 0
    requires forall i, j :: 0 <= i < j < |cuts| ==> cuts[i].offset <= cuts[j].offset
    ensures forall x :: pos <= x < cuts[i].offset ==> !Deleted(cuts, x)
  {
    forall x, j | pos <= x < cuts[i].offset && 0 <= j < |cuts| ensures !Inside(cuts[j], x) {
    }
  }

  /** Writing a piece after what has been written. */
  lemma Appended<T>(done: seq<T>, was: seq<T>, piece: seq<T>)
    requires |done| + |piece| <= |was|
    ensures
      var now := done + was[|done|..];
      now[..|done|] + piece + now[|done| + |piece|..] == (done + piece) + was[|done| + |piece|..]
  {
  }

  lemma CopyEnd(cuts: seq<Cut>, contents: seq<Octet>, was: seq<Octet>, now: seq<Octet>, pos: nat, at: nat)
    requires Between(cuts, |cuts|, pos) && CopiedTo(cuts, contents, was, now, pos, at)
    requires NewPos(cuts, |contents|) <= |was|
    ensures NewPos(cuts, |contents|) == at + (|contents| - pos)
    ensures CopiedTo(cuts, contents, was, now[..at] + contents[pos..] + now[at + (|contents| - pos)..],
                     |contents|, at + (|contents| - pos))
  {
    forall x | pos <= x < |contents| ensures !Deleted(cuts, x) {
    }
    KeptRun(cuts, contents, pos, |contents|);
    assert contents[pos..|contents|] == contents[pos..];
    assert |Kept(cuts, contents, |contents|)| == |Kept(cuts, contents, pos)| + (|contents| - pos);
    Appended(Kept(cuts, contents, pos), was, contents[pos..]);
  }

  /** The new size of the section is what is left after the deletions. */
  lemma {:induction false} NewSize(env: Env, contents: seq<Octet>, rels: seq<Rel>, deltas: seq<int>)
    requires WellFormed(env, contents, rels) && IsDeltas(env, contents, rels, deltas)
    ensures CutsAre(Cuts(env, contents, rels), rels, deltas)
    ensures |contents| - deltas[|rels|] == NewPos(Cuts(env, contents, rels), |contents|)
  {
    var cuts := Cuts(env, contents, rels);
    CutsAreDisjoint(env, contents, rels);
    TotalIsBefore(cuts, |contents|, |rels|, |contents|);
    forall i | 0 <= i < |rels|
      ensures cuts[i].offset == rels[i].offset && cuts[i].removed == deltas[i + 1] - deltas[i]
    {
      CutRemoves(env, contents, rels, i);
    }
  }

  /** Writes exactly the kept bytes, in order, to the start of the buffer. */
  method CopyContents(env: Env, contents: seq<Octet>, rels: seq<Rel>, deltas: seq<int>, buf: array<Octet>)
    requires WellFormed(env, contents, rels) && IsDeltas(env, contents, rels, deltas)
    requires buf.Length >= |contents| - deltas[|rels|]
    modifies buf
    ensures |contents| - deltas[|rels|] == NewPos(Cuts(env, contents, rels), |contents|)
    ensures buf[..] == Kept(Cuts(env, contents, rels), contents, |contents|) +
                       old(buf[..])[|contents| - deltas[|rels|]..]
  {
    NewSize(env, contents, rels, deltas);
    CutsDisjoint(env, contents, rels);
    CopyPieces(contents, rels, deltas, buf, Cuts(env, contents, rels));
  }

  lemma CutsDisjoint(env: Env, contents: seq<Octet>, rels: seq<Rel>)
    requires WellFormed(env, contents, rels)
    ensures Disjoint(Cuts(env, contents, rels), |contents|)
  {
    CutsAreDisjoint(env, contents, rels);
  }

  // ---- what relaxation preserves

  /** The instruction that replaces a call shortened by `removed` bytes can encode the distance. */
  predicate CallFits(removed: int, rd: nat, dist: int) {
    Even(dist) &&
    if removed == 4 then -0x10_0000 <= dist < 0x10_0000
    else removed == 6 && rd in {0, 1} && -0x800 <= dist < 0x800
  }

  /** A distance that relaxation found in reach is in reach of the instruction chosen. */
  lemma CallSlackFits(env: Env, dist: int, rd: nat)
    ensures CallSlack(env, dist, rd) > 0 ==> CallFits(CallSlack(env, dist, rd), rd, dist)
    ensures CallSlack(env, dist, rd) == 6 && rd == 1 ==> !env.is64
  {
    PowersOfTwo();
    SignExtendFits(dist, 11);
    SignExtendFits(dist, 20);
  }

  /** There is an instruction n bytes shorter than a call that reaches the distance on the machine at hand. */
  predicate Encodable(env: Env, n: int, rd: nat, dist: int) {
    CallFits(n, rd, dist) && (n == 6 ==> env.useRvc && (rd == 1 ==> !env.is64))
  }

  /** A call is replaced by the shortest instruction that reaches its target, if there is a shorter one. */
  lemma CallSlackIsLargest(env: Env, dist: int, rd: nat)
    ensures CallSlack(env, dist, rd) == 0 || Encodable(env, CallSlack(env, dist, rd), rd, dist)
    ensures forall n :: Encodable(env, n, rd, dist) ==> n <= CallSlack(env, dist, rd)
  {
    PowersOfTwo();
    SignExtendFits(dist, 11);
    SignExtendFits(dist, 20);
  }

  /** An optional relaxation that the assembler allows: R_RISCV_RELAX follows, and the symbol is not ours. */
  predicate MayRelax(env: Env, rels: seq<Rel>, i: nat)
    requires i < |rels| && rels[i].sym < |env.synthesized|
  {
    env.relax && i + 1 < |rels| && rels[i + 1].kind == RELAX && !env.synthesized[rels[i].sym]
  }

  /** No more can go than `removed` bytes. */
  ghost predicate RemovesMost(env: Env, contents: seq<Octet>, r: Rel, removed: int)
    requires |env.symAddr| == |env.far| && RelInRange(env, |contents|, r)
  {
    match r.kind
    case CALL =>
      (removed == 0 || Encodable(env, removed, CallRd(contents, r), Distance(env, r))) &&
      forall n :: Encodable(env, n, CallRd(contents, r), Distance(env, r)) ==> n <= removed
    case HI20 => removed == if -0x800 <= env.symAddr[r.sym] + r.addend < 0x800 then 4 else 0
    case TPREL_HI20 => removed == if -0x800 <= env.symAddr[r.sym] + r.addend - env.tpAddr < 0x800 then 4 else 0
    case TPREL_ADD => removed == if -0x800 <= env.symAddr[r.sym] + r.addend - env.tpAddr < 0x800 then 4 else 0
    case _ => removed == 0
  }

  lemma OptionalIsLargest(env: Env, contents: seq<Octet>, r: Rel)
    requires |env.symAddr| == |env.far| && RelInRange(env, |contents|, r)
    ensures RemovesMost(env, contents, r, OptionalSlack(env, contents, r))
  {
    PowersOfTwo();
    if r.kind == CALL {
      CallSlackIsLargest(env, Distance(env, r), CallRd(contents, r));
    } else if r.kind == HI20 {
      SignExtendFits(env.symAddr[r.sym] + r.addend, 11);
    } else {
      SignExtendFits(env.symAddr[r.sym] + r.addend - env.tpAddr, 11);
    }
  }

  /** The same for any relocation; padding begins at `loc`. */
  ghost predicate RemovesMostAt(env: Env, contents: seq<Octet>, rels: seq<Rel>, i: nat, loc: nat, removed: int)
    requires InRange(env, contents, rels) && i < |rels| && RelInRange(env, |contents|, rels[i])
  {
    if rels[i].kind == ALIGN then LeastPadding(loc, rels[i].addend - removed, BitCeil(rels[i].addend + 1))
    else if MayRelax(env, rels, i) then RemovesMost(env, contents, rels[i], removed)
    else removed == 0
  }

  lemma {:induction false} RemovedCases(env: Env, contents: seq<Octet>, rels: seq<Rel>, i: nat, delta: int)
    requires InRange(env, contents, rels) && i < |rels| && RelInRange(env, |contents|, rels[i])
    ensures Removed(env, contents, rels, i, delta) ==
            if rels[i].kind == ALIGN then AlignRemoval(env, rels[i], delta)
            else if MayRelax(env, rels, i) then OptionalSlack(env, contents, rels[i])
            else 0
  {
  }

  lemma {:induction false} AlignRemovesMost(env: Env, contents: seq<Octet>, rels: seq<Rel>, i: nat, loc: nat)
    requires InRange(env, contents, rels) && i < |rels| && RelInRange(env, |contents|, rels[i])
    requires rels[i].kind == ALIGN && loc + BitCeil(rels[i].addend + 1) <= TWO_64
    ensures RemovesMostAt(env, contents, rels, i, loc, AlignSlack(loc, rels[i].addend))
  {
    AlignSlackIsLargest(loc, rels[i].addend);
  }

  lemma {:induction false} OptionalRemovesMost(env: Env, contents: seq<Octet>, rels: seq<Rel>, i: nat, loc: nat)
    requires InRange(env, contents, rels) && i < |rels| && RelInRange(env, |contents|, rels[i])
    requires rels[i].kind != ALIGN
    ensures RemovesMostAt(env, contents, rels, i, loc,
                          if MayRelax(env, rels, i) then OptionalSlack(env, contents, rels[i]) else 0)
  {
    OptionalIsLargest(env, contents, rels[i]);
  }

  /**
   What is removed at a relocation is as much as can be: padding is left as short as the alignment allows, and a
   relocation that may be relaxed gets the shortest form that holds its value.  All else stays.
   */
  lemma {:induction false} RemovedIsLargest(env: Env, contents: seq<Octet>, rels: seq<Rel>, i: nat, delta: int)
    requires InRange(env, contents, rels) && i < |rels| && RelInRange(env, |contents|, rels[i])
    requires rels[i].kind == ALIGN ==>
               U64(env.addr + rels[i].offset - delta) + BitCeil(rels[i].addend + 1) <= TWO_64
    ensures RemovesMostAt(env, contents, rels, i, U64(env.addr + rels[i].offset - delta),
                          Removed(env, contents, rels, i, delta))
  {
    RemovedCases(env, contents, rels, i, delta);
    if rels[i].kind == ALIGN {
      AlignRemovesMost(env, contents, rels, i, U64(env.addr + rels[i].offset - delta));
    } else {
      OptionalRemovesMost(env, contents, rels, i, U64(env.addr + rels[i].offset - delta));
    }
  }

  /** A distance becomes no larger, keeps its sign and stays even. */
  predicate Shrinks(dist: int, dist': int) {
    (dist >= 0 ==> 0 <= dist' <= dist) && (dist <= 0 ==> dist <= dist' <= 0) && (Even(dist) ==> Even(dist'))
  }

  /** How far a symbol of the section is from relocation i in the end. */
  ghost function FinalDistance(env: Env, contents: seq<Octet>, rels: seq<Rel>, i: nat, value: nat): int
    requires WellFormed(env, contents, rels) && i < |rels|
  {
    NewPos(Cuts(env, contents, rels), value) - (rels[i].offset - Delta(env, contents, rels, i))
  }

  predicate KeepsReach(removed: nat, rd: nat, dist: int, dist': int) {
    Shrinks(dist, dist') && CallFits(removed, rd, dist')
  }

  /**
   A relaxed call to a symbol of its own section.  Deleting bytes brings the target no further away, does
   not move it to the other side and keeps the distance even, so the shorter instruction
   chosen before still reaches it.
   */
  lemma {:induction false} CallKeepsReach(env: Env, contents: seq<Octet>, rels: seq<Rel>, i: nat, value: nat)
    requires WellFormed(env, contents, rels) && i < |rels| && rels[i].kind == CALL && rels[i].addend == 0
    requires Cuts(env, contents, rels)[i].removed > 0
    requires rels[i].sym < |env.symAddr| && env.symAddr[rels[i].sym] == env.addr + value
    requires !StrictlyInside(Cuts(env, contents, rels), value)
    ensures RelInRange(env, |contents|, rels[i])
    ensures KeepsReach(Cuts(env, contents, rels)[i].removed, CallRd(contents, rels[i]), value - rels[i].offset,
                       FinalDistance(env, contents, rels, i, value))
  {
    FitsBefore(env, contents, rels, i, value);
    CallShrinks(env, contents, rels, i, value);
    var removed, rd := Cuts(env, contents, rels)[i].removed, CallRd(contents, rels[i]);
    var dist, dist' := value - rels[i].offset, FinalDistance(env, contents, rels, i, value);
    assert CallFits(removed, rd, dist) && Shrinks(dist, dist');
    ShrinkingFits(removed, rd, dist, dist');
  }

  lemma {:induction false} FitsBefore(env: Env, contents: seq<Octet>, rels: seq<Rel>, i: nat, value: nat)
    requires WellFormed(env, contents, rels) && i < |rels| && rels[i].kind == CALL && rels[i].addend == 0
    requires Cuts(env, contents, rels)[i].removed > 0
    requires rels[i].sym < |env.symAddr| && env.symAddr[rels[i].sym] == env.addr + value
    ensures RelInRange(env, |contents|, rels[i])
    ensures CallFits(Cuts(env, contents, rels)[i].removed, CallRd(contents, rels[i]), value - rels[i].offset)
  {
    CallCut(env, contents, rels, i);
    RelaxedCallFits(env, contents, rels[i], value);
  }

  lemma ShrinkingFits(removed: nat, rd: nat, dist: int, dist': int)
    requires CallFits(removed, rd, dist) && Shrinks(dist, dist')
    ensures KeepsReach(removed, rd, dist, dist')
  {
  }

  lemma {:induction false} CallCut(env: Env, contents: seq<Octet>, rels: seq<Rel>, i: nat)
    requires WellFormed(env, contents, rels) && i < |rels| && rels[i].kind == CALL
    requires Cuts(env, contents, rels)[i].removed > 0
    ensures RelInRange(env, |contents|, rels[i])
    ensures Cuts(env, contents, rels)[i].removed == CallAmount(env, contents, rels[i])
  {
    CutRemoves(env, contents, rels, i);
    assert RelInRange(env, |contents|, rels[i]);
    RemovedCases(env, contents, rels, i, Delta(env, contents, rels, i));
  }

  lemma {:induction false} CallShrinks(env: Env, contents: seq<Octet>, rels: seq<Rel>, i: nat, value: nat)
    requires WellFormed(env, contents, rels) && i < |rels| && !StrictlyInside(Cuts(env, contents, rels), value)
    requires Cuts(env, contents, rels)[i].removed > 0
    ensures Shrinks(value - rels[i].offset, FinalDistance(env, contents, rels, i, value))
  {
    CallPlace(env, contents, rels, i);
    FinalDistanceShrinks(env, contents, rels, i, value);
  }

  /** What relaxing a call saves fits the distance it was computed from. */
  lemma {:induction false} RelaxedCallFits(env: Env, contents: seq<Octet>, r: Rel, value: nat)
    requires |env.symAddr| == |env.far| && RelInRange(env, |contents|, r) && r.kind == CALL && r.addend == 0
    requires env.symAddr[r.sym] == env.addr + value && CallAmount(env, contents, r) > 0
    ensures CallFits(CallAmount(env, contents, r), CallRd(contents, r), value - r.offset)
  {
    CallSlackFits(env, Distance(env, r), CallRd(contents, r));
    // A symbol that counts as out of reach has an odd distance, so it is never relaxed.
    assert !Even(INT32_MAX);
  }

  lemma {:induction false} FinalDistanceShrinks(env: Env, contents: seq<Octet>, rels: seq<Rel>, i: nat, value: nat)
    requires WellFormed(env, contents, rels) && i < |rels| && !StrictlyInside(Cuts(env, contents, rels), value)
    requires Before(Cuts(env, contents, rels), rels[i].offset) == Delta(env, contents, rels, i)
    ensures Shrinks(value - rels[i].offset, FinalDistance(env, contents, rels, i, value))
  {
    EvenPosition(env, contents, rels, value);
    DeltaIsWhole(env, contents, rels, i);
    MovedDistance(Cuts(env, contents, rels), rels[i].offset, value, Delta(env, contents, rels, i));
  }

  lemma MovedDistance(cuts: seq<Cut>, p: nat, q: nat, delta: int)
    requires Before(cuts, p) == delta && Even(delta) && Even(Before(cuts, q))
    ensures Shrinks(q - p, NewPos(cuts, q) - (p - delta))
  {
    DistanceShrinks(cuts, p, q);
  }

  /** Positions never move apart, and never across each other. */
  lemma DistanceShrinks(cuts: seq<Cut>, p: nat, q: nat)
    requires Even(Before(cuts, p)) && Even(Before(cuts, q))
    ensures Shrinks(q - p, NewPos(cuts, q) - NewPos(cuts, p))
  {
    if p <= q {
      Monotone(cuts, p, q);
    } else {
      Monotone(cuts, q, p);
    }
    if Even(q - p) {
      EvenSum(q - p, Before(cuts, q), Before(cuts, p));
    }
  }

  lemma EvenSum(a: int, b: int, c: int)
    requires Even(a) && Even(b) && Even(c)
    ensures Even(a - b + c)
  {
    ModUnique(a - b + c, 2, a / 2 - b / 2 + c / 2, 0);
  }

  lemma {:induction false} CallPlace(env: Env, contents: seq<Octet>, rels: seq<Rel>, i: nat)
    requires WellFormed(env, contents, rels) && i < |rels| && Cuts(env, contents, rels)[i].removed > 0
    ensures Before(Cuts(env, contents, rels), rels[i].offset) == Delta(env, contents, rels, i)
  {
    CutsAreDisjoint(env, contents, rels);
    TotalAtCut(Cuts(env, contents, rels), |contents|, i);
    CutRemoves(env, contents, rels, i);
  }

  lemma LowerBoundExists(cuts: seq<Cut>, p: nat) returns (k: nat)
    requires forall i, j :: 0 <= i < j < |cuts| ==> cuts[i].offset <= cuts[j].offset
    ensures IsLowerBound(cuts, p, k)
  {
    k := 0;
    while k < |cuts| && cuts[k].offset < p
      invariant k <= |cuts| && forall j :: 0 <= j < k ==> cuts[j].offset < p
    {
      k := k + 1;
    }
  }

  lemma {:induction false} DeltaIsWhole(env: Env, contents: seq<Octet>, rels: seq<Rel>, k: nat)
    requires WellFormed(env, contents, rels) && k <= |rels|
    ensures env.Whole(Delta(env, contents, rels, k)) && Even(Delta(env, contents, rels, k))
  {
    forall j | 0 <= j < k && rels[j].Extent() > 0 ensures rels[j].offset + rels[j].Extent() <= |contents| {
      assert RelInRange(env, |contents|, rels[j]);
    }
    DeltaBounds(env, contents, rels, k, |contents|);
    WholeIsEven(env, Delta(env, contents, rels, k));
  }

  lemma WholeIsEven(env: Env, x: int)
    requires env.Whole(x)
    ensures Even(x)
  {
    if !env.useRvc {
      ModUnique(x, 2, 2 * (x / 4), 0);
    }
  }

  /** The number of bytes deleted below a position that is not inside a deletion is even. */
  lemma {:induction false} EvenPosition(env: Env, contents: seq<Octet>, rels: seq<Rel>, p: nat)
    requires WellFormed(env, contents, rels) && !StrictlyInside(Cuts(env, contents, rels), p)
    ensures Even(Before(Cuts(env, contents, rels), p))
  {
    var cuts := Cuts(env, contents, rels);
    CutsAreDisjoint(env, contents, rels);
    var k := LowerBoundExists(cuts, p);
    LowerBoundAdjusts(cuts, |contents|, p, k);
    DeltaIsWhole(env, contents, rels, k);
  }

  /** The padding left is whole, and at a section address addr' it ends at a boundary. */
  ghost predicate PadsTo(env: Env, r: Rel, padding: int, at: int, addr': nat) {
    0 <= padding <= r.addend && env.Whole(padding) && at >= 0 && BitCeil(r.addend + 1) > 0 &&
    EndsAligned(addr' + at, padding, BitCeil(r.addend + 1))
  }

  /**
   An alignment directive holds in the final layout: wherever the section ends up, as long as that is a
   multiple of its alignment, the code after the remaining padding is aligned as requested.
   */
  lemma {:induction false} AlignHolds(env: Env, contents: seq<Octet>, rels: seq<Rel>, i: nat, addr': nat)
    requires WellFormed(env, contents, rels) && i < |rels| && rels[i].kind == ALIGN && rels[i].addend > 0
    requires LowZeros(addr', env.p2align)
    ensures PadsTo(env, rels[i], rels[i].addend - Cuts(env, contents, rels)[i].removed,
                   rels[i].offset - Delta(env, contents, rels, i), addr')
  {
    var r := rels[i];
    assert RelInRange(env, |contents|, r) && RelAligned(env, r);
    DeltaAtPlace(env, contents, rels, i);
    CutRemoves(env, contents, rels, i);
    var delta := Delta(env, contents, rels, i);
    assert Removed(env, contents, rels, i, delta) == AlignRemoval(env, r, delta);
    PaddingHolds(env, |contents|, r, delta, r.addend - AlignRemoval(env, r, delta), addr');
  }

  lemma {:induction false} DeltaAtPlace(env: Env, contents: seq<Octet>, rels: seq<Rel>, i: nat)
    requires WellFormed(env, contents, rels) && i < |rels| && rels[i].Extent() > 0
    ensures 0 <= Delta(env, contents, rels, i) <= rels[i].offset && env.Whole(Delta(env, contents, rels, i))
  {
    DeltaBounds(env, contents, rels, i, rels[i].offset);
  }

  lemma {:induction false} PaddingHolds(env: Env, size: nat, r: Rel, delta: nat, padding: int, addr': nat)
    requires Placed(env.addr, env.p2align, size) && RelInRange(env, size, r) && RelAligned(env, r)
    requires r.kind == ALIGN && r.addend > 0 && env.Whole(delta) && delta <= r.offset
    requires LowZeros(addr', env.p2align)
    requires padding == r.addend - AlignRemoval(env, r, delta)
    ensures PadsTo(env, r, padding, r.offset - delta, addr')
  {
    AlignRemoves(env, size, r, delta);
    AddendIsWhole(env, r);
    WholeDifference(env, r.addend, AlignRemoval(env, r, delta));
    PaddingEnds(env, size, r, delta);
    MoveSection(env, r, addr', r.offset - delta, padding);
  }

  lemma {:induction false} PaddingEnds(env: Env, size: nat, r: Rel, delta: nat)
    requires Placed(env.addr, env.p2align, size) && RelInRange(env, size, r) && RelAligned(env, r)
    requires r.kind == ALIGN && r.addend > 0 && env.Whole(delta) && delta <= r.offset
    ensures BitCeil(r.addend + 1) > 0
    ensures EndsAligned(env.addr + (r.offset - delta), r.addend - AlignRemoval(env, r, delta), BitCeil(r.addend + 1))
  {
    AddrIsWhole(env, r);
    LocIsWhole(env, r.offset, delta);
    AlignSlackIsLargest(env.addr + (r.offset - delta), r.addend);
  }

  /** Alignment within a section does not depend on where the section is. */
  lemma {:induction false} MoveSection(env: Env, r: Rel, addr': nat, at: nat, padding: int)
    requires RelAligned(env, r) && r.kind == ALIGN && r.addend > 0 && BitCeil(r.addend + 1) > 0
    requires LowZeros(env.addr, env.p2align) && LowZeros(addr', env.p2align)
    requires EndsAligned(env.addr + at, padding, BitCeil(r.addend + 1))
    ensures EndsAligned(addr' + at, padding, BitCeil(r.addend + 1))
  {
    BitCeilIsLeast(r.addend + 1, env.p2align);
    LowZerosIsMultiple(env.addr, env.p2align);
    LowZerosIsMultiple(addr', env.p2align);
    SameResidue(env.addr, addr', Pow2(env.p2align), BitCeil(r.addend + 1), at, padding);
  }

  lemma AddendIsWhole(env: Env, r: Rel)
    requires RelAligned(env, r) && r.kind == ALIGN && r.addend > 0
    ensures env.Whole(r.addend)
  {
    var k := BitCeilExponent(r.addend + 1);
    GrainDivides(env.Grain(), k);
    WholeDifference(env, BitCeil(r.addend + 1), env.Grain());
  }

  /** Two multiples of a multiple of the alignment leave the same remainder. */
  lemma SameResidue(a: nat, b: nat, big: nat, alignment: nat, at: nat, padding: int)
    requires alignment > 0 && big > 0 && big % alignment == 0 && a % big == 0 && b % big == 0
    requires EndsAligned(a + at, padding, alignment)
    ensures EndsAligned(b + at, padding, alignment)
  {
    MultipleOfMultiple(a, big, alignment);
    MultipleOfMultiple(b, big, alignment);
    ModDifference(a + at + padding, a, alignment);
    ModDifference(a + at + padding - a, b, alignment);
    assert a + at + padding - a + b == b + at + padding;
  }
}
