/**
 What relaxed and relocated RISC-V code means: calls land on their moved targets, PC-relative pairs add up,
 padding is made of NOPs, and everything else is still there (elf/arch-riscv.cc as a whole).
 */
module RiscvMeaning {
  import opened Bits
  import opened RiscvWords
  import opened ByteMap
  import opened RiscvRelax
  import opened RiscvApply

  // ---- single instructions

  predicate IsJal(w: Word) {
    w[..7] == [true, true, true, true, false, true, true]
  }

  predicate IsCJ(h: Half) {
    h[..2] == [true, false] && h[13..] == [true, false, true]
  }

  predicate IsCJal(h: Half) {
    h[..2] == [true, false] && h[13..] == [true, false, false]
  }

  /** The bytes are one instruction that jumps by `disp` and links to register rd. */
  predicate JumpsBy(b: seq<Octet>, rd: nat, disp: int) {
    (|b| == 4 && IsJal(WordOf(b)) && GetRd(WordOf(b)) == rd && JImm(WordOf(b)) == disp) ||
    (|b| == 2 && rd == 0 && IsCJ(HalfOf(b)) && CJImm(HalfOf(b)) == disp) ||
    (|b| == 2 && rd == 1 && IsCJal(HalfOf(b)) && CJImm(HalfOf(b)) == disp)
  }

  lemma JalRd(rd: nat)
    requires rd < 32
    ensures GetRd(JalWord(rd)) == rd && IsJal(JalWord(rd))
  {
    JalBits(rd);
    RegisterBits(rd);
  }

  lemma JalBits(rd: nat)
    ensures JalWord(rd)[7..12] == ToBits(rd, 5)
  {
  }

  lemma RegisterBits(r: nat)
    requires r < 32
    ensures Unsigned(ToBits(r, 5)) == r
  {
    UnsignedMod(r, 5);
    assert Pow2(5) == 32;
  }

  lemma JalDecodes(rd: nat, v: int)
    requires rd < 32 && Even(v)
    ensures
      var w := WriteJType(JalWord(rd), U(v));
      IsJal(w) && GetRd(w) == rd && (JImm(w) == v <==> -0x10_0000 <= v < 0x10_0000)
  {
    JalRd(rd);
    var w := WriteJType(JalWord(rd), U(v));
    JTypeRoundTrip(JalWord(rd), v);
    assert w[..7] == w[..12][..7] == JalWord(rd)[..7];
    assert w[7..12] == w[..12][7..12] == JalWord(rd)[7..12];
  }

  lemma ShortJumpDecodes(rd: nat, v: int)
    requires rd in {0, 1} && Even(v)
    ensures
      var h := WriteCJType(ShortJump(rd), U(v));
      (if rd == 0 then IsCJ(h) else IsCJal(h)) && (CJImm(h) == v <==> -0x800 <= v < 0x800)
  {
    CJTypeRoundTrip(ShortJump(rd), v);
    ShortJumpBits(rd);
    var h := WriteCJType(ShortJump(rd), U(v));
    assert h[..2] == [true, false] && h[13..] == [true, false, rd == 0];
  }

  lemma ShortJumpBits(rd: nat)
    ensures ShortJump(rd)[..2] == [true, false] && ShortJump(rd)[13..] == [true, false, rd == 0]
  {
  }

  /** A shortened call jumps by the value given to it exactly when that value fits. */
  lemma ShortCallDecodes(removed: int, rd: nat, v: int, weak: bool, cur: seq<Octet>)
    requires removed == 4 || (removed == 6 && rd in {0, 1})
    requires rd < 32 && |cur| == 8 - removed && Even(v)
    ensures JumpsBy(CallPatch(removed, rd, v, weak, cur), rd, v) <==> CallFits(removed, rd, v)
  {
    if removed == 4 {
      JalDecodes(rd, v);
      OctetsOfWord(WriteJType(JalWord(rd), U(v)));
    } else {
      ShortJumpDecodes(rd, v);
      OctetsOfHalf(WriteCJType(ShortJump(rd), U(v)));
    }
  }

  /** What AUIPC adds to the program counter on a 64-bit machine. */
  function SignedUImm(w: Word): int {
    UImm(w) - if w[31] then 0x1_0000_0000 else 0
  }

  lemma SignedUImmRange(w: Word)
    ensures w[31] <==> UImm(w) >= 0x8000_0000
    ensures UImm(w) < 0x1_0000_0000
  {
    UnsignedRange(w[12..]);
    assert w[12..][19] == w[31];
    PowersOfTwo();
    assert Pow2(20) == 2 * Pow2(19);
  }

  /**
   An upper and a lower part made from one value give that value modulo 2^32, which is what a 32-bit machine
   computes; a 64-bit machine gets the value itself exactly in a range that is 0x800 below that of the check.
   */
  lemma PairReaches(hi: Word, lo: Word, v: int)
    ensures
      var h, i := WriteUType(hi, U(v)), WriteIType(lo, U(v));
      (UImm(h) + IImm(i)) % 0x1_0000_0000 == v % 0x1_0000_0000 &&
      (SignedUImm(h) + IImm(i) == v <==> -0x8000_0800 <= v < 0x7fff_f800)
  {
    UTypeHigh(hi, v);
    ITypeLow(lo, v);
    HighAndLow(v);
    SignedUImmRange(WriteUType(hi, U(v)));
    Upper(v);
  }

  lemma StorePairReaches(hi: Word, lo: Word, v: int)
    ensures
      var h, s := WriteUType(hi, U(v)), WriteSType(lo, U(v));
      (UImm(h) + SImm(s)) % 0x1_0000_0000 == v % 0x1_0000_0000 &&
      (SignedUImm(h) + SImm(s) == v <==> -0x8000_0800 <= v < 0x7fff_f800)
  {
    UTypeHigh(hi, v);
    STypeLow(lo, v);
    HighAndLow(v);
    SignedUImmRange(WriteUType(hi, U(v)));
    Upper(v);
  }

  lemma Upper(v: int)
    ensures
      var u := (v - Low12(v)) % 0x1_0000_0000;
      (u - (if u >= 0x8000_0000 then 0x1_0000_0000 else 0) + Low12(v) == v <==> -0x8000_0800 <= v < 0x7fff_f800)
  {
    var h := (v + 0x800) / 0x1000;
    assert v - Low12(v) == 0x1000 * h;
  }

  /** A distance the range check accepts but a 64-bit AUIPC and JALR pair misses. */
  lemma CheckIsTooWide(hi: Word, lo: Word)
    ensures
      var v := 0x7fff_f800;
      -0x8000_0000 <= v < 0x8000_0000 &&
      SignedUImm(WriteUType(hi, U(v))) + IImm(WriteIType(lo, U(v))) == v - 0x1_0000_0000
  {
    var v := 0x7fff_f800;
    UTypeHigh(hi, v);
    ITypeLow(lo, v);
    SignedUImmRange(WriteUType(hi, U(v)));
  }

  /** The displacement a branch or jump of the given kind holds. */
  function Displacement(kind: Kind, b: seq<Octet>): int
    requires kind in {JAL, BRANCH, RVC_BRANCH, RVC_JUMP}
    requires |b| == if kind in {RVC_BRANCH, RVC_JUMP} then 2 else 4
  {
    if kind == JAL then JImm(WordOf(b))
    else if kind == BRANCH then BImm(WordOf(b))
    else if kind == RVC_BRANCH then CBImm(HalfOf(b))
    else CJImm(HalfOf(b))
  }

  /** The range checks accept exactly the even displacements that can be encoded. */
  lemma CheckedBranchesDecode(kind: Kind, v: int, cur: seq<Octet>)
    requires kind in {JAL, BRANCH, RVC_BRANCH, RVC_JUMP} && Even(v)
    requires |cur| == if kind in {RVC_BRANCH, RVC_JUMP} then 2 else 4
    ensures Displacement(kind, PatchRelative(kind, v, cur)) == v <==> RelativeInReach(kind, v)
  {
    if kind == JAL {
      JTypeRoundTrip(WordOf(cur), v);
      OctetsOfWord(WriteJType(WordOf(cur), U(v)));
    } else if kind == BRANCH {
      BTypeRoundTrip(WordOf(cur), v);
      OctetsOfWord(WriteBType(WordOf(cur), U(v)));
    } else if kind == RVC_BRANCH {
      CBTypeRoundTrip(HalfOf(cur), v);
      OctetsOfHalf(WriteCBType(HalfOf(cur), U(v)));
    } else {
      CJTypeRoundTrip(HalfOf(cur), v);
      OctetsOfHalf(WriteCJType(HalfOf(cur), U(v)));
    }
  }

  /**
   A LO12 whose upper part was given up: the base register is the zero register or the thread pointer,
   and the immediate is the value exactly when that is not negative.
   */
  lemma RelaxedLow(store: bool, w: Word, v: int, rs1: nat)
    requires SignExtend(v, 11) == v
    ensures
      var x := LowPatch(store, w, v, rs1);
      x == SetRs1(if store then WriteSType(w, U(v)) else WriteIType(w, U(v)), rs1) &&
      ((if store then SImm(x) else IImm(x)) == v <==> v >= 0)
  {
    SignExtendFits(v, 11);
    PowersOfTwo();
    assert Low12(v) == v;
    SetRs1KeepsNonNegative(w, v, rs1);
  }

  // ---- a relaxed section

  /** A section with its deletions, about to be written. */
  ghost predicate Relaxed(env: Env, job: Job) {
    WellFormed(env, job.contents, job.rels) && IsDeltas(env, job.contents, job.rels, job.deltas) &&
    |job.fin.symAddr| == |job.fin.gotAddr| == |job.fin.gottpAddr| == |job.fin.tlsgdAddr| == |env.symAddr| &&
    |job.fin.undefWeak| == |job.fin.value| == |env.symAddr|
  }

  ghost function CutsOf(env: Env, job: Job): (c: seq<Cut>)
    requires Relaxed(env, job)
    ensures |c| == |job.rels|
  {
    Cuts(env, job.contents, job.rels)
  }

  lemma RemovedIsCut(env: Env, job: Job, i: nat)
    requires Relaxed(env, job) && i < |job.rels|
    ensures job.Removed(i) == CutsOf(env, job)[i].removed == Removed(env, job.contents, job.rels, i, job.deltas[i])
    ensures CutsOf(env, job)[i].offset == job.rels[i].offset
    ensures 0 <= job.Removed(i) <= job.rels[i].Extent() && env.Whole(job.Removed(i))
    ensures RelInRange(env, |job.contents|, job.rels[i])
  {
    assert CutsOf(env, job)[i] == CutAt(env, job.contents, job.rels, i);
    RemovalAt(env, job.contents, job.rels, i);
    assert RelInRange(env, |job.contents|, job.rels[i]);
  }

  /** The bytes a relocation is about start and end where the byte map says. */
  lemma PlaceIsNewPos(env: Env, job: Job, i: nat)
    requires Relaxed(env, job) && i < |job.rels| && job.rels[i].Extent() > 0
    ensures job.deltas[i] == Before(CutsOf(env, job), job.rels[i].offset)
    ensures job.deltas[i + 1] == Before(CutsOf(env, job), job.rels[i].offset + job.rels[i].Extent())
  {
    OwnTotals(env, job, i);
    DeltaAt(env, job, i);
    DeltaAt(env, job, i + 1);
  }

  lemma DeltaAt(env: Env, job: Job, k: nat)
    requires Relaxed(env, job) && k <= |job.rels|
    ensures job.deltas[k] == Total(CutsOf(env, job), k)
  {
    DeltaIsTotal(env, job.contents, job.rels, k);
  }

  lemma OwnTotals(env: Env, job: Job, i: nat)
    requires Relaxed(env, job) && i < |job.rels| && job.rels[i].Extent() > 0
    ensures TotalsAt(CutsOf(env, job), i, job.rels[i].offset, job.rels[i].offset + job.rels[i].Extent())
  {
    OwnBytes(env, job, i);
    CutTotals(env, job);
  }

  /** A deletion at one relocation is outside the bytes of the others. */
  lemma CutAndPlace(env: Env, job: Job, i: nat, j: nat)
    requires Relaxed(env, job) && i < |job.rels| && job.rels[i].Extent() > 0
    requires j < |job.rels| && CutsOf(env, job)[j].removed > 0
    ensures
      var c, r := CutsOf(env, job)[j], job.rels[i];
      (j < i ==> c.offset + c.removed <= r.offset) &&
      (j > i ==> c.offset >= r.offset + r.Extent()) &&
      (j == i ==> c.offset == r.offset && c.removed <= r.Extent())
  {
    RemovedIsCut(env, job, j);
  }

  lemma OwnBytes(env: Env, job: Job, i: nat)
    requires Relaxed(env, job) && i < |job.rels| && job.rels[i].Extent() > 0
    ensures OnlyTouchedBy(CutsOf(env, job), i, job.rels[i].offset, job.rels[i].offset + job.rels[i].Extent())
  {
    var r, cuts := job.rels[i], CutsOf(env, job);
    forall j | 0 <= j < |cuts| && cuts[j].removed > 0
      ensures j < i ==> cuts[j].offset + cuts[j].removed <= r.offset
      ensures j > i ==> cuts[j].offset >= r.offset + r.Extent()
      ensures j == i ==> cuts[j].offset == r.offset && cuts[j].removed <= r.Extent()
    {
      CutAndPlace(env, job, i, j);
    }
  }

  lemma CutTotals(env: Env, job: Job)
    requires Relaxed(env, job)
    ensures forall i: nat, p: int, q: int ::
              OnlyTouchedBy(CutsOf(env, job), i, p, q) ==> TotalsAt(CutsOf(env, job), i, p, q)
  {
    TotalsEverywhere(CutsOf(env, job), |job.contents|);
  }

  /** Only kinds that shrink_section handles lose bytes, and only the amounts it knows. */
  ghost predicate KnownAmount(job: Job, i: nat)
    requires i < |job.rels| && |job.deltas| == |job.rels| + 1
    requires job.rels[i].offset + job.rels[i].Extent() <= |job.contents|
  {
    var r, removed := job.rels[i], job.Removed(i);
    (r.kind == CALL ==> removed in {0, 4} || (removed == 6 && job.CallRd(i) in {0, 1})) &&
    (r.kind in {HI20, TPREL_HI20, TPREL_ADD} ==> removed in {0, 4}) &&
    (r.kind !in {CALL, HI20, TPREL_HI20, TPREL_ADD} ==> removed == 0)
  }

  lemma {:induction false} RemovedByKind(env: Env, job: Job, i: nat)
    requires Relaxed(env, job) && i < |job.rels| && job.rels[i].kind != ALIGN
    ensures RelInRange(env, |job.contents|, job.rels[i]) && KnownAmount(job, i)
  {
    RemovedIsCut(env, job, i);
    RemovedCases(env, job.contents, job.rels, i, job.deltas[i]);
    OptionalAmount(env, job.contents, job.rels[i]);
  }

  lemma OptionalAmount(env: Env, contents: seq<Octet>, r: Rel)
    requires |env.symAddr| == |env.far| && RelInRange(env, |contents|, r)
    ensures
      var removed := OptionalSlack(env, contents, r);
      if r.kind == CALL then removed in {0, 4} || (removed == 6 && CallRd(contents, r) in {0, 1})
      else if r.kind in {HI20, TPREL_HI20, TPREL_ADD} then removed in {0, 4}
      else removed == 0
  {
  }

  lemma AlignRemovedIsEven(env: Env, job: Job, i: nat)
    requires Relaxed(env, job) && i < |job.rels| && job.rels[i].kind == ALIGN
    ensures (job.rels[i].addend - job.Removed(i)) % 2 == 0
  {
    RemovedIsCut(env, job, i);
    assert RelAligned(env, job.rels[i]);
    PaddingIsEven(env, job.rels[i], job.Removed(i));
  }

  lemma PaddingIsEven(env: Env, r: Rel, removed: int)
    requires r.kind == ALIGN && RelAligned(env, r) && env.Whole(removed) && 0 <= removed <= r.addend
    ensures (r.addend - removed) % 2 == 0
  {
    if r.addend > 0 {
      AddendIsWhole(env, r);
      WholeDifference(env, r.addend, removed);
      WholeIsEven(env, r.addend - removed);
    }
  }

  lemma RelaxedRelValid(env: Env, job: Job, i: nat)
    requires Relaxed(env, job) && i < |job.rels|
    ensures job.RelValid(i)
  {
    RemovedIsCut(env, job, i);
    if job.rels[i].kind == ALIGN {
      AlignRemovedIsEven(env, job, i);
    } else {
      RemovedByKind(env, job, i);
    }
    if job.rels[i].Extent() > 0 {
      PlaceIsNewPos(env, job, i);
    }
  }

  lemma RelaxedIsValid(env: Env, job: Job)
    requires Relaxed(env, job)
    ensures job.Valid()
  {
    forall i | 0 <= i < |job.rels| ensures job.RelValid(i) {
      RelaxedRelValid(env, job, i);
    }
  }

  /** After relaxation the relocated places are disjoint and inside what is left of the section. */
  lemma RelaxedLayout(env: Env, job: Job)
    requires Relaxed(env, job)
    ensures job.Valid() && Layout(job.Places(), NewPos(CutsOf(env, job), |job.contents|))
  {
    RelaxedIsValid(env, job);
    var ws, cuts, size := job.Places(), CutsOf(env, job), NewPos(CutsOf(env, job), |job.contents|);
    forall i | 0 <= i < |ws| ensures ws[i].at + ws[i].len <= size {
      PlaceInside(env, job, i);
    }
    forall i, j | 0 <= i < j < |ws| && ws[i].len > 0 && ws[j].len > 0 ensures ws[i].at + ws[i].len <= ws[j].at {
      PlacesApart(env, job, i, j);
    }
  }

  lemma {:induction false} PlaceInside(env: Env, job: Job, i: nat)
    requires Relaxed(env, job) && job.Valid() && i < |job.rels|
    ensures job.RelValid(i) && job.Places()[i] == job.Place(i)
    ensures job.Place(i).at + job.Place(i).len <= NewPos(CutsOf(env, job), |job.contents|)
  {
    assert job.RelValid(i);
    if job.rels[i].Extent() > 0 {
      PlaceEnds(env, job, i);
      Monotone(CutsOf(env, job), job.rels[i].offset + job.rels[i].Extent(), |job.contents|);
    }
  }

  lemma {:induction false} PlaceEnds(env: Env, job: Job, i: nat)
    requires Relaxed(env, job) && job.Valid() && i < |job.rels| && job.RelValid(i) && job.rels[i].Extent() > 0
    ensures job.Place(i).at + job.Place(i).len == NewPos(CutsOf(env, job), job.rels[i].offset + job.rels[i].Extent())
  {
    PlaceIsNewPos(env, job, i);
  }

  lemma PlacesApart(env: Env, job: Job, i: nat, j: nat)
    requires Relaxed(env, job) && job.Valid() && i < j < |job.rels|
    requires job.RelValid(i) && job.RelValid(j) && job.Place(i).len > 0 && job.Place(j).len > 0
    ensures job.Place(i).at + job.Place(i).len <= job.Place(j).at
  {
    var r, s := job.rels[i], job.rels[j];
    PlaceIsNewPos(env, job, i);
    PlaceIsNewPos(env, job, j);
    Monotone(CutsOf(env, job), r.offset + r.Extent(), s.offset);
  }

  // ---- what is at a relocated place

  /** If nothing is removed at a relocation, its bytes are found unchanged at its place. */
  lemma PlaceHoldsOriginal(env: Env, job: Job, i: nat)
    requires Relaxed(env, job) && i < |job.rels| && job.rels[i].Extent() > 0 && job.Removed(i) == 0
    ensures job.RelValid(i)
    ensures
      var w, out := job.Place(i), Kept(CutsOf(env, job), job.contents, |job.contents|);
      w.at + w.len <= |out| &&
      At(out, w) == job.contents[job.rels[i].offset..job.rels[i].offset + job.rels[i].Extent()]
  {
    RelaxedRelValid(env, job, i);
    PlaceIsNewPos(env, job, i);
    OwnBytesStay(env, job, i);
  }

  lemma {:induction false} OwnBytesStay(env: Env, job: Job, i: nat)
    requires Relaxed(env, job) && i < |job.rels| && job.rels[i].Extent() > 0 && job.Removed(i) == 0
    ensures PieceKept(CutsOf(env, job), job.contents, job.rels[i].offset, job.rels[i].offset + job.rels[i].Extent())
  {
    RemovedIsCut(env, job, i);
    UntouchedPiece(CutsOf(env, job), job.contents, i, job.rels[i].offset, job.rels[i].offset + job.rels[i].Extent());
  }

  // ---- labels of PC-relative pairs

  /** Before relaxation the label of every LO12 is the offset of a HI20. */
  ghost predicate Labelled(job: Job, value: seq<nat>) {
    forall i :: 0 <= i < |job.rels| && job.IsLo(i) ==>
      job.rels[i].sym < |value| && exists h :: 0 <= h < |job.rels| && LabelOf(job, value, i, h)
  }

  ghost predicate LabelOf(job: Job, value: seq<nat>, i: nat, h: nat)
    requires i < |job.rels| && h < |job.rels| && job.rels[i].sym < |value|
  {
    job.IsHi(h) && value[job.rels[i].sym] == job.rels[h].offset
  }

  /** The symbols of the section have been moved. */
  ghost predicate SymbolsMoved(env: Env, job: Job, value: seq<nat>)
    requires Relaxed(env, job)
  {
    |value| == |job.fin.value| &&
    forall s :: 0 <= s < |value| ==> Moved(env, job.contents, job.rels, value[s], job.fin.value[s])
  }

  /** A label at a HI20 moves with it. */
  lemma {:induction false} LabelFollows(env: Env, job: Job, value: seq<nat>, i: nat, h: nat)
    requires Relaxed(env, job) && job.Valid() && SymbolsMoved(env, job, value)
    requires i < |job.rels| && h < |job.rels| && job.IsLo(i)
    requires job.rels[i].sym < |value| && LabelOf(job, value, i, h)
    ensures Pairs(job, i, h)
  {
    var s := job.rels[i].sym;
    RelaxedRelValid(env, job, i);
    RelaxedRelValid(env, job, h);
    PlaceIsNewPos(env, job, h);
    HiIsOutside(env, job, h);
    assert Moved(env, job.contents, job.rels, value[s], job.fin.value[s]);
    MovedWithItsByte(env, job.contents, job.rels, value[s], job.fin.value[s]);
  }

  lemma HiIsOutside(env: Env, job: Job, h: nat)
    requires Relaxed(env, job) && h < |job.rels| && job.IsHi(h)
    ensures !StrictlyInside(CutsOf(env, job), job.rels[h].offset)
  {
    OwnBytes(env, job, h);
    NotStrictlyInside(CutsOf(env, job), h, job.rels[h].offset, job.rels[h].offset + 4);
  }

  lemma NotStrictlyInside(cuts: seq<Cut>, i: nat, p: nat, q: nat)
    requires OnlyTouchedBy(cuts, i, p, q) && p < q
    ensures !StrictlyInside(cuts, p)
  {
    forall j | 0 <= j < |cuts| ensures !(cuts[j].offset < p < cuts[j].offset + cuts[j].removed) {
    }
  }

  /** So the pairing that the compiler set up survives relaxation. */
  lemma PairingSurvives(env: Env, job: Job, value: seq<nat>)
    requires Relaxed(env, job) && SymbolsMoved(env, job, value) && Labelled(job, value)
    ensures job.Valid() && Paired(job)
  {
    RelaxedIsValid(env, job);
    forall i | 0 <= i < |job.rels| && job.IsLo(i) ensures exists h :: Pairs(job, i, h) {
      var h :| 0 <= h < |job.rels| && LabelOf(job, value, i, h);
      LabelFollows(env, job, value, i, h);
    }
  }

  // ---- the section as it is written

  /** The output: the kept bytes with every relocation applied to its place. */
  ghost predicate Written(env: Env, job: Job, out: seq<Octet>)
    requires Relaxed(env, job)
  {
    var kept := Kept(CutsOf(env, job), job.contents, |job.contents|);
    job.Valid() && |out| == |kept| && Fits(job, job.Places(), |kept|) &&
    (forall i :: 0 <= i < |job.rels| ==> Relocated(job, job.Places(), kept, out, i)) &&
    (forall p :: 0 <= p < |kept| && Outside(job.Places(), p) ==> out[p] == kept[p])
  }

  /** Copies what is left of a section and relocates it. */
  method WriteTo(env: Env, job: Job, ghost value: seq<nat>, buf: array<Octet>) returns (ok: bool)
    requires Relaxed(env, job) && SymbolsMoved(env, job, value) && Labelled(job, value)
    requires buf.Length == |job.contents| - job.deltas[|job.rels|]
    modifies buf
    ensures Written(env, job, buf[..])
    ensures ok == AllInReach(job, |job.rels|)
  {
    PairingSurvives(env, job, value);
    RelaxedLayout(env, job);
    CopyContents(env, job.contents, job.rels, job.deltas, buf);
    ghost var kept := Kept(CutsOf(env, job), job.contents, |job.contents|);
    assert buf[..] == kept;
    ok := ApplyRelocAlloc(job, job.Places(), buf);
    assert forall p :: 0 <= p < buf.Length ==> buf[..][p] == buf[p];
  }

  lemma WrittenPlace(env: Env, job: Job, out: seq<Octet>, i: nat)
    requires Relaxed(env, job) && Written(env, job, out) && i < |job.rels|
    ensures job.RelValid(i) && job.Place(i).at + job.Place(i).len <= |out|
    ensures job.IsHi(i) ==>
              job.Place(i).len == 4 && WordOf(At(out, job.Place(i))) ==
              WriteUType(WordAt(job.contents, job.rels[i].offset), U(job.Value(i)))
    ensures !job.IsHi(i) && !job.IsLo(i) ==>
              exists cur :: |cur| == job.Place(i).len && At(out, job.Place(i)) == Patch1(job, i, cur)
  {
    var kept := Kept(CutsOf(env, job), job.contents, |job.contents|);
    PlaceAt(job, job.Places(), |kept|, i);
    assert Relocated(job, job.Places(), kept, out, i);
    assert |At(kept, job.Place(i))| == job.Place(i).len;
  }

  lemma WrittenLow(env: Env, job: Job, out: seq<Octet>, i: nat, h: nat)
    requires Relaxed(env, job) && Written(env, job, out) && Pairs(job, i, h)
    ensures job.RelValid(i) && job.RelValid(h) && job.Place(i).len == 4 && job.Place(i).at + 4 <= |out|
    ensures WordOf(At(out, job.Place(i))) ==
            LowWord(job.rels[i].kind, WordAt(job.contents, job.rels[i].offset), job.Value(h))
  {
    var kept := Kept(CutsOf(env, job), job.contents, |job.contents|);
    PlaceAt(job, job.Places(), |kept|, i);
    assert Relocated(job, job.Places(), kept, out, i);
    OriginalWord(env, job, i);
  }

  lemma OriginalWord(env: Env, job: Job, i: nat)
    requires Relaxed(env, job) && i < |job.rels| && job.IsLo(i)
    ensures job.RelValid(i) && job.Place(i).len == 4
    ensures job.Place(i).at + 4 <= NewPos(CutsOf(env, job), |job.contents|)
    ensures WordOf(At(Kept(CutsOf(env, job), job.contents, |job.contents|), job.Place(i))) ==
            WordAt(job.contents, job.rels[i].offset)
  {
    RelaxedRelValid(env, job, i);
    PlaceHoldsOriginal(env, job, i);
  }

  // ---- what it means

  /**
   A shortened call to a symbol of its own section: the instruction at its new place jumps exactly to the
   symbol's new address and links to the register the original call linked to.
   */
  lemma {:induction false} CallLandsOnTarget(env: Env, job: Job, out: seq<Octet>, i: nat, value: nat)
    requires Relaxed(env, job) && Written(env, job, out)
    requires i < |job.rels| && job.rels[i].kind == CALL && job.rels[i].addend == 0 && job.Removed(i) > 0
    requires job.rels[i].sym < |env.symAddr| && env.symAddr[job.rels[i].sym] == env.addr + value
    requires !StrictlyInside(CutsOf(env, job), value)
    requires job.fin.symAddr[job.rels[i].sym] == job.fin.addr + NewPos(CutsOf(env, job), value)
    ensures job.RelValid(i)
    ensures
      var w := job.Place(i);
      w.at + w.len <= |out| &&
      JumpsBy(At(out, w), job.CallRd(i), job.fin.symAddr[job.rels[i].sym] - (job.fin.addr + w.at))
  {
    RelaxedRelValid(env, job, i);
    RemovedIsCut(env, job, i);
    CallKeepsReach(env, job.contents, job.rels, i, value);
    ValueIsDistance(env, job, i, value);
    WrittenPlace(env, job, out, i);
    var cur :| |cur| == job.Place(i).len && At(out, job.Place(i)) == Patch1(job, i, cur);
    CallRdRange(job, i);
    ShortCallDecodes(job.Removed(i), job.CallRd(i), job.Value(i), job.fin.undefWeak[job.rels[i].sym], cur);
  }

  lemma ValueIsDistance(env: Env, job: Job, i: nat, value: nat)
    requires Relaxed(env, job) && i < |job.rels| && job.rels[i].kind == CALL && job.rels[i].addend == 0
    requires job.rels[i].sym < |env.symAddr|
    requires job.fin.symAddr[job.rels[i].sym] == job.fin.addr + NewPos(CutsOf(env, job), value)
    ensures job.Value(i) == FinalDistance(env, job.contents, job.rels, i, value)
    ensures job.Value(i) == job.fin.symAddr[job.rels[i].sym] - (job.fin.addr + (job.rels[i].offset - job.deltas[i]))
  {
  }

  lemma CallRdRange(job: Job, i: nat)
    requires i < |job.rels| && job.rels[i].offset + 8 <= |job.contents|
    ensures job.CallRd(i) < 32
  {
    UnsignedRange(WordAt(job.contents, job.rels[i].offset + 4)[7..12]);
    assert Pow2(5) == 32;
  }

  /** Two instructions whose immediates add up to v modulo 2^32 and whose other bits are the original ones. */
  predicate HoldsTogether(kind: Kind, hi0: Word, lo0: Word, hi: Word, lo: Word, v: int) {
    hi[..12] == hi0[..12] &&
    if kind == PCREL_LO12_I then
      (UImm(hi) + IImm(lo)) % 0x1_0000_0000 == v % 0x1_0000_0000 && lo[..20] == lo0[..20]
    else
      (UImm(hi) + SImm(lo)) % 0x1_0000_0000 == v % 0x1_0000_0000 && lo[..7] == lo0[..7] && lo[12..25] == lo0[12..25]
  }

  lemma LoadWords(hi: Word, lo: Word, v: int)
    ensures HoldsTogether(PCREL_LO12_I, hi, lo, WriteUType(hi, U(v)), WriteIType(lo, U(v)), v)
  {
    UTypeHigh(hi, v);
    ITypeLow(lo, v);
    PairReaches(hi, lo, v);
  }

  lemma StoreWords(hi: Word, lo: Word, v: int)
    ensures HoldsTogether(PCREL_LO12_S, hi, lo, WriteUType(hi, U(v)), WriteSType(lo, U(v)), v)
  {
    UTypeHigh(hi, v);
    STypeLow(lo, v);
    StorePairReaches(hi, lo, v);
  }

  lemma PairWords(kind: Kind, hi: Word, lo: Word, v: int)
    requires kind in {PCREL_LO12_I, PCREL_LO12_S}
    ensures HoldsTogether(kind, hi, lo, WriteUType(hi, U(v)), LowWord(kind, lo, v), v)
  {
    if kind == PCREL_LO12_I {
      LoadWords(hi, lo, v);
    } else {
      StoreWords(hi, lo, v);
    }
  }

  /**
   A PC-relative pair: the upper part at the HI20's place and the low part at the LO12's hold the value
   of the HI20, S + A - P.
   */
  lemma PairAddsUp(env: Env, job: Job, out: seq<Octet>, i: nat, h: nat)
    requires Relaxed(env, job) && Written(env, job, out) && Pairs(job, i, h)
    ensures job.RelValid(i) && job.RelValid(h) && job.Place(h).len == job.Place(i).len == 4
    ensures job.Place(i).at + 4 <= |out| && job.Place(h).at + 4 <= |out|
    ensures HoldsTogether(job.rels[i].kind,
                          WordAt(job.contents, job.rels[h].offset), WordAt(job.contents, job.rels[i].offset),
                          WordOf(At(out, job.Place(h))), WordOf(At(out, job.Place(i))), job.Value(h))
  {
    WrittenPlace(env, job, out, h);
    WrittenLow(env, job, out, i, h);
    PairWords(job.rels[i].kind, WordAt(job.contents, job.rels[h].offset), WordAt(job.contents, job.rels[i].offset),
              job.Value(h));
  }

  /** Padding that is left is a sled of NOPs, and the code after it is aligned wherever the section is put. */
  lemma PaddingIsNops(env: Env, job: Job, out: seq<Octet>, i: nat)
    requires Relaxed(env, job) && Written(env, job, out)
    requires i < |job.rels| && job.rels[i].kind == ALIGN && job.rels[i].addend > 0
    requires LowZeros(job.fin.addr, env.p2align)
    ensures job.RelValid(i) && job.Place(i).at + job.Place(i).len <= |out|
    ensures IsNopSled(At(out, job.Place(i)))
    ensures PadsTo(env, job.rels[i], job.Place(i).len, job.Place(i).at, job.fin.addr)
  {
    WrittenPlace(env, job, out, i);
    NopsAreASled(job.Place(i).len);
    PaddingHeld(env, job, i);
  }

  lemma {:induction false} PaddingHeld(env: Env, job: Job, i: nat)
    requires Relaxed(env, job) && i < |job.rels| && job.rels[i].kind == ALIGN && job.rels[i].addend > 0
    requires LowZeros(job.fin.addr, env.p2align) && job.RelValid(i)
    ensures PadsTo(env, job.rels[i], job.Place(i).len, job.Place(i).at, job.fin.addr)
  {
    AlignHolds(env, job.contents, job.rels, i, job.fin.addr);
    RemovedIsCut(env, job, i);
  }

  /** A byte that is neither deleted nor relocated is found at its new position. */
  lemma OtherBytesStay(env: Env, job: Job, out: seq<Octet>, p: nat)
    requires Relaxed(env, job) && Written(env, job, out)
    requires p < |job.contents| && !Deleted(CutsOf(env, job), p)
    requires forall i :: 0 <= i < |job.rels| ==> !TouchedBy(job, i, p)
    ensures NewPos(CutsOf(env, job), p) < |out| && out[NewPos(CutsOf(env, job), p)] == job.contents[p]
  {
    var cuts := CutsOf(env, job);
    KeptAt(cuts, job.contents, p, |job.contents|);
    forall i | 0 <= i < |job.rels| ensures !Covers(job.Places()[i], NewPos(cuts, p)) {
      NotCovered(env, job, i, p);
    }
  }

  predicate TouchedBy(job: Job, i: nat, p: nat)
    requires i < |job.rels|
  {
    job.rels[i].offset <= p < job.rels[i].offset + job.rels[i].Extent()
  }

  lemma NotCovered(env: Env, job: Job, i: nat, p: nat)
    requires Relaxed(env, job) && job.Valid() && i < |job.rels| && !TouchedBy(job, i, p)
    requires p < |job.contents| && !Deleted(CutsOf(env, job), p)
    ensures !Covers(job.Places()[i], NewPos(CutsOf(env, job), p))
  {
    assert job.RelValid(i);
    if job.rels[i].Extent() > 0 {
      PlaceIsNewPos(env, job, i);
      KeptOutside(CutsOf(env, job), p, job.rels[i].offset, job.rels[i].offset + job.rels[i].Extent());
    }
  }

  // ---- branches and calls that keep their length

  /** What is at a place that has lost no bytes and is not part of a PC-relative pair. */
  lemma WrittenPatch(env: Env, job: Job, out: seq<Octet>, i: nat)
    requires Relaxed(env, job) && Written(env, job, out) && i < |job.rels| && job.rels[i].Extent() > 0
    requires job.Removed(i) == 0 && !job.IsHi(i) && !job.IsLo(i)
    ensures job.RelValid(i) && job.Place(i).len == job.rels[i].Extent() && job.Place(i).at + job.Place(i).len <= |out|
    ensures job.rels[i].offset + job.rels[i].Extent() <= |job.contents|
    ensures At(out, job.Place(i)) ==
            Patch1(job, i, job.contents[job.rels[i].offset..job.rels[i].offset + job.rels[i].Extent()])
  {
    var kept := Kept(CutsOf(env, job), job.contents, |job.contents|);
    PlaceAt(job, job.Places(), |kept|, i);
    PlaceHoldsOriginal(env, job, i);
    assert Relocated(job, job.Places(), kept, out, i);
  }

  lemma KeepsLength(env: Env, job: Job, i: nat)
    requires Relaxed(env, job) && i < |job.rels|
    requires job.rels[i].kind !in {CALL, ALIGN, HI20, TPREL_HI20, TPREL_ADD}
    ensures job.Removed(i) == 0
  {
    RemovedByKind(env, job, i);
  }

  predicate IsBranch(kind: Kind) {
    kind in {JAL, BRANCH, RVC_BRANCH, RVC_JUMP}
  }

  lemma TwiceIsEven(x: int)
    ensures Even(2 * x)
  {
  }

  lemma {:induction false} EvenImmediate(b: Bitlist)
    requires |b| > 1 && !b[0]
    ensures Even(Signed(b))
  {
    var u: int, p: int := Unsigned(b[1..]), Pow2(|b| - 1);
    var x: int := u - if b[|b| - 1] then p else 0;
    assert Signed(b) == 2 * x;
    TwiceIsEven(x);
  }

  /** Branches only hold even displacements. */
  lemma DisplacementIsEven(kind: Kind, b: seq<Octet>)
    requires IsBranch(kind) && |b| == if kind in {RVC_BRANCH, RVC_JUMP} then 2 else 4
    ensures Even(Displacement(kind, b))
  {
    if kind == JAL {
      EvenImmediate(JBits(WordOf(b)));
    } else if kind == BRANCH {
      EvenImmediate(BBits(WordOf(b)));
    } else if kind == RVC_BRANCH {
      EvenImmediate(CBBits(HalfOf(b)));
    } else {
      EvenImmediate(CJBits(HalfOf(b)));
    }
  }

  /** All bits but those of the displacement are the original ones. */
  predicate SameBranch(kind: Kind, was: seq<Octet>, now: seq<Octet>)
    requires IsBranch(kind) && |was| == |now| == if kind in {RVC_BRANCH, RVC_JUMP} then 2 else 4
  {
    if kind == JAL then WordOf(now)[..12] == WordOf(was)[..12]
    else if kind == BRANCH then WordOf(now)[..7] == WordOf(was)[..7] && WordOf(now)[12..25] == WordOf(was)[12..25]
    else
      HalfOf(now)[..2] == HalfOf(was)[..2] && HalfOf(now)[13..] == HalfOf(was)[13..] &&
      (kind == RVC_BRANCH ==> HalfOf(now)[7..10] == HalfOf(was)[7..10])
  }

  lemma WordBranchStays(kind: Kind, v: int, cur: seq<Octet>)
    requires kind in {JAL, BRANCH} && |cur| == 4
    ensures SameBranch(kind, cur, PatchRelative(kind, v, cur))
  {
    var w := WordOf(cur);
    if kind == JAL {
      OctetsOfWord(WriteJType(w, U(v)));
      JTypeKeeps(w, U(v));
    } else {
      OctetsOfWord(WriteBType(w, U(v)));
      BTypeKeeps(w, U(v));
    }
  }

  lemma JTypeKeeps(w: Word, val: Word)
    ensures WriteJType(w, val)[..12] == w[..12]
  {
  }

  lemma BTypeKeeps(w: Word, val: Word)
    ensures WriteBType(w, val)[..7] == w[..7] && WriteBType(w, val)[12..25] == w[12..25]
  {
  }

  lemma HalfBranchStays(kind: Kind, v: int, cur: seq<Octet>)
    requires kind in {RVC_BRANCH, RVC_JUMP} && |cur| == 2
    ensures SameBranch(kind, cur, PatchRelative(kind, v, cur))
  {
    var h := HalfOf(cur);
    if kind == RVC_BRANCH {
      OctetsOfHalf(WriteCBType(h, U(v)));
      CBTypeKeeps(h, U(v));
    } else {
      OctetsOfHalf(WriteCJType(h, U(v)));
      CJTypeKeeps(h, U(v));
    }
  }

  lemma CBTypeKeeps(h: Half, val: Word)
    ensures WriteCBType(h, val)[..2] == h[..2] && WriteCBType(h, val)[7..10] == h[7..10]
    ensures WriteCBType(h, val)[13..] == h[13..]
  {
  }

  lemma CJTypeKeeps(h: Half, val: Word)
    ensures WriteCJType(h, val)[..2] == h[..2] && WriteCJType(h, val)[13..] == h[13..]
  {
  }

  /** The original instruction with a displacement of v, exactly if v is even. */
  predicate BranchTo(kind: Kind, was: seq<Octet>, now: seq<Octet>, v: int) {
    IsBranch(kind) && |was| == |now| == (if kind in {RVC_BRANCH, RVC_JUMP} then 2 else 4) &&
    SameBranch(kind, was, now) && (Displacement(kind, now) == v <==> Even(v))
  }

  lemma PatchedBranch(kind: Kind, v: int, cur: seq<Octet>)
    requires IsBranch(kind) && |cur| == (if kind in {RVC_BRANCH, RVC_JUMP} then 2 else 4) && RelativeInReach(kind, v)
    ensures BranchTo(kind, cur, PatchRelative(kind, v, cur), v)
  {
    if kind in {JAL, BRANCH} {
      WordBranchStays(kind, v, cur);
    } else {
      HalfBranchStays(kind, v, cur);
    }
    DisplacementIsEven(kind, PatchRelative(kind, v, cur));
    if Even(v) {
      CheckedBranchesDecode(kind, v, cur);
    }
  }

  lemma WrittenBranch(env: Env, job: Job, out: seq<Octet>, i: nat)
    requires Relaxed(env, job) && Written(env, job, out) && i < |job.rels| && IsBranch(job.rels[i].kind)
    ensures job.Valid() && job.RelValid(i) && job.Place(i).at + job.Place(i).len <= |out|
    ensures job.rels[i].Extent() == (if job.rels[i].kind in {RVC_BRANCH, RVC_JUMP} then 2 else 4)
    ensures job.rels[i].offset + job.rels[i].Extent() <= |job.contents|
    ensures At(out, job.Place(i)) ==
            PatchRelative(job.rels[i].kind, job.Value(i),
                          job.contents[job.rels[i].offset..job.rels[i].offset + job.rels[i].Extent()])
  {
    KeepsLength(env, job, i);
    WrittenPatch(env, job, out, i);
  }

  /**
   If no error was reported, every branch and jump of the written section is the original instruction with its
   own S + A - P as displacement, exactly if that is even.
   */
  lemma BranchesReach(env: Env, job: Job, out: seq<Octet>, i: nat)
    requires Relaxed(env, job) && Written(env, job, out) && AllInReach(job, |job.rels|)
    requires i < |job.rels| && IsBranch(job.rels[i].kind)
    ensures job.RelValid(i) && job.Place(i).at + job.Place(i).len <= |out|
    ensures job.rels[i].offset + job.rels[i].Extent() <= |job.contents|
    ensures BranchTo(job.rels[i].kind, job.contents[job.rels[i].offset..job.rels[i].offset + job.rels[i].Extent()],
                     At(out, job.Place(i)), job.Value(i))
  {
    var r := job.rels[i];
    WrittenBranch(env, job, out, i);
    assert InReach(job, i);
    PatchedBranch(r.kind, job.Value(i), job.contents[r.offset..r.offset + r.Extent()]);
  }

  /** The distance from relocation i to a symbol of the section once both have moved. */
  lemma {:induction false} BranchDistance(env: Env, job: Job, i: nat, value: nat)
    requires Relaxed(env, job) && i < |job.rels| && IsBranch(job.rels[i].kind) && job.rels[i].addend == 0
    requires job.rels[i].sym < |env.symAddr| && !StrictlyInside(CutsOf(env, job), value)
    requires job.fin.symAddr[job.rels[i].sym] == job.fin.addr + NewPos(CutsOf(env, job), value)
    ensures Shrinks(value - job.rels[i].offset, job.Value(i))
  {
    PlaceIsNewPos(env, job, i);
    FinalDistanceShrinks(env, job.contents, job.rels, i, value);
    assert job.Value(i) == FinalDistance(env, job.contents, job.rels, i, value);
  }

  lemma ReachShrinks(kind: Kind, dist: int, dist': int)
    requires IsBranch(kind) && RelativeInReach(kind, dist) && Shrinks(dist, dist')
    ensures RelativeInReach(kind, dist')
  {
  }

  /** A branch to a symbol of its own section, in reach before relaxation. */
  ghost predicate BranchInside(env: Env, job: Job, i: nat, value: nat)
    requires Relaxed(env, job)
  {
    i < |job.rels| && IsBranch(job.rels[i].kind) && job.rels[i].addend == 0 && job.rels[i].sym < |env.symAddr| &&
    !StrictlyInside(CutsOf(env, job), value) &&
    job.fin.symAddr[job.rels[i].sym] == job.fin.addr + NewPos(CutsOf(env, job), value) &&
    RelativeInReach(job.rels[i].kind, value - job.rels[i].offset) && Even(value - job.rels[i].offset)
  }

  /** Relaxation keeps it in reach, so that it raises no error. */
  lemma {:induction false} BranchStaysInReach(env: Env, job: Job, i: nat, value: nat)
    requires Relaxed(env, job) && BranchInside(env, job, i, value)
    ensures job.RelValid(i) && InReach(job, i) && Even(job.Value(i))
  {
    RelaxedRelValid(env, job, i);
    BranchDistance(env, job, i, value);
    ReachShrinks(job.rels[i].kind, value - job.rels[i].offset, job.Value(i));
  }

  /** And it lands on the symbol's new address. */
  lemma {:induction false} BranchLandsOnTarget(env: Env, job: Job, out: seq<Octet>, i: nat, value: nat)
    requires Relaxed(env, job) && Written(env, job, out) && BranchInside(env, job, i, value)
    ensures job.RelValid(i) && job.Place(i).at + job.Place(i).len <= |out|
    ensures job.Place(i).len == if job.rels[i].kind in {RVC_BRANCH, RVC_JUMP} then 2 else 4
    ensures Displacement(job.rels[i].kind, At(out, job.Place(i))) ==
            job.fin.symAddr[job.rels[i].sym] - (job.fin.addr + job.Place(i).at)
  {
    BranchStaysInReach(env, job, i, value);
    WrittenBranch(env, job, out, i);
    BranchValue(job, i);
    var r := job.rels[i];
    DecodedBranch(r.kind, job.Value(i), job.contents[r.offset..r.offset + r.Extent()], At(out, job.Place(i)));
  }

  lemma DecodedBranch(kind: Kind, v: int, cur: seq<Octet>, now: seq<Octet>)
    requires IsBranch(kind) && |cur| == (if kind in {RVC_BRANCH, RVC_JUMP} then 2 else 4)
    requires RelativeInReach(kind, v) && Even(v) && now == PatchRelative(kind, v, cur)
    ensures |now| == |cur| && Displacement(kind, now) == v
  {
    CheckedBranchesDecode(kind, v, cur);
  }

  lemma BranchValue(job: Job, i: nat)
    requires job.Valid() && i < |job.rels| && job.RelValid(i) && IsBranch(job.rels[i].kind) && job.rels[i].addend == 0
    ensures job.Value(i) == job.fin.symAddr[job.rels[i].sym] - (job.fin.addr + job.Place(i).at)
  {
  }

  /** An AUIPC and the JALR after it, made from one value. */
  ghost predicate FullCall(hi0: Word, lo0: Word, b: seq<Octet>, v: int) {
    |b| == 8 && HoldsTogether(PCREL_LO12_I, hi0, lo0, WordOf(b[..4]), WordOf(b[4..]), v) &&
    (SignedUImm(WordOf(b[..4])) + IImm(WordOf(b[4..])) == v <==> -0x8000_0800 <= v < 0x7fff_f800)
  }

  lemma FullCallDecodes(hi0: Word, lo0: Word, v: int)
    ensures FullCall(hi0, lo0, Octets(WriteUType(hi0, U(v))) + Octets(WriteIType(lo0, U(v))), v)
  {
    var h, l := WriteUType(hi0, U(v)), WriteIType(lo0, U(v));
    var b := Octets(h) + Octets(l);
    assert b[..4] == Octets(h) && b[4..] == Octets(l);
    OctetsOfWord(h);
    OctetsOfWord(l);
    LoadWords(hi0, lo0, v);
    PairReaches(hi0, lo0, v);
  }

  lemma PatchedCall(rd: nat, v: int, weak: bool, cur: seq<Octet>)
    requires |cur| == 8
    ensures FullCall(WordOf(cur[..4]), WordOf(cur[4..]), CallPatch(0, rd, v, weak, cur), if weak then 0 else v)
  {
    FullCallDecodes(WordOf(cur[..4]), WordOf(cur[4..]), if weak then 0 else v);
  }

  /** The eight bytes of a call. */
  function CallBytes(job: Job, i: nat): (b: seq<Octet>)
    requires i < |job.rels| && job.rels[i].offset + 8 <= |job.contents|
    ensures |b| == 8
  {
    job.contents[job.rels[i].offset..job.rels[i].offset + 8]
  }

  /** What becomes of the bytes of call i. */
  ghost predicate IsFullCall(job: Job, i: nat, was: seq<Octet>, now: seq<Octet>)
    requires job.Valid() && i < |job.rels| && job.RelValid(i) && |was| == 8
  {
    FullCall(WordOf(was[..4]), WordOf(was[4..]), now,
             if job.fin.undefWeak[job.rels[i].sym] then 0 else job.Value(i))
  }

  lemma FullPatch(job: Job, i: nat, cur: seq<Octet>, now: seq<Octet>)
    requires job.Valid() && i < |job.rels| && job.RelValid(i) && job.rels[i].kind == CALL && job.Removed(i) == 0
    requires |cur| == job.Place(i).len && now == Patch1(job, i, cur)
    ensures |cur| == 8 && IsFullCall(job, i, cur, now)
  {
    PatchedCall(job.CallRd(i), job.Value(i), job.fin.undefWeak[job.rels[i].sym], cur);
  }

  lemma WrittenCall(env: Env, job: Job, out: seq<Octet>, i: nat)
    requires Relaxed(env, job) && Written(env, job, out)
    requires i < |job.rels| && job.rels[i].kind == CALL && job.Removed(i) == 0
    ensures job.Valid() && job.RelValid(i) && job.Place(i).len == 8 && job.Place(i).at + 8 <= |out|
    ensures At(out, job.Place(i)) == Patch1(job, i, CallBytes(job, i))
  {
    WrittenPatch(env, job, out, i);
  }

  /**
   A call that was not shortened: its two parts add up to S + A - P modulo 2^32 with all other bits the original
   ones, and to nothing for an undefined weak symbol.
   */
  lemma FullCallsReach(env: Env, job: Job, out: seq<Octet>, i: nat)
    requires Relaxed(env, job) && Written(env, job, out)
    requires i < |job.rels| && job.rels[i].kind == CALL && job.Removed(i) == 0
    ensures job.RelValid(i) && job.Place(i).at + job.Place(i).len <= |out|
    ensures IsFullCall(job, i, CallBytes(job, i), At(out, job.Place(i)))
  {
    WrittenCall(env, job, out, i);
    FullPatch(job, i, CallBytes(job, i), At(out, job.Place(i)));
  }

  /** Without a range error a 64-bit machine gets there too, exactly unless the distance is one of the last 0x800. */
  lemma CheckedCallsReach(env: Env, job: Job, out: seq<Octet>, i: nat)
    requires Relaxed(env, job) && Written(env, job, out) && AllInReach(job, |job.rels|)
    requires i < |job.rels| && job.rels[i].kind == CALL && job.Removed(i) == 0
    requires job.rels[i].sym < |job.fin.undefWeak| && !job.fin.undefWeak[job.rels[i].sym]
    ensures job.RelValid(i) && job.Place(i).len == 8 && job.Place(i).at + 8 <= |out|
    ensures
      var b := At(out, job.Place(i));
      SignedUImm(WordOf(b[..4])) + IImm(WordOf(b[4..])) == job.Value(i) <==> job.Value(i) < 0x7fff_f800
  {
    FullCallsReach(env, job, out, i);
    assert InReach(job, i);
  }

  // ---- absolute and thread-local pairs

  function GetRs1(w: Word): nat {
    Unsigned(w[15..20])
  }

  function LowImm(store: bool, w: Word): int {
    if store then SImm(w) else IImm(w)
  }

  /**
   The load or store addresses v.  Its base register is one that holds zero (or the thread pointer, from which v
   is counted), or the one that an instruction which is still there has filled with the upper part.
   */
  predicate Addresses(zero: nat, kept: bool, hi: Word, store: bool, lo: Word, v: int) {
    if GetRs1(lo) == zero then LowImm(store, lo) == v
    else
      kept && GetRs1(lo) == GetRd(hi) &&
      (UImm(hi) + LowImm(store, lo)) % 0x1_0000_0000 == v % 0x1_0000_0000
  }

  predicate Fits12(v: int) {
    -0x800 <= v < 0x800
  }

  lemma BaseStays(store: bool, w: Word, v: int)
    ensures GetRs1(if store then WriteSType(w, U(v)) else WriteIType(w, U(v))) == GetRs1(w)
  {
    var x := if store then WriteSType(w, U(v)) else WriteIType(w, U(v));
    assert x[15..20] == w[15..20];
  }

  lemma Rs1Bits(w: Word, rs1: nat)
    ensures SetRs1(w, rs1)[15..20] == ToBits(rs1, 5)
  {
    forall k | 0 <= k < 5 ensures SetRs1(w, rs1)[15..20][k] == ToBits(rs1, 5)[k] {
      assert SetRs1(w, rs1)[15 + k] == BitOf(rs1, k);
    }
  }

  lemma BaseIsSet(w: Word, rs1: nat)
    requires rs1 < 32
    ensures GetRs1(SetRs1(w, rs1)) == rs1
  {
    Rs1Bits(w, rs1);
    RegisterBits(rs1);
  }

  lemma UpperKeepsRd(hi: Word, v: int)
    ensures GetRd(WriteUType(hi, U(v))) == GetRd(hi)
  {
    assert WriteUType(hi, U(v))[7..12] == hi[7..12];
  }

  lemma ShortAddresses(zero: nat, kept: bool, hi: Word, store: bool, lo0: Word, v: int)
    requires zero < 32 && Fits12(v) && SignExtend(v, 11) == v
    ensures Addresses(zero, kept, hi, store, LowPatch(store, lo0, v, zero), v) <==> v >= 0
  {
    RelaxedLow(store, lo0, v, zero);
    BaseIsSet(if store then WriteSType(lo0, U(v)) else WriteIType(lo0, U(v)), zero);
  }

  lemma LongAddresses(zero: nat, kept: bool, hi0: Word, store: bool, lo0: Word, v: int)
    requires GetRs1(lo0) == GetRd(hi0) != zero && SignExtend(v, 11) != v
    ensures Addresses(zero, kept, WriteUType(hi0, U(v)), store, LowPatch(store, lo0, v, zero), v) <==> kept
  {
    BaseStays(store, lo0, v);
    UpperKeepsRd(hi0, v);
    if store {
      StorePairReaches(hi0, lo0, v);
    } else {
      PairReaches(hi0, lo0, v);
    }
  }

  /** A pair made from one value addresses it if the value needs a base that is there, or needs none and has no sign. */
  lemma PairAddresses(zero: nat, kept: bool, hi0: Word, store: bool, lo0: Word, v: int)
    requires zero < 32 && GetRs1(lo0) == GetRd(hi0) != zero
    ensures Addresses(zero, kept, WriteUType(hi0, U(v)), store, LowPatch(store, lo0, v, zero), v) <==>
            if Fits12(v) then v >= 0 else kept
  {
    PowersOfTwo();
    SignExtendFits(v, 11);
    if Fits12(v) {
      ShortAddresses(zero, kept, WriteUType(hi0, U(v)), store, lo0, v);
    } else {
      LongAddresses(zero, kept, hi0, store, lo0, v);
    }
  }

  predicate IsUpper(kind: Kind) {
    kind == HI20 || kind == TPREL_HI20
  }

  predicate IsLower(kind: Kind) {
    kind in {LO12_I, LO12_S, TPREL_LO12_I, TPREL_LO12_S}
  }

  predicate IsStore(kind: Kind) {
    kind == LO12_S || kind == TPREL_LO12_S
  }

  predicate IsThreadLocal(kind: Kind) {
    kind in {TPREL_HI20, TPREL_LO12_I, TPREL_LO12_S}
  }

  /** x0 for absolute addresses, the thread pointer x4 for thread-local ones. */
  function ZeroReg(kind: Kind): nat {
    if IsThreadLocal(kind) then 4 else 0
  }

  predicate SameTarget(job: Job, i: nat, k: nat) {
    i < |job.rels| && k < |job.rels| && job.rels[i].sym == job.rels[k].sym && job.rels[i].addend == job.rels[k].addend
  }

  /**
   Relocations h and i are the two parts of one address, and the second instruction uses what the first sets.  For
   a thread-local address, relocation a is about the instruction between them, which adds the thread pointer.
   */
  ghost predicate HiLoPair(job: Job, h: nat, a: nat, i: nat) {
    SameTarget(job, h, i) && IsUpper(job.rels[h].kind) && IsLower(job.rels[i].kind) &&
    IsThreadLocal(job.rels[h].kind) == IsThreadLocal(job.rels[i].kind) &&
    (IsThreadLocal(job.rels[i].kind) ==> SameTarget(job, a, i) && job.rels[a].kind == TPREL_ADD) &&
    job.rels[h].offset + 4 <= |job.contents| && job.rels[i].offset + 4 <= |job.contents| &&
    GetRs1(WordAt(job.contents, job.rels[i].offset)) == GetRd(WordAt(job.contents, job.rels[h].offset)) &&
    GetRd(WordAt(job.contents, job.rels[h].offset)) != ZeroReg(job.rels[i].kind)
  }

  /** What fills the base register is still there. */
  ghost predicate BaseKept(job: Job, h: nat, a: nat, i: nat)
    requires HiLoPair(job, h, a, i) && |job.deltas| == |job.rels| + 1
  {
    job.Removed(h) == 0 && (IsThreadLocal(job.rels[i].kind) ==> job.Removed(a) == 0)
  }

  lemma PatchedLower(kind: Kind, v: int, cur: seq<Octet>)
    requires IsLower(kind) && |cur| == 4
    ensures WordOf(PatchAbsolute(kind, v, cur)) == LowPatch(IsStore(kind), WordOf(cur), v, ZeroReg(kind))
  {
    OctetsOfWord(LowPatch(IsStore(kind), WordOf(cur), v, ZeroReg(kind)));
  }

  lemma WrittenLow12(env: Env, job: Job, out: seq<Octet>, i: nat)
    requires Relaxed(env, job) && Written(env, job, out) && i < |job.rels| && IsLower(job.rels[i].kind)
    ensures job.RelValid(i) && job.Place(i).len == 4 && job.Place(i).at + 4 <= |out|
    ensures job.rels[i].offset + 4 <= |job.contents|
    ensures At(out, job.Place(i)) ==
            PatchAbsolute(job.rels[i].kind, job.Absolute(i),
                          job.contents[job.rels[i].offset..job.rels[i].offset + 4])
  {
    KeepsLength(env, job, i);
    WrittenPatch(env, job, out, i);
  }

  lemma WrittenLower(env: Env, job: Job, out: seq<Octet>, i: nat)
    requires Relaxed(env, job) && Written(env, job, out) && i < |job.rels| && IsLower(job.rels[i].kind)
    ensures job.RelValid(i) && job.Place(i).len == 4 && job.Place(i).at + 4 <= |out|
    ensures job.rels[i].offset + 4 <= |job.contents|
    ensures WordOf(At(out, job.Place(i))) ==
            LowPatch(IsStore(job.rels[i].kind), WordAt(job.contents, job.rels[i].offset), job.Absolute(i),
                     ZeroReg(job.rels[i].kind))
  {
    WrittenLow12(env, job, out, i);
    PatchedLower(job.rels[i].kind, job.Absolute(i), job.contents[job.rels[i].offset..job.rels[i].offset + 4]);
  }

  lemma PatchedUpper(kind: Kind, v: int, cur: seq<Octet>)
    requires IsUpper(kind) && |cur| == 4
    ensures WordOf(PatchAbsolute(kind, v, cur)) == WriteUType(WordOf(cur), U(v))
  {
    OctetsOfWord(WriteUType(WordOf(cur), U(v)));
  }

  lemma WrittenHi20(env: Env, job: Job, out: seq<Octet>, h: nat)
    requires Relaxed(env, job) && Written(env, job, out) && h < |job.rels| && IsUpper(job.rels[h].kind)
    requires job.Removed(h) == 0
    ensures job.RelValid(h) && job.Place(h).len == 4 && job.Place(h).at + 4 <= |out|
    ensures job.rels[h].offset + 4 <= |job.contents|
    ensures At(out, job.Place(h)) ==
            PatchAbsolute(job.rels[h].kind, job.Absolute(h),
                          job.contents[job.rels[h].offset..job.rels[h].offset + 4])
  {
    WrittenPatch(env, job, out, h);
  }

  lemma WrittenUpper(env: Env, job: Job, out: seq<Octet>, h: nat)
    requires Relaxed(env, job) && Written(env, job, out) && h < |job.rels| && IsUpper(job.rels[h].kind)
    requires job.Removed(h) == 0
    ensures job.RelValid(h) && job.Place(h).len == 4 && job.Place(h).at + 4 <= |out|
    ensures job.rels[h].offset + 4 <= |job.contents|
    ensures WordOf(At(out, job.Place(h))) ==
            WriteUType(WordAt(job.contents, job.rels[h].offset), U(job.Absolute(h)))
  {
    WrittenHi20(env, job, out, h);
    PatchedUpper(job.rels[h].kind, job.Absolute(h), job.contents[job.rels[h].offset..job.rels[h].offset + 4]);
  }

  /** The upper instruction as it is in the output, or as it was if it has been deleted. */
  ghost function UpperWord(job: Job, out: seq<Octet>, h: nat): Word
    requires h < |job.rels| && job.rels[h].offset + 4 <= |job.contents| && |job.deltas| == |job.rels| + 1
    requires job.Removed(h) == 0 ==>
               job.Valid() && job.RelValid(h) && job.Place(h).len == 4 && job.Place(h).at + 4 <= |out|
  {
    if job.Removed(h) == 0 then WordOf(At(out, job.Place(h))) else WordAt(job.contents, job.rels[h].offset)
  }

  /** The lower instruction is in the output, and so is the upper one unless it has been deleted. */
  ghost predicate PairPlaced(job: Job, out: seq<Octet>, h: nat, i: nat)
    requires h < |job.rels| && i < |job.rels|
  {
    job.Valid() && job.RelValid(i) && job.RelValid(h) && job.Place(i).len == 4 && job.Place(i).at + 4 <= |out| &&
    (job.Removed(h) == 0 ==> job.Place(h).len == 4 && job.Place(h).at + 4 <= |out|)
  }

  /** The two instructions address S + A. */
  ghost predicate PairWorks(job: Job, out: seq<Octet>, h: nat, a: nat, i: nat)
    requires HiLoPair(job, h, a, i) && PairPlaced(job, out, h, i)
  {
    Addresses(ZeroReg(job.rels[i].kind), BaseKept(job, h, a, i), UpperWord(job, out, h), IsStore(job.rels[i].kind),
              WordOf(At(out, job.Place(i))), job.Absolute(i))
  }

  lemma PairPlaces(env: Env, job: Job, out: seq<Octet>, h: nat, a: nat, i: nat)
    requires Relaxed(env, job) && Written(env, job, out) && HiLoPair(job, h, a, i)
    ensures PairPlaced(job, out, h, i)
  {
    WrittenLower(env, job, out, i);
    RelaxedRelValid(env, job, h);
    if job.Removed(h) == 0 {
      WrittenUpper(env, job, out, h);
    }
  }

  lemma SameAbsolute(job: Job, h: nat, a: nat, i: nat)
    requires HiLoPair(job, h, a, i) && job.rels[h].sym < |job.fin.symAddr|
    ensures job.Absolute(h) == job.Absolute(i)
  {
  }

  /**
   In the written section a HI20 or TPREL_HI20 and a LO12 of the same symbol and addend address S + A (from the
   thread pointer, for thread-local symbols), if and only if that does not fit twelve bits and what fills the
   base register is still there, or it fits and is not negative.
   */
  lemma HiLoAddresses(env: Env, job: Job, out: seq<Octet>, h: nat, a: nat, i: nat)
    requires Relaxed(env, job) && Written(env, job, out) && HiLoPair(job, h, a, i)
    ensures PairPlaced(job, out, h, i)
    ensures PairWorks(job, out, h, a, i) <==>
            if Fits12(job.Absolute(i)) then job.Absolute(i) >= 0 else BaseKept(job, h, a, i)
  {
    var hi0, lo0 := WordAt(job.contents, job.rels[h].offset), WordAt(job.contents, job.rels[i].offset);
    PairPlaces(env, job, out, h, a, i);
    WrittenLower(env, job, out, i);
    PairAddresses(ZeroReg(job.rels[i].kind), BaseKept(job, h, a, i), hi0, IsStore(job.rels[i].kind), lo0,
                  job.Absolute(i));
    if job.Removed(h) == 0 {
      WrittenUpper(env, job, out, h);
      SameAbsolute(job, h, a, i);
    }
  }

  /** The value that relaxation looked at. */
  function Foreseen(env: Env, job: Job, i: nat): int
    requires i < |job.rels| && job.rels[i].sym < |env.symAddr|
  {
    env.symAddr[job.rels[i].sym] + job.rels[i].addend -
      if IsThreadLocal(job.rels[i].kind) || job.rels[i].kind == TPREL_ADD then env.tpAddr else 0
  }

  /**
   So if the address is still what it was when relaxation looked at it, it is addressed exactly if it is
   not one of the 0x800 below zero.
   */
  lemma SteadyAddress(env: Env, job: Job, out: seq<Octet>, h: nat, a: nat, i: nat)
    requires Relaxed(env, job) && Written(env, job, out) && HiLoPair(job, h, a, i)
    requires job.rels[i].sym < |env.symAddr| && job.Absolute(i) == Foreseen(env, job, i)
    ensures PairPlaced(job, out, h, i)
    ensures PairWorks(job, out, h, a, i) <==> !(-0x800 <= job.Absolute(i) < 0)
  {
    HiLoAddresses(env, job, out, h, a, i);
    if !Fits12(Foreseen(env, job, i)) {
      BaseStaysIfNeeded(env, job, h, a, i);
    }
  }

  lemma BaseStaysIfNeeded(env: Env, job: Job, h: nat, a: nat, i: nat)
    requires Relaxed(env, job) && HiLoPair(job, h, a, i)
    requires job.rels[i].sym < |env.symAddr| && !Fits12(Foreseen(env, job, i))
    ensures BaseKept(job, h, a, i)
  {
    GoesOnlyIfItFits(env, job, h);
    if IsThreadLocal(job.rels[i].kind) {
      GoesOnlyIfItFits(env, job, a);
    }
  }

  lemma GoesOnlyIfItFits(env: Env, job: Job, h: nat)
    requires Relaxed(env, job) && h < |job.rels| && (IsUpper(job.rels[h].kind) || job.rels[h].kind == TPREL_ADD)
    ensures job.rels[h].sym < |env.symAddr| && (job.Removed(h) != 0 ==> Fits12(Foreseen(env, job, h)))
  {
    RemovedIsCut(env, job, h);
    RemovedIsLargest(env, job.contents, job.rels, h, job.deltas[h]);
  }
}
