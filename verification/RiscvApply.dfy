/**
 Writing relocated values into a relaxed RISC-V section (elf/arch-riscv.cc, apply_reloc_alloc).
 */
module RiscvApply {
  import opened Bits
  import opened Buffers
  import opened RiscvWords
  import opened ByteMap
  import opened RiscvRelax

  // ---- windows: the bytes of the output that a relocation is about

  datatype Window = Window(at: nat, len: nat)

  ghost predicate Layout(ws: seq<Window>, size: nat) {
    (forall i :: 0 <= i < |ws| ==> ws[i].at + ws[i].len <= size) &&
    forall i, j :: 0 <= i < j < |ws| && ws[i].len > 0 && ws[j].len > 0 ==> ws[i].at + ws[i].len <= ws[j].at
  }

  function At(buf: seq<Octet>, w: Window): seq<Octet>
    requires w.at + w.len <= |buf|
  {
    buf[w.at..w.at + w.len]
  }

  predicate Covers(w: Window, p: nat) {
    w.at <= p < w.at + w.len
  }

  ghost predicate Outside(ws: seq<Window>, p: nat) {
    forall i :: 0 <= i < |ws| ==> !Covers(ws[i], p)
  }

  /** The first i windows hold their new contents, everything else is as it was. */
  ghost predicate Updated(ws: seq<Window>, was: seq<Octet>, now: seq<Octet>, i: nat, vals: seq<seq<Octet>>) {
    |was| == |now| && |vals| == |ws| && i <= |ws| && Layout(ws, |was|) &&
    (forall j :: 0 <= j < |ws| ==> At(now, ws[j]) == if j < i then vals[j] else At(was, ws[j])) &&
    (forall p :: 0 <= p < |was| && Outside(ws, p) ==> now[p] == was[p])
  }

  lemma UpdatedStep(ws: seq<Window>, was: seq<Octet>, now: seq<Octet>, i: nat, vals: seq<seq<Octet>>)
    requires Updated(ws, was, now, i, vals) && i < |ws| && |vals[i]| == ws[i].len
    ensures Updated(ws, was, Splice(now, ws[i].at, vals[i]), i + 1, vals)
  {
    var next := Splice(now, ws[i].at, vals[i]);
    assert At(next, ws[i]) == vals[i];
    forall p: nat | p < |was| && !Covers(ws[i], p) ensures next[p] == now[p] {
    }
    forall j | 0 <= j < |ws| && j != i ensures At(next, ws[j]) == At(now, ws[j]) {
      forall p | ws[j].at <= p < ws[j].at + ws[j].len ensures next[p] == now[p] {
        assert !Covers(ws[i], p);
      }
    }
  }

  // ---- the final layout

  /** Addresses after relaxation; `value` is a symbol's offset within the section. */
  datatype Final = Final(
    addr: nat, tpAddr: int, symAddr: seq<int>, gotAddr: seq<int>, gottpAddr: seq<int>, tlsgdAddr: seq<int>,
    undefWeak: seq<bool>, value: seq<nat>)

  datatype Job = Job(fin: Final, contents: seq<Octet>, rels: seq<Rel>, deltas: seq<int>) {
    function Removed(i: nat): int
      requires i < |rels| && |deltas| == |rels| + 1
    {
      deltas[i + 1] - deltas[i]
    }

    /** Everything an index needs: symbols are known, and what is removed is part of the relocated bytes. */
    ghost predicate Valid() {
      |deltas| == |rels| + 1 &&
      |fin.symAddr| == |fin.gotAddr| == |fin.gottpAddr| == |fin.tlsgdAddr| == |fin.undefWeak| == |fin.value| &&
      forall i :: 0 <= i < |rels| ==> RelValid(i)
    }

    ghost predicate RelValid(i: nat)
      requires i < |rels| && |deltas| == |rels| + 1
    {
      var r, removed := rels[i], Removed(i);
      r.sym < |fin.symAddr| && 0 <= removed <= r.Extent() && r.offset + r.Extent() <= |contents| &&
      (r.Extent() > 0 ==> deltas[i] <= r.offset) &&
      (r.kind == CALL ==> removed in {0, 4} || (removed == 6 && CallRd(i) in {0, 1})) &&
      (r.kind == ALIGN ==> (r.addend - removed) % 2 == 0) &&
      (r.kind in {HI20, TPREL_HI20, TPREL_ADD} ==> removed in {0, 4}) &&
      (r.kind !in {CALL, ALIGN, HI20, TPREL_HI20, TPREL_ADD} ==> removed == 0)
    }

    /** Where the relocated bytes are in the output; nothing at all for R_NONE and R_RISCV_RELAX. */
    function Place(i: nat): Window
      requires i < |rels| && |deltas| == |rels| + 1
      requires rels[i].Extent() > 0 ==> deltas[i] <= rels[i].offset && Removed(i) <= rels[i].Extent()
    {
      if rels[i].Extent() <= 0 then Window(0, 0)
      else Window(rels[i].offset - deltas[i], rels[i].Extent() - Removed(i))
    }

    ghost function Places(): (ws: seq<Window>)
      requires Valid()
      ensures |ws| == |rels|
    {
      seq(|rels|, i requires 0 <= i < |rels| => assert RelValid(i); Place(i))
    }

    /** S + A - P, with S depending on the relocation. */
    function Value(i: nat): int
      requires i < |rels| && |deltas| == |rels| + 1
      requires |fin.symAddr| == |fin.gotAddr| == |fin.gottpAddr| == |fin.tlsgdAddr|
      requires rels[i].sym < |fin.symAddr|
    {
      var r := rels[i];
      var s := match r.kind
        case GOT_HI20 => fin.gotAddr[r.sym]
        case TLS_GOT_HI20 => fin.gottpAddr[r.sym]
        case TLS_GD_HI20 => fin.tlsgdAddr[r.sym]
        case _ => fin.symAddr[r.sym];
      s + r.addend - (fin.addr + r.offset - deltas[i])
    }

    /** S + A, relative to the thread pointer for thread-local symbols. */
    function Absolute(i: nat): int
      requires i < |rels| && rels[i].sym < |fin.symAddr|
    {
      fin.symAddr[rels[i].sym] + rels[i].addend -
        if rels[i].kind in {TPREL_HI20, TPREL_LO12_I, TPREL_LO12_S} then fin.tpAddr else 0
    }

    /** The register a call links to, read from the original JALR. */
    function CallRd(i: nat): nat
      requires i < |rels| && rels[i].offset + 8 <= |contents|
    {
      GetRd(WordAt(contents, rels[i].offset + 4))
    }

    predicate IsHi(i: nat)
      requires i < |rels|
    {
      rels[i].kind in {PCREL_HI20, GOT_HI20, TLS_GOT_HI20, TLS_GD_HI20}
    }

    predicate IsLo(i: nat)
      requires i < |rels|
    {
      rels[i].kind in {PCREL_LO12_I, PCREL_LO12_S}
    }
  }

  // ---- instructions made from scratch

  function JalWord(rd: nat): Word {
    seq(32, k requires 0 <= k < 32 => k in {0, 1, 2, 3, 5, 6} || (7 <= k < 12 && BitOf(rd, k - 7)))
  }

  /** c.j for x0, c.jal for x1. */
  function ShortJump(rd: nat): Half {
    seq(16, k requires 0 <= k < 16 => k == 0 || k == 13 || (k == 15 && rd == 0))
  }

  function Nop(): Word {
    ToBits(0x13, 32)
  }

  function CNop(): Half {
    ToBits(1, 16)
  }

  function NopOctets(): (r: seq<Octet>)
    ensures |r| == 4
  {
    Octets(Nop())
  }

  function CNopOctets(): (r: seq<Octet>)
    ensures |r| == 2
  {
    Octets(CNop())
  }

  /** Padding: 4-byte NOPs, and a 2-byte one if two bytes are left. */
  function Nops(n: nat): (r: seq<Octet>)
    requires n % 2 == 0
    ensures |r| == n
  {
    if n >= 4 then NopOctets() + Nops(n - 4) else if n == 2 then CNopOctets() else []
  }

  /** A decoder walking over the bytes sees NOP instructions that end exactly with the padding. */
  ghost predicate IsNopSled(b: seq<Octet>)
    decreases |b|
  {
    b == [] ||
    (|b| >= 4 && b[0][0] && b[0][1] && WordOf(b[..4]) == Nop() && IsNopSled(b[4..])) ||
    (|b| >= 2 && !(b[0][0] && b[0][1]) && HalfOf(b[..2]) == CNop() && IsNopSled(b[2..]))
  }

  lemma {:induction false} NopsAreASled(n: nat)
    requires n % 2 == 0
    ensures IsNopSled(Nops(n))
  {
    if n >= 4 {
      NopsAreASled(n - 4);
      OctetsOfWord(Nop());
      var b := Nops(n);
      assert b[..4] == Octets(Nop()) && b[4..] == Nops(n - 4);
      assert BitOf(0x13, 0) && BitOf(0x13, 1) by {
        assert Pow2(0) == 1 && Pow2(1) == 2;
      }
      assert Nop()[0] && Nop()[1];
    } else if n == 2 {
      OctetsOfHalf(CNop());
      var b := Nops(n);
      assert b[..2] == b && b[2..] == [];
      assert !BitOf(1, 1) by {
        assert Pow2(1) == 2;
      }
      assert !CNop()[1];
    }
  }

  // ---- what each pass writes

  function U(v: int): Word {
    ToBits(v, 32)
  }

  function CallPatch(removed: int, rd: nat, v: int, weak: bool, cur: seq<Octet>): (r: seq<Octet>)
    requires removed in {0, 4, 6} && |cur| == 8 - removed
    ensures |r| == |cur|
  {
    if removed == 4 then Octets(WriteJType(JalWord(rd), U(v)))
    else if removed == 6 then Octets(WriteCJType(ShortJump(rd), U(v)))
    else
      var val := if weak then 0 else v;
      Octets(WriteUType(WordOf(cur[..4]), U(val))) + Octets(WriteIType(WordOf(cur[4..]), U(val)))
  }

  /** A LO12 instruction whose value fits by itself no longer needs the upper part. */
  function LowPatch(store: bool, w: Word, v: int, rs1: nat): Word {
    var x := if store then WriteSType(w, U(v)) else WriteIType(w, U(v));
    if SignExtend(v, 11) == v then SetRs1(x, rs1) else x
  }

  /** Relocations that hold the distance to their target. */
  function PatchRelative(kind: Kind, v: int, cur: seq<Octet>): (r: seq<Octet>)
    requires |cur| == if kind in {RVC_BRANCH, RVC_JUMP} then 2 else 4
    ensures |r| == |cur|
  {
    match kind
    case JAL => Octets(WriteJType(WordOf(cur), U(v)))
    case BRANCH => Octets(WriteBType(WordOf(cur), U(v)))
    case RVC_BRANCH => Octets(WriteCBType(HalfOf(cur), U(v)))
    case RVC_JUMP => Octets(WriteCJType(HalfOf(cur), U(v)))
    case _ => Octets(U(v))
  }

  predicate IsRelative(kind: Kind) {
    kind in {JAL, BRANCH, RVC_BRANCH, RVC_JUMP, PCREL_HI20, GOT_HI20, TLS_GOT_HI20, TLS_GD_HI20}
  }

  /** Relocations that hold an address, or an offset from the thread pointer. */
  function PatchAbsolute(kind: Kind, val: int, cur: seq<Octet>): (r: seq<Octet>)
    requires |cur| == 4
    ensures |r| == 4
  {
    match kind
    case HI20 => Octets(WriteUType(WordOf(cur), U(val)))
    case TPREL_HI20 => Octets(WriteUType(WordOf(cur), U(val)))
    case LO12_I => Octets(LowPatch(false, WordOf(cur), val, 0))
    case LO12_S => Octets(LowPatch(true, WordOf(cur), val, 0))
    case TPREL_LO12_I => Octets(LowPatch(false, WordOf(cur), val, 4))
    case TPREL_LO12_S => Octets(LowPatch(true, WordOf(cur), val, 4))
    case _ => cur
  }

  /** The first pass; cur is what is at the relocated place. */
  function Patch1(job: Job, i: nat, cur: seq<Octet>): (r: seq<Octet>)
    requires job.Valid() && i < |job.rels| && job.RelValid(i) && |cur| == job.Place(i).len
    ensures |r| == |cur|
  {
    var kind := job.rels[i].kind;
    if kind == CALL then
      CallPatch(job.Removed(i), job.CallRd(i), job.Value(i), job.fin.undefWeak[job.rels[i].sym], cur)
    else if kind == ALIGN then Nops(|cur|)
    else if IsRelative(kind) then PatchRelative(kind, job.Value(i), cur)
    else if |cur| == 4 then PatchAbsolute(kind, job.Absolute(i), cur)
    else cur
  }

  /** The second pass gives a PCREL_LO12 the value parked at its HI20. */
  function Patch2(kind: Kind, cur: seq<Octet>, parked: Word): (r: seq<Octet>)
    requires |cur| == 4
    ensures |r| == 4
  {
    Octets(if kind == PCREL_LO12_I then WriteIType(WordOf(cur), parked) else WriteSType(WordOf(cur), parked))
  }

  /** The third pass restores the HI20 instruction and gives it the parked value. */
  function Patch3(original: Word, cur: seq<Octet>): (r: seq<Octet>)
    requires |cur| == 4
    ensures |r| == 4
  {
    Octets(WriteUType(original, WordOf(cur)))
  }

  // ---- the method itself

  /** What the range checks of the first pass demand. */
  predicate InReach(job: Job, i: nat)
    requires i < |job.rels| && |job.deltas| == |job.rels| + 1
    requires |job.fin.symAddr| == |job.fin.gotAddr| == |job.fin.gottpAddr| == |job.fin.tlsgdAddr|
    requires |job.fin.symAddr| == |job.fin.undefWeak| && job.rels[i].sym < |job.fin.symAddr|
  {
    var kind := job.rels[i].kind;
    if kind == CALL then
      job.Removed(i) > 0 || job.fin.undefWeak[job.rels[i].sym] || -0x8000_0000 <= job.Value(i) < 0x8000_0000
    else if kind == HI20 then
      job.Removed(i) > 0 || -0x8000_0000 <= job.Absolute(i) < 0x8000_0000
    else RelativeInReach(kind, job.Value(i))
  }

  predicate RelativeInReach(kind: Kind, v: int) {
    match kind
    case BRANCH => -0x1000 <= v < 0x1000
    case JAL => -0x10_0000 <= v < 0x10_0000
    case RVC_BRANCH => -0x100 <= v < 0x100
    case RVC_JUMP => -0x800 <= v < 0x800
    case _ => true
  }

  /** The first |done| bytes of the padding have been written. */
  ghost predicate NopsUpTo(was: seq<Octet>, now: seq<Octet>, at: nat, n: nat, done: seq<Octet>)
    requires n % 2 == 0
  {
    at + n <= |was| && |done| <= n && |done| % 2 == 0 && done + Nops(n - |done|) == Nops(n) &&
    now == Splice(was, at, done)
  }

  lemma NopsStep(was: seq<Octet>, now: seq<Octet>, at: nat, n: nat, done: seq<Octet>)
    requires n % 2 == 0 && NopsUpTo(was, now, at, n, done) && |done| + 4 <= n
    ensures NopsUpTo(was, Splice(now, at + |done|, NopOctets()), at, n, done + NopOctets())
  {
    NopsMore(n, done);
    SpliceMore(was, at, done, NopOctets());
  }

  lemma NopsMore(n: nat, done: seq<Octet>)
    requires n % 2 == 0 && |done| + 4 <= n && |done| % 2 == 0 && done + Nops(n - |done|) == Nops(n)
    ensures (done + NopOctets()) + Nops(n - |done + NopOctets()|) == Nops(n)
  {
    var rest := Nops(n - |done| - 4);
    assert Nops(n - |done|) == NopOctets() + rest;
    assert (done + NopOctets()) + rest == done + (NopOctets() + rest);
  }

  lemma NopsEnd(was: seq<Octet>, now: seq<Octet>, at: nat, n: nat, done: seq<Octet>)
    requires n % 2 == 0 && NopsUpTo(was, now, at, n, done) && n - 4 < |done|
    ensures |done| < n ==>
              |done| + 2 == n && Splice(now, at + |done|, CNopOctets()) == Splice(was, at, Nops(n))
    ensures |done| == n ==> done == Nops(n)
  {
    if |done| < n {
      assert Nops(n - |done|) == CNopOctets();
      SpliceMore(was, at, done, CNopOctets());
    } else {
      assert Nops(0) == [];
    }
  }

  lemma NopsStart(was: seq<Octet>, at: nat, n: nat)
    requires n % 2 == 0 && at + n <= |was|
    ensures NopsUpTo(was, was, at, n, [])
  {
    assert Splice(was, at, []) == was;
    assert [] + Nops(n) == Nops(n);
  }

  method WriteNop(buf: array<Octet>, at: nat, n: nat, i: nat, ghost was: seq<Octet>, ghost done: seq<Octet>)
    returns (ghost next: seq<Octet>)
    requires n % 2 == 0 && i == |done| && i + 4 <= n && |was| == buf.Length && NopsUpTo(was, buf[..], at, n, done)
    modifies buf
    ensures |next| == i + 4 && NopsUpTo(was, buf[..], at, n, next)
  {
    NopsStep(was, buf[..], at, n, done);
    Overwrite(buf, at + i, NopOctets());
    next := done + NopOctets();
  }

  /** Padding, four bytes at a time. */
  method WriteNops(buf: array<Octet>, at: nat, n: nat)
    requires at + n <= buf.Length && n % 2 == 0
    modifies buf
    ensures buf[..] == Splice(old(buf[..]), at, Nops(n))
  {
    ghost var was, done: seq<Octet> := buf[..], [];
    var i: nat := 0;
    NopsStart(was, at, n);
    while i + 4 <= n
      invariant i <= n && i == |done| && |was| == buf.Length && NopsUpTo(was, buf[..], at, n, done)
    {
      done := WriteNop(buf, at, n, i, was, done);
      i := i + 4;
    }
    NopsEnd(was, buf[..], at, n, done);
    if i < n {
      Overwrite(buf, at + i, CNopOctets());
    }
  }

  method Overwrite(buf: array<Octet>, at: nat, src: seq<Octet>)
    requires at + |src| <= buf.Length
    modifies buf
    ensures buf[..] == Splice(old(buf[..]), at, src)
  {
    Memcpy(buf, at, src);
  }

  /** The CALL case. */
  method ApplyCall(job: Job, i: nat, cur: seq<Octet>) returns (ok: bool, src: seq<Octet>)
    requires job.Valid() && i < |job.rels| && job.RelValid(i) && job.rels[i].kind == CALL
    requires |cur| == job.Place(i).len
    ensures ok == InReach(job, i)
    ensures src == Patch1(job, i, cur)
  {
    var rd, removed, v := job.CallRd(i), job.Removed(i), job.Value(i);
    if removed == 4 {
      return true, Octets(WriteJType(JalWord(rd), U(v)));
    } else if removed == 6 && rd == 0 {
      return true, Octets(WriteCJType(ShortJump(0), U(v)));
    } else if removed == 6 && rd == 1 {
      return true, Octets(WriteCJType(ShortJump(1), U(v)));
    } else {
      assert removed == 0;
      var val := if job.fin.undefWeak[job.rels[i].sym] then 0 else v;
      return -0x8000_0000 <= val < 0x8000_0000,
        Octets(WriteUType(WordOf(cur[..4]), U(val))) + Octets(WriteIType(WordOf(cur[4..]), U(val)));
    }
  }

  method ApplyRelative(kind: Kind, v: int, cur: seq<Octet>) returns (ok: bool, src: seq<Octet>)
    requires IsRelative(kind) && |cur| == if kind in {RVC_BRANCH, RVC_JUMP} then 2 else 4
    ensures ok == RelativeInReach(kind, v)
    ensures src == PatchRelative(kind, v, cur)
  {
    if kind == JAL {
      return -0x10_0000 <= v < 0x10_0000, Octets(WriteJType(WordOf(cur), U(v)));
    } else if kind == BRANCH {
      return -0x1000 <= v < 0x1000, Octets(WriteBType(WordOf(cur), U(v)));
    } else if kind == RVC_BRANCH {
      return -0x100 <= v < 0x100, Octets(WriteCBType(HalfOf(cur), U(v)));
    } else if kind == RVC_JUMP {
      return -0x800 <= v < 0x800, Octets(WriteCJType(HalfOf(cur), U(v)));
    } else {
      return true, Octets(U(v));
    }
  }

  method ApplyLow(store: bool, cur: Word, val: int, rs1: nat) returns (src: seq<Octet>)
    ensures src == Octets(LowPatch(store, cur, val, rs1))
  {
    var x := if store then WriteSType(cur, U(val)) else WriteIType(cur, U(val));
    if SignExtend(val, 11) == val {
      x := SetRs1(x, rs1);
    }
    src := Octets(x);
  }

  method ApplyAbsolute(kind: Kind, val: int, cur: seq<Octet>) returns (ok: bool, src: seq<Octet>)
    requires |cur| == 4
    ensures ok == (kind == HI20 ==> -0x8000_0000 <= val < 0x8000_0000)
    ensures src == PatchAbsolute(kind, val, cur)
  {
    ok, src := true, cur;
    match kind
    case HI20 =>
      ok := -0x8000_0000 <= val < 0x8000_0000;
      src := Octets(WriteUType(WordOf(cur), U(val)));
    case TPREL_HI20 => src := Octets(WriteUType(WordOf(cur), U(val)));
    case LO12_I => src := ApplyLow(false, WordOf(cur), val, 0);
    case LO12_S => src := ApplyLow(true, WordOf(cur), val, 0);
    case TPREL_LO12_I => src := ApplyLow(false, WordOf(cur), val, 4);
    case TPREL_LO12_S => src := ApplyLow(true, WordOf(cur), val, 4);
    case _ =>
  }

  /** The switch of the first pass. */
  method ApplyFirst(job: Job, i: nat, w: Window, buf: array<Octet>) returns (ok: bool)
    requires job.Valid() && i < |job.rels| && job.RelValid(i)
    requires w == job.Place(i) && w.at + w.len <= buf.Length
    modifies buf
    ensures ok == InReach(job, i)
    ensures buf[..] == Splice(old(buf[..]), w.at, Patch1(job, i, old(At(buf[..], w))))
  {
    var kind := job.rels[i].kind;
    var cur := buf[w.at..w.at + w.len];
    assert cur == At(buf[..], w);
    var src := cur;
    if kind == ALIGN {
      WriteNops(buf, w.at, w.len);
      return true;
    } else if kind == CALL {
      ok, src := ApplyCall(job, i, cur);
    } else if IsRelative(kind) {
      ok, src := ApplyRelative(kind, job.Value(i), cur);
    } else if w.len == 4 {
      ok, src := ApplyAbsolute(kind, job.Absolute(i), cur);
    } else {
      ok := true;
    }
    Overwrite(buf, w.at, src);
  }

  lemma UpdatedSkip(ws: seq<Window>, was: seq<Octet>, now: seq<Octet>, i: nat, vals: seq<seq<Octet>>)
    requires Updated(ws, was, now, i, vals) && i < |ws| && vals[i] == At(was, ws[i])
    ensures Updated(ws, was, now, i + 1, vals)
  {
  }

  /** The LO12 relocation i names the place of the HI20 relocation h. */
  ghost predicate Pairs(job: Job, i: nat, h: nat)
    requires job.Valid()
  {
    i < |job.rels| && h < |job.rels| && job.IsLo(i) && job.IsHi(h) &&
    job.RelValid(i) && job.RelValid(h) && job.fin.value[job.rels[i].sym] == job.Place(h).at
  }

  /** What the label of every LO12 must be for the second pass to make sense. */
  ghost predicate Paired(job: Job)
    requires job.Valid()
  {
    forall i :: 0 <= i < |job.rels| && job.IsLo(i) ==> exists h :: Pairs(job, i, h)
  }

  /** The places of a job are disjoint windows of the output. */
  ghost predicate Fits(job: Job, ws: seq<Window>, size: nat) {
    job.Valid() && ws == job.Places() && Layout(ws, size) && Paired(job)
  }

  /** The LO12 and HI20 cases have a word at their place. */
  lemma PlaceAt(job: Job, ws: seq<Window>, size: nat, i: nat)
    requires Fits(job, ws, size) && i < |job.rels|
    ensures job.RelValid(i) && ws[i] == job.Place(i) && ws[i].at + ws[i].len <= size
    ensures job.IsLo(i) || job.IsHi(i) ==> ws[i].len == 4
  {
    assert job.RelValid(i);
  }

  /** The word parked at the place of a HI20. */
  function Parked(job: Job, i: nat, b: seq<Octet>): Word
    requires i < |job.rels| && job.rels[i].sym < |job.fin.value|
    requires job.fin.value[job.rels[i].sym] + 4 <= |b|
  {
    WordAt(b, job.fin.value[job.rels[i].sym])
  }

  lemma LabelInside(job: Job, ws: seq<Window>, size: nat, i: nat) returns (h: nat)
    requires Fits(job, ws, size) && i < |job.rels| && job.IsLo(i)
    ensures Pairs(job, i, h) && job.RelValid(i)
    ensures job.fin.value[job.rels[i].sym] == ws[h].at && ws[h].len == 4 && ws[h].at + 4 <= size
  {
    h :| Pairs(job, i, h);
    PlaceAt(job, ws, size, h);
  }

  lemma LabelInRange(job: Job, ws: seq<Window>, size: nat, i: nat)
    requires Fits(job, ws, size) && i < |job.rels| && job.IsLo(i)
    ensures job.RelValid(i) && job.fin.value[job.rels[i].sym] + 4 <= size
  {
    var h := LabelInside(job, ws, size, i);
  }

  ghost function Value1(job: Job, ws: seq<Window>, was: seq<Octet>, i: nat): (r: seq<Octet>)
    requires Fits(job, ws, |was|) && i < |ws|
    ensures |r| == ws[i].len
  {
    PlaceAt(job, ws, |was|, i);
    Patch1(job, i, At(was, ws[i]))
  }

  ghost function Values1(job: Job, ws: seq<Window>, was: seq<Octet>): (r: seq<seq<Octet>>)
    requires Fits(job, ws, |was|)
    ensures |r| == |ws|
  {
    seq(|ws|, i requires 0 <= i < |ws| => Value1(job, ws, was, i))
  }

  ghost function Value2(job: Job, ws: seq<Window>, was: seq<Octet>, i: nat): (r: seq<Octet>)
    requires Fits(job, ws, |was|) && i < |ws|
    ensures |r| == ws[i].len
  {
    PlaceAt(job, ws, |was|, i);
    if job.IsLo(i) then
      LabelInRange(job, ws, |was|, i);
      Patch2(job.rels[i].kind, At(was, ws[i]), Parked(job, i, was))
    else At(was, ws[i])
  }

  ghost function Values2(job: Job, ws: seq<Window>, was: seq<Octet>): (r: seq<seq<Octet>>)
    requires Fits(job, ws, |was|)
    ensures |r| == |ws|
  {
    seq(|ws|, i requires 0 <= i < |ws| => Value2(job, ws, was, i))
  }

  ghost function Value3(job: Job, ws: seq<Window>, was: seq<Octet>, i: nat): (r: seq<Octet>)
    requires Fits(job, ws, |was|) && i < |ws|
    ensures |r| == ws[i].len
  {
    PlaceAt(job, ws, |was|, i);
    if job.IsHi(i) then Patch3(WordAt(job.contents, job.rels[i].offset), At(was, ws[i])) else At(was, ws[i])
  }

  ghost function Values3(job: Job, ws: seq<Window>, was: seq<Octet>): (r: seq<seq<Octet>>)
    requires Fits(job, ws, |was|)
    ensures |r| == |ws|
  {
    seq(|ws|, i requires 0 <= i < |ws| => Value3(job, ws, was, i))
  }

  ghost predicate AllInReach(job: Job, n: nat)
    requires job.Valid() && n <= |job.rels|
  {
    forall i :: 0 <= i < n ==> job.RelValid(i) && InReach(job, i)
  }

  lemma ReachStep(job: Job, i: nat, ok: bool, fine: bool)
    requires job.Valid() && i < |job.rels| && ok == AllInReach(job, i) && job.RelValid(i) && fine == InReach(job, i)
    ensures (ok && fine) == AllInReach(job, i + 1)
  {
  }

  method FirstPass(job: Job, ghost ws: seq<Window>, buf: array<Octet>) returns (ok: bool)
    requires Fits(job, ws, buf.Length)
    modifies buf
    ensures ok == AllInReach(job, |job.rels|)
    ensures Updated(ws, old(buf[..]), buf[..], |ws|, Values1(job, ws, old(buf[..])))
  {
    ghost var was := buf[..];
    ghost var vals := Values1(job, ws, was);
    ok := true;
    for i := 0 to |job.rels|
      invariant ok == AllInReach(job, i)
      invariant Updated(ws, was, buf[..], i, vals)
    {
      PlaceAt(job, ws, buf.Length, i);
      ghost var now := buf[..];
      var fine := ApplyFirst(job, i, job.Place(i), buf);
      assert vals[i] == Value1(job, ws, was, i);
      UpdatedStep(ws, was, now, i, vals);
      ReachStep(job, i, ok, fine);
      ok := ok && fine;
    }
  }

  /** The word an earlier pass parked is still there while the LO12s are being written. */
  lemma StillParked(job: Job, ws: seq<Window>, was: seq<Octet>, now: seq<Octet>, i: nat, k: nat)
    requires Fits(job, ws, |was|) && i < |job.rels| && job.IsLo(i)
    requires Updated(ws, was, now, k, Values2(job, ws, was))
    ensures job.RelValid(i) && job.fin.value[job.rels[i].sym] + 4 <= |was|
    ensures Parked(job, i, now) == Parked(job, i, was)
  {
    var h := LabelInside(job, ws, |was|, i);
    assert Values2(job, ws, was)[h] == Value2(job, ws, was, h);
    assert At(now, ws[h]) == At(was, ws[h]);
  }

  /** One LO12: reads the word parked at its label. */
  method ApplySecond(job: Job, i: nat, w: Window, buf: array<Octet>)
    requires i < |job.rels| && job.rels[i].sym < |job.fin.value|
    requires job.fin.value[job.rels[i].sym] + 4 <= buf.Length && w.len == 4 && w.at + 4 <= buf.Length
    modifies buf
    ensures buf[..] == Splice(old(buf[..]), w.at,
                              Patch2(job.rels[i].kind, old(At(buf[..], w)), Parked(job, i, old(buf[..]))))
  {
    var value := job.fin.value[job.rels[i].sym];
    var val := WordOf(buf[value..value + 4]);
    var cur := buf[w.at..w.at + w.len];
    assert val == Parked(job, i, buf[..]) && cur == At(buf[..], w);
    Overwrite(buf, w.at, Patch2(job.rels[i].kind, cur, val));
  }

  method SecondPass(job: Job, ghost ws: seq<Window>, buf: array<Octet>)
    requires Fits(job, ws, buf.Length)
    modifies buf
    ensures Updated(ws, old(buf[..]), buf[..], |ws|, Values2(job, ws, old(buf[..])))
  {
    ghost var was := buf[..];
    ghost var vals := Values2(job, ws, was);
    for i := 0 to |job.rels|
      invariant Updated(ws, was, buf[..], i, vals)
    {
      PlaceAt(job, ws, buf.Length, i);
      assert vals[i] == Value2(job, ws, was, i);
      if job.IsLo(i) {
        StillParked(job, ws, was, buf[..], i, i);
        ghost var now := buf[..];
        assert At(now, ws[i]) == At(was, ws[i]);
        ApplySecond(job, i, job.Place(i), buf);
        UpdatedStep(ws, was, now, i, vals);
      } else {
        UpdatedSkip(ws, was, buf[..], i, vals);
      }
    }
  }

  method ThirdPass(job: Job, ghost ws: seq<Window>, buf: array<Octet>)
    requires Fits(job, ws, buf.Length)
    modifies buf
    ensures Updated(ws, old(buf[..]), buf[..], |ws|, Values3(job, ws, old(buf[..])))
  {
    ghost var was := buf[..];
    ghost var vals := Values3(job, ws, was);
    for i := 0 to |job.rels|
      invariant Updated(ws, was, buf[..], i, vals)
    {
      PlaceAt(job, ws, buf.Length, i);
      assert vals[i] == Value3(job, ws, was, i);
      if job.IsHi(i) {
        ghost var now := buf[..];
        var w := job.Place(i);
        assert At(now, w) == At(was, w);
        var cur := buf[w.at..w.at + w.len];
        Overwrite(buf, w.at, Patch3(WordAt(job.contents, job.rels[i].offset), cur));
        UpdatedStep(ws, was, now, i, vals);
      } else {
        UpdatedSkip(ws, was, buf[..], i, vals);
      }
    }
  }

  // ---- what the three passes leave behind

  /** A LO12 instruction with the low part of the value of its HI20. */
  function LowWord(kind: Kind, w: Word, v: int): Word {
    if kind == PCREL_LO12_I then WriteIType(w, U(v)) else WriteSType(w, U(v))
  }

  /** The final contents of one place. */
  ghost predicate Relocated(job: Job, ws: seq<Window>, was: seq<Octet>, now: seq<Octet>, i: nat)
    requires Fits(job, ws, |was|) && |now| == |was| && i < |ws|
  {
    PlaceAt(job, ws, |was|, i);
    var before, after := At(was, ws[i]), At(now, ws[i]);
    if job.IsHi(i) then
      WordOf(after) == WriteUType(WordAt(job.contents, job.rels[i].offset), U(job.Value(i)))
    else if job.IsLo(i) then
      forall h :: Pairs(job, i, h) ==>
        WordOf(after) == LowWord(job.rels[i].kind, WordOf(before), job.Value(h))
    else after == Patch1(job, i, before)
  }

  lemma ThreePasses(job: Job, ws: seq<Window>, b0: seq<Octet>, b1: seq<Octet>, b2: seq<Octet>, b3: seq<Octet>)
    requires Fits(job, ws, |b0|) && |b1| == |b0| && |b2| == |b0|
    requires Updated(ws, b0, b1, |ws|, Values1(job, ws, b0))
    requires Updated(ws, b1, b2, |ws|, Values2(job, ws, b1))
    requires Updated(ws, b2, b3, |ws|, Values3(job, ws, b2))
    ensures forall i :: 0 <= i < |ws| ==> Relocated(job, ws, b0, b3, i)
    ensures forall p :: 0 <= p < |b0| && Outside(ws, p) ==> b3[p] == b0[p]
  {
    forall i | 0 <= i < |ws| ensures Relocated(job, ws, b0, b3, i) {
      PlaceAt(job, ws, |b0|, i);
      assert At(b3, ws[i]) == Value3(job, ws, b2, i);
      assert At(b2, ws[i]) == Value2(job, ws, b1, i);
      assert At(b1, ws[i]) == Value1(job, ws, b0, i);
      if job.IsHi(i) {
        HiIsParked(job, ws, b0, b1, i);
        OctetsOfWord(WriteUType(WordAt(job.contents, job.rels[i].offset), U(job.Value(i))));
      } else if job.IsLo(i) {
        LowIsRead(job, ws, b0, b1, b2, i);
      }
    }
  }

  lemma HiIsParked(job: Job, ws: seq<Window>, b0: seq<Octet>, b1: seq<Octet>, h: nat)
    requires Fits(job, ws, |b0|) && h < |ws| && job.IsHi(h)
    requires Updated(ws, b0, b1, |ws|, Values1(job, ws, b0))
    ensures job.RelValid(h) && ws[h].len == 4 && WordOf(At(b1, ws[h])) == U(job.Value(h))
  {
    PlaceAt(job, ws, |b0|, h);
    assert At(b1, ws[h]) == Value1(job, ws, b0, h);
    OctetsOfWord(U(job.Value(h)));
  }

  lemma {:induction false} LowIsRead(job: Job, ws: seq<Window>, b0: seq<Octet>, b1: seq<Octet>, b2: seq<Octet>, i: nat)
    requires Fits(job, ws, |b0|) && |b1| == |b0| && i < |ws| && job.IsLo(i)
    requires Updated(ws, b0, b1, |ws|, Values1(job, ws, b0))
    requires Updated(ws, b1, b2, |ws|, Values2(job, ws, b1))
    ensures ws[i].len == 4
    ensures forall h :: Pairs(job, i, h) ==>
              WordOf(At(b2, ws[i])) == LowWord(job.rels[i].kind, WordOf(At(b0, ws[i])), job.Value(h))
  {
    PlaceAt(job, ws, |b0|, i);
    assert At(b1, ws[i]) == Value1(job, ws, b0, i) == At(b0, ws[i]);
    assert At(b2, ws[i]) == Value2(job, ws, b1, i);
    forall h | Pairs(job, i, h)
      ensures WordOf(At(b2, ws[i])) == LowWord(job.rels[i].kind, WordOf(At(b0, ws[i])), job.Value(h))
    {
      HiIsParked(job, ws, b0, b1, h);
      PlaceAt(job, ws, |b0|, h);
      assert Parked(job, i, b1) == U(job.Value(h));
      OctetsOfWord(LowWord(job.rels[i].kind, WordOf(At(b0, ws[i])), job.Value(h)));
    }
  }

  /** The three loops of apply_reloc_alloc. */
  method ApplyRelocAlloc(job: Job, ghost ws: seq<Window>, buf: array<Octet>) returns (ok: bool)
    requires Fits(job, ws, buf.Length)
    modifies buf
    ensures ok == AllInReach(job, |job.rels|)
    ensures forall i :: 0 <= i < |ws| ==> Relocated(job, ws, old(buf[..]), buf[..], i)
    ensures forall p :: 0 <= p < buf.Length && Outside(ws, p) ==> buf[p] == old(buf[p])
  {
    ghost var b0 := buf[..];
    ok := FirstPass(job, ws, buf);
    ghost var b1 := buf[..];
    SecondPass(job, ws, buf);
    ghost var b2 := buf[..];
    ThirdPass(job, ws, buf);
    ThreePasses(job, ws, b0, b1, b2, buf[..]);
    assert forall p :: 0 <= p < buf.Length ==> buf[p] == buf[..][p] && b0[p] == old(buf[p]);
  }
}
