/**
 The table of dynamic relocations (elf/input-sections.cc, elf/arch-riscv.cc, and
 RelDynSection::update_shdr in elf/output-chunks.cc): every section counts its records, gets a slice of
 the table, and fills exactly that slice, in whatever order sections are written.

 Offsets are in records, not bytes.
 */
module DynRelTable {
  import opened Buffers
  import opened DynRel

  predicate SymsInRange(syms: seq<Symbol>, sec: Section) {
    forall k :: 0 <= k < |sec.rels| ==> sec.rels[k].sym < |syms|
  }

  datatype File = File(syms: seq<Symbol>, sections: seq<Section>) {
    predicate SectionValid(s: nat)
      requires s < |sections|
    {
      SymsInRange(syms, sections[s])
    }

    predicate Valid() {
      forall s :: 0 <= s < |sections| ==> SectionValid(s)
    }
  }

  // ---- scanning

  /** The counters of a file and the flags of its symbols. */
  datatype Tally = Tally(dynrels: nat, ifuncs: nat, textrel: bool, needs: seq<set<Need>>, errors: nat)

  function Add(t: Tally, sym: nat, s: Scan): Tally
    requires sym < |t.needs|
  {
    Tally(t.dynrels + s.dynrels, t.ifuncs + s.ifuncs, t.textrel || s.textrel,
          if s.needs == {} then t.needs else t.needs[sym := t.needs[sym] + s.needs], t.errors + s.errors)
  }

  class Scanner {
    const o: Options
    const syms: seq<Symbol>
    var tally: Tally
    var reldynOffset: seq<nat>

    ghost predicate Valid()
      reads this
    {
      |tally.needs| == |syms|
    }

    constructor (o: Options, syms: seq<Symbol>)
      ensures Valid() && this.o == o && this.syms == syms
      ensures tally == Tally(0, 0, false, seq(|syms|, _ => {}), 0) && reldynOffset == []
    {
      this.o, this.syms := o, syms;
      tally, reldynOffset := Tally(0, 0, false, seq(|syms|, _ => {}), 0), [];
    }

    method Error()
      modifies this`tally
      ensures tally == old(tally).(errors := old(tally).errors + 1)
    {
      tally := tally.(errors := tally.errors + 1);
    }

    method Flag(sym: nat, need: Need)
      requires Valid() && sym < |syms|
      modifies this`tally
      ensures Valid() && tally == Add(old(tally), sym, NOTHING.(needs := {need}))
    {
      tally := tally.(needs := tally.needs[sym := tally.needs[sym] + {need}]);
    }

    method CheckTextrel(sec: Section)
      modifies this`tally
      ensures tally == old(tally).(textrel := old(tally).textrel || !sec.writable,
                                   errors := old(tally).errors + if !sec.writable && o.zText then 1 else 0)
    {
      if !sec.writable {
        if o.zText {
          Error();
        }
        tally := tally.(textrel := true);
      }
    }

    method DoDynrel(sec: Section, sym: nat)
      requires Valid() && sym < |syms|
      modifies this`tally
      ensures Valid() && tally == Add(old(tally), sym, Textrel(o, sec, 1, 0))
    {
      CheckTextrel(sec);
      tally := tally.(dynrels := tally.dynrels + 1);
    }

    method DoCopyrel(sym: nat)
      requires Valid() && sym < |syms|
      modifies this`tally
      ensures Valid() && tally == Add(old(tally), sym, Copyrel(o, syms[sym], 0))
    {
      if syms[sym].protected {
        Error();
      }
      Flag(sym, NEEDS_COPYREL);
    }

    method DoScanRel(sec: Section, r: Rel, action: Action)
      requires Valid() && r.sym < |syms|
      modifies this`tally
      ensures Valid() && tally == Add(old(tally), r.sym, ScanRel(o, sec, syms[r.sym], r, action))
    {
      match action
      case NONE =>
      case ERROR => Error();
      case COPYREL =>
        if !o.zCopyreloc {
          Error();
        }
        DoCopyrel(r.sym);
      case DYN_COPYREL =>
        if sec.writable || !o.zCopyreloc {
          DoDynrel(sec, r.sym);
        } else {
          DoCopyrel(r.sym);
        }
      case PLT => Flag(r.sym, NEEDS_PLT);
      case CPLT => Flag(r.sym, NEEDS_CPLT);
      case DYN_CPLT =>
        if sec.writable {
          DoDynrel(sec, r.sym);
        } else {
          Flag(r.sym, NEEDS_CPLT);
        }
      case DYNREL => DoDynrel(sec, r.sym);
      case BASEREL =>
        CheckTextrel(sec);
        if !IsRelrReloc(o, sec, r) {
          tally := tally.(dynrels := tally.dynrels + 1);
        }
      case IFUNC =>
        DoDynrel(sec, r.sym);
        tally := tally.(ifuncs := tally.ifuncs + 1);
    }

    /** The switch of scan_relocations. */
    method DoScanKind(sec: Section, r: Rel)
      requires Valid() && r.sym < |syms|
      modifies this`tally
      ensures Valid() && tally == Add(old(tally), r.sym, ScanKind(o, sec, syms[r.sym], r))
    {
      var sym := syms[r.sym];
      match r.kind
      case R_32 =>
        if o.is64 {
          DoScanRel(sec, r, GetRelAction(o, sym, ABSREL_TABLE));
        } else {
          DoScanRel(sec, r, DynAbsrelAction(o, sym));
        }
      case R_HI20 => DoScanRel(sec, r, GetRelAction(o, sym, ABSREL_TABLE));
      case R_64 =>
        if !o.is64 {
          Error();
        } else {
          DoScanRel(sec, r, DynAbsrelAction(o, sym));
        }
      case R_CALL =>
        if sym.imported {
          Flag(r.sym, NEEDS_PLT);
        }
      case R_GOT_HI20 => Flag(r.sym, NEEDS_GOT);
      case R_TLS_GOT_HI20 => Flag(r.sym, NEEDS_GOTTP);
      case R_TLS_GD_HI20 => Flag(r.sym, NEEDS_TLSGD);
      case R_32_PCREL => DoScanRel(sec, r, GetRelAction(o, sym, PCREL_TABLE));
      case _ =>
    }

    method DoScanOne(sec: Section, r: Rel)
      requires Valid() && r.sym < |syms|
      modifies this`tally
      ensures Valid() && tally == Add(old(tally), r.sym, ScanOne(o, syms, sec, r))
    {
      if r.kind == R_NONE {
        return;
      }
      if syms[r.sym].undefError {
        Error();
        return;
      }
      if syms[r.sym].ifunc {
        Flag(r.sym, NEEDS_GOT);
        Flag(r.sym, NEEDS_PLT);
      }
      ghost var before := tally;
      DoScanKind(sec, r);
      AddNeeds(old(tally), r.sym, ScanKind(o, sec, syms[r.sym], r));
    }

    lemma AddNeeds(t: Tally, sym: nat, s: Scan)
      requires sym < |t.needs|
      ensures
        var t1 := Add(Add(t, sym, NOTHING.(needs := {NEEDS_GOT})), sym, NOTHING.(needs := {NEEDS_PLT}));
        Add(t1, sym, s) == Add(t, sym, s.(needs := s.needs + {NEEDS_GOT, NEEDS_PLT}))
    {
      var first := t.needs[sym] + {NEEDS_GOT} + {NEEDS_PLT};
      assert first + s.needs == t.needs[sym] + (s.needs + {NEEDS_GOT, NEEDS_PLT});
      assert s.needs == {} ==> first == first + s.needs;
    }

    /** Scans one section; the records before it are its offset. */
    method ScanSection(sec: Section)
      requires Valid() && SymsInRange(syms, sec)
      modifies this
      ensures Valid() && reldynOffset == old(reldynOffset) + [old(tally).dynrels]
      ensures tally == AddAll(o, syms, sec, |sec.rels|, old(tally))
    {
      reldynOffset := reldynOffset + [tally.dynrels];
      for k := 0 to |sec.rels|
        invariant Valid() && reldynOffset == old(reldynOffset) + [old(tally).dynrels]
        invariant tally == AddAll(o, syms, sec, k, old(tally))
      {
        AddNext(o, syms, sec, k, old(tally));
        DoScanOne(sec, sec.rels[k]);
      }
    }

    /** If scanning reports no error, the counts and offsets are those of the records emitted later. */
    method ScanFile(file: File)
      requires Valid() && file.Valid() && file.syms == syms && tally.dynrels == 0 && reldynOffset == []
      modifies this
      ensures Valid() && tally.errors >= old(tally).errors
      ensures tally.errors == old(tally).errors ==>
                Counted(o, file, tally.dynrels, reldynOffset, |file.sections|)
    {
      for s := 0 to |file.sections|
        invariant Valid() && tally.errors >= old(tally).errors
        invariant tally.errors == old(tally).errors ==> Counted(o, file, tally.dynrels, reldynOffset, s)
      {
        assert file.SectionValid(s);
        ghost var before, offsets := tally, reldynOffset;
        ScanSection(file.sections[s]);
        SectionCounted(o, syms, file.sections[s], |file.sections[s].rels|, before);
        if tally.errors == old(tally).errors {
          CountedStep(o, file, before.dynrels, offsets, s);
        }
      }
    }
  }

  /** After n sections: the number of records so far, and the offset of every section. */
  ghost predicate Counted(o: Options, file: File, dynrels: nat, offsets: seq<nat>, n: nat)
    requires file.Valid() && n <= |file.sections|
  {
    |offsets| == n && dynrels == FileCount(o, file, n) &&
    forall s :: 0 <= s < n ==> offsets[s] == FileCount(o, file, s)
  }

  lemma CountedStep(o: Options, file: File, dynrels: nat, offsets: seq<nat>, n: nat)
    requires file.Valid() && n < |file.sections| && Counted(o, file, dynrels, offsets, n)
    ensures Counted(o, file, dynrels + |SectionRecords(o, file, n)|, offsets + [dynrels], n + 1)
  {
  }

  function AddAll(o: Options, syms: seq<Symbol>, sec: Section, n: nat, t: Tally): (t': Tally)
    requires n <= |sec.rels| && |t.needs| == |syms|
    requires SymsInRange(syms, sec)
    ensures |t'.needs| == |syms|
  {
    if n == 0 then t
    else Add(AddAll(o, syms, sec, n - 1, t), sec.rels[n - 1].sym, ScanOne(o, syms, sec, sec.rels[n - 1]))
  }

  lemma AddNext(o: Options, syms: seq<Symbol>, sec: Section, k: nat, t: Tally)
    requires k < |sec.rels| && |t.needs| == |syms| && SymsInRange(syms, sec)
    ensures AddAll(o, syms, sec, k + 1, t) ==
            Add(AddAll(o, syms, sec, k, t), sec.rels[k].sym, ScanOne(o, syms, sec, sec.rels[k]))
  {
  }

  // ---- what the sections emit

  /** The records of the first n pieces, one after another. */
  function Flat(pieces: seq<seq<Record>>, n: nat): seq<Record>
    requires n <= |pieces|
  {
    if n == 0 then [] else Flat(pieces, n - 1) + pieces[n - 1]
  }

  lemma {:induction false} FlatRises(pieces: seq<seq<Record>>, k: nat, n: nat)
    requires k <= n <= |pieces|
    ensures |Flat(pieces, k)| <= |Flat(pieces, n)|
    decreases n
  {
    if k < n {
      FlatRises(pieces, k, n - 1);
    }
  }

  /** What each relocation of a section emits. */
  function Pieces(o: Options, syms: seq<Symbol>, sec: Section): (ps: seq<seq<Record>>)
    requires SymsInRange(syms, sec)
    ensures |ps| == |sec.rels|
  {
    seq(|sec.rels|, k requires 0 <= k < |sec.rels| => Emitted(o, syms, sec, sec.rels[k]))
  }

  function SectionRecords(o: Options, file: File, s: nat): seq<Record>
    requires file.Valid() && s < |file.sections|
  {
    assert file.SectionValid(s);
    Flat(Pieces(o, file.syms, file.sections[s]), |file.sections[s].rels|)
  }

  function Sum(ns: seq<nat>, n: nat): nat
    requires n <= |ns|
  {
    if n == 0 then 0 else Sum(ns, n - 1) + ns[n - 1]
  }

  lemma {:induction false} SumRises(ns: seq<nat>, k: nat, n: nat)
    requires k <= n <= |ns|
    ensures Sum(ns, k) <= Sum(ns, n)
    decreases n
  {
    if k < n {
      SumRises(ns, k, n - 1);
    }
  }

  lemma {:induction false} SumAfter(ns: seq<nat>, k: nat, n: nat)
    requires k < n <= |ns|
    ensures Sum(ns, k) + ns[k] <= Sum(ns, n)
  {
    SumRises(ns, k + 1, n);
  }

  function SectionSizes(o: Options, file: File): (ns: seq<nat>)
    requires file.Valid()
    ensures |ns| == |file.sections|
  {
    seq(|file.sections|, s requires 0 <= s < |file.sections| => |SectionRecords(o, file, s)|)
  }

  /** The number of records of the first n sections of a file. */
  function FileCount(o: Options, file: File, n: nat): nat
    requires file.Valid() && n <= |file.sections|
  {
    Sum(SectionSizes(o, file), n)
  }

  /** If no error is reported, the scan counts what the section will emit. */
  lemma {:induction false} SectionCounted(o: Options, syms: seq<Symbol>, sec: Section, n: nat, t: Tally)
    requires n <= |sec.rels| && |t.needs| == |syms|
    requires SymsInRange(syms, sec)
    ensures AddAll(o, syms, sec, n, t).errors >= t.errors
    ensures AddAll(o, syms, sec, n, t).errors == t.errors ==>
              AddAll(o, syms, sec, n, t).dynrels == t.dynrels + |Flat(Pieces(o, syms, sec), n)|
  {
    if n > 0 {
      SectionCounted(o, syms, sec, n - 1, t);
      ScanCountsEmitted(o, syms, sec, sec.rels[n - 1]);
      assert Pieces(o, syms, sec)[n - 1] == Emitted(o, syms, sec, sec.rels[n - 1]);
    }
  }

  // ---- the layout of the table

  function FileSizes(o: Options, files: seq<File>): (ns: seq<nat>)
    requires forall f :: 0 <= f < |files| ==> files[f].Valid()
    ensures |ns| == |files|
  {
    seq(|files|, f requires 0 <= f < |files| => FileCount(o, files[f], |files[f].sections|))
  }

  /** The number of records of the first n files. */
  function TotalCount(o: Options, files: seq<File>, n: nat): nat
    requires n <= |files| && forall f :: 0 <= f < |files| ==> files[f].Valid()
  {
    Sum(FileSizes(o, files), n)
  }

  method PlaceSlices(first: nat, sizes: seq<nat>) returns (offsets: seq<nat>, end: nat)
    ensures |offsets| == |sizes| && end == first + Sum(sizes, |sizes|)
    ensures forall i :: 0 <= i < |sizes| ==> offsets[i] == first + Sum(sizes, i)
  {
    end, offsets := first, [];
    for i := 0 to |sizes|
      invariant end == first + Sum(sizes, i) && |offsets| == i
      invariant forall j :: 0 <= j < i ==> offsets[j] == first + Sum(sizes, j)
    {
      offsets := offsets + [end];
      end := end + sizes[i];
    }
  }

  /** update_shdr: the slices of the files follow those of the synthesized chunks. */
  method UpdateShdr(chunkSizes: seq<nat>, numDynrel: seq<nat>)
    returns (chunkOffset: seq<nat>, fileOffset: seq<nat>, size: nat)
    ensures |chunkOffset| == |chunkSizes| && |fileOffset| == |numDynrel|
    ensures forall i :: 0 <= i < |chunkSizes| ==> chunkOffset[i] == Sum(chunkSizes, i)
    ensures forall i :: 0 <= i < |numDynrel| ==>
              fileOffset[i] == Sum(chunkSizes, |chunkSizes|) + Sum(numDynrel, i)
    ensures size == Sum(chunkSizes, |chunkSizes|) + Sum(numDynrel, |numDynrel|)
  {
    chunkOffset, size := PlaceSlices(0, chunkSizes);
    fileOffset, size := PlaceSlices(size, numDynrel);
  }

  /** All files to be written; the records of the synthesized chunks come first. */
  datatype Output = Output(o: Options, files: seq<File>, base: nat) {
    ghost predicate Valid() {
      forall f :: 0 <= f < |files| ==> files[f].Valid()
    }

    ghost predicate Has(f: nat, s: nat) {
      f < |files| && files[f].Valid() && s < |files[f].sections|
    }

    function Of(f: nat, s: nat): seq<Record>
      requires f < |files| && files[f].Valid() && s < |files[f].sections|
    {
      SectionRecords(o, files[f], s)
    }

    /** The first record of a section: file.reldyn_offset + isec.reldyn_offset. */
    ghost function Start(f: nat, s: nat): nat
      requires Valid() && f < |files| && s <= |files[f].sections|
    {
      base + TotalCount(o, files, f) + FileCount(o, files[f], s)
    }

    ghost function Size(): nat
      requires Valid()
    {
      base + TotalCount(o, files, |files|)
    }
  }

  /** Slices are in order and do not overlap. */
  lemma SlicesApart(out: Output, f: nat, s: nat, g: nat, t: nat)
    requires out.Valid() && out.Has(f, s) && out.Has(g, t) && (f < g || (f == g && s < t))
    ensures out.Start(f, s) + |out.Of(f, s)| <= out.Start(g, t)
  {
    var ns := SectionSizes(out.o, out.files[f]);
    assert ns[s] == |out.Of(f, s)|;
    if f < g {
      SumAfter(ns, s, |ns|);
      SumAfter(FileSizes(out.o, out.files), f, g);
    } else {
      SumAfter(ns, s, t);
    }
  }

  lemma SliceInside(out: Output, f: nat, s: nat)
    requires out.Valid() && out.Has(f, s)
    ensures out.base <= out.Start(f, s) && out.Start(f, s) + |out.Of(f, s)| <= out.Size()
  {
    var ns := SectionSizes(out.o, out.files[f]);
    assert ns[s] == |out.Of(f, s)|;
    SumAfter(ns, s, |ns|);
    SumAfter(FileSizes(out.o, out.files), f, |out.files|);
  }

  /** Every record of the table belongs to the slice of some section. */
  lemma SlicesCover(out: Output, i: nat) returns (f: nat, s: nat)
    requires out.Valid() && out.base <= i < out.Size()
    ensures out.Has(f, s) && out.Start(f, s) <= i < out.Start(f, s) + |out.Of(f, s)|
  {
    f := PartOf(FileSizes(out.o, out.files), i - out.base, |out.files|);
    var ns := SectionSizes(out.o, out.files[f]);
    s := PartOf(ns, i - out.base - TotalCount(out.o, out.files, f), |ns|);
    assert ns[s] == |out.Of(f, s)|;
  }

  lemma PartOf(ns: seq<nat>, i: nat, n: nat) returns (k: nat)
    requires n <= |ns| && i < Sum(ns, n)
    ensures k < n && Sum(ns, k) <= i < Sum(ns, k) + ns[k]
  {
    if i < Sum(ns, n - 1) {
      k := PartOf(ns, i, n - 1);
    } else {
      k := n - 1;
    }
  }

  // ---- writing

  lemma {:induction false} SplicePiece(b: seq<Record>, at: nat, ps: seq<seq<Record>>, k: nat)
    requires k < |ps| && at + |Flat(ps, |ps|)| <= |b|
    ensures at + |Flat(ps, k)| + |ps[k]| == at + |Flat(ps, k + 1)| <= |b|
    ensures Splice(Splice(b, at, Flat(ps, k)), at + |Flat(ps, k)|, ps[k]) == Splice(b, at, Flat(ps, k + 1))
  {
    FlatRises(ps, k + 1, |ps|);
    SpliceMore(b, at, Flat(ps, k), ps[k]);
  }

  /** The words of the image that relocations write. */
  function Store(words: map<nat, int>, place: nat, word: seq<int>): map<nat, int> {
    if word == [] then words else words[place := word[0]]
  }

  function Word(o: Options, syms: seq<Symbol>, sec: Section, r: Rel, words: map<nat, int>): map<nat, int>
    requires r.sym < |syms|
  {
    if IsWordSize(o, r.kind) then
      Store(words, Place(sec, r), ApplyAbsrel(o, sec, syms[r.sym], r, DynAbsrelAction(o, syms[r.sym])).word)
    else words
  }

  /** The words of the image after the first n relocations of a section. */
  function Words(o: Options, syms: seq<Symbol>, sec: Section, n: nat, words: map<nat, int>): map<nat, int>
    requires n <= |sec.rels| && SymsInRange(syms, sec)
  {
    if n == 0 then words else Word(o, syms, sec, sec.rels[n - 1], Words(o, syms, sec, n - 1, words))
  }

  class Writer {
    const table: array<Record>
    var words: map<nat, int>
    var cursor: nat

    constructor (table: array<Record>)
      ensures this.table == table && words == map[]
    {
      this.table, words, cursor := table, map[], 0;
    }

    method Emit(rec: Record)
      requires cursor < table.Length
      modifies this`cursor, table
      ensures table[..] == Splice(old(table[..]), old(cursor), [rec]) && cursor == old(cursor) + 1
    {
      table[cursor] := rec;
      cursor := cursor + 1;
    }

    method EmitDynrel(o: Options, sym: Symbol, place: nat, addend: int)
      requires cursor < table.Length
      modifies this`cursor, this`words, table
      ensures var a := ApplyDynrel(o, sym, place, addend);
              table[..] == Splice(old(table[..]), old(cursor), a.records) &&
              cursor == old(cursor) + 1 && words == Store(old(words), place, a.word)
    {
      Emit(Record(place, ABS, sym.dynsymIdx, addend));
      if o.applyDynamic {
        words := words[place := addend];
      }
    }

    /** apply_absrel */
    method DoApplyAbsrel(o: Options, sec: Section, sym: Symbol, r: Rel, action: Action)
      requires action in {NONE, COPYREL, CPLT, BASEREL, DYN_COPYREL, DYN_CPLT, DYNREL, IFUNC}
      requires cursor + |ApplyAbsrel(o, sec, sym, r, action).records| <= table.Length
      modifies this`cursor, this`words, table
      ensures
        var a := ApplyAbsrel(o, sec, sym, r, action);
        table[..] == Splice(old(table[..]), old(cursor), a.records) &&
        cursor == old(cursor) + |a.records| && words == Store(old(words), Place(sec, r), a.word)
    {
      var place := Place(sec, r);
      if action == BASEREL {
        if IsRelrReloc(o, sec, r) {
          words := words[place := sym.addr + r.addend];
        } else {
          Emit(Record(place, RELATIVE, 0, sym.addr + r.addend));
          if o.applyDynamic {
            words := words[place := sym.addr + r.addend];
          }
        }
      } else if action == DYN_COPYREL {
        if sec.writable || !o.zCopyreloc {
          EmitDynrel(o, sym, place, r.addend);
        } else {
          words := words[place := sym.addr + r.addend];
        }
      } else if action == DYN_CPLT {
        if sec.writable {
          EmitDynrel(o, sym, place, r.addend);
        } else {
          words := words[place := sym.addr + r.addend];
        }
      } else if action == DYNREL {
        EmitDynrel(o, sym, place, r.addend);
      } else if action == IFUNC {
        var addr := sym.resolverAddr + r.addend;
        Emit(Record(place, IRELATIVE, 0, addr));
        if o.applyDynamic {
          words := words[place := addr];
        }
      } else {
        words := words[place := sym.addr + r.addend];
      }
    }

    /** One relocation of apply_reloc_alloc. */
    method ApplyOne(o: Options, syms: seq<Symbol>, sec: Section, r: Rel, ghost piece: seq<Record>)
      requires r.sym < |syms| && piece == Emitted(o, syms, sec, r) && cursor + |piece| <= table.Length
      modifies this`cursor, this`words, table
      ensures table[..] == Splice(old(table[..]), old(cursor), piece)
      ensures cursor == old(cursor) + |piece|
      ensures words == Word(o, syms, sec, r, old(words))
    {
      if r.kind == (if o.is64 then R_64 else R_32) {
        WordSizeActions(o, syms[r.sym]);
        DoApplyAbsrel(o, sec, syms[r.sym], r, DynAbsrelAction(o, syms[r.sym]));
      }
    }

    /** The word-size relocations of apply_reloc_alloc, starting at the section's slice. */
    method ApplySection(o: Options, file: File, s: nat, start: nat)
      requires file.Valid() && s < |file.sections| && start + |SectionRecords(o, file, s)| <= table.Length
      modifies this`cursor, this`words, table
      ensures table[..] == Splice(old(table[..]), start, SectionRecords(o, file, s))
      ensures cursor == start + |SectionRecords(o, file, s)|
      ensures file.SectionValid(s)
      ensures words == Words(o, file.syms, file.sections[s], |file.sections[s].rels|, old(words))
    {
      assert file.SectionValid(s);
      cursor := start;
      ApplyRels(o, file.syms, file.sections[s], start);
    }

    method ApplyRels(o: Options, syms: seq<Symbol>, sec: Section, ghost start: nat)
      requires SymsInRange(syms, sec) && cursor == start
      requires start + |Flat(Pieces(o, syms, sec), |sec.rels|)| <= table.Length
      modifies this`cursor, this`words, table
      ensures table[..] == Splice(old(table[..]), start, Flat(Pieces(o, syms, sec), |sec.rels|))
      ensures cursor == start + |Flat(Pieces(o, syms, sec), |sec.rels|)|
      ensures words == Words(o, syms, sec, |sec.rels|, old(words))
    {
      ghost var was, ps := table[..], Pieces(o, syms, sec);
      for k := 0 to |sec.rels|
        invariant cursor == start + |Flat(ps, k)| <= table.Length
        invariant table[..] == Splice(was, start, Flat(ps, k))
        invariant words == Words(o, syms, sec, k, old(words))
      {
        ApplyNext(o, syms, sec, k, start, was);
      }
    }

    method ApplyNext(o: Options, syms: seq<Symbol>, sec: Section, k: nat, ghost start: nat, ghost was: seq<Record>)
      requires SymsInRange(syms, sec) && k < |sec.rels|
      requires |was| == table.Length && start + |Flat(Pieces(o, syms, sec), |sec.rels|)| <= |was|
      requires cursor == start + |Flat(Pieces(o, syms, sec), k)| <= |was|
      requires table[..] == Splice(was, start, Flat(Pieces(o, syms, sec), k))
      modifies this`cursor, this`words, table
      ensures cursor == start + |Flat(Pieces(o, syms, sec), k + 1)| <= |was|
      ensures table[..] == Splice(was, start, Flat(Pieces(o, syms, sec), k + 1))
      ensures words == Word(o, syms, sec, sec.rels[k], old(words))
    {
      ghost var ps := Pieces(o, syms, sec);
      SplicePiece(was, start, ps, k);
      ApplyOne(o, syms, sec, sec.rels[k], ps[k]);
    }
  }

  /** The slice of a section holds its records. */
  ghost predicate Filled(out: Output, table: seq<Record>, f: nat, s: nat)
    requires out.Valid() && |table| == out.Size()
  {
    out.Has(f, s) ==>
      (SliceInside(out, f, s);
       table[out.Start(f, s)..out.Start(f, s) + |out.Of(f, s)|] == out.Of(f, s))
  }

  lemma {:induction false} FilledStays(out: Output, was: seq<Record>, now: seq<Record>, f: nat, s: nat, g: nat, t: nat)
    requires out.Valid() && |was| == |now| == out.Size() && out.Has(f, s) && out.Has(g, t)
    requires out.Start(g, t) + |out.Of(g, t)| <= out.Size()
    requires now == Splice(was, out.Start(g, t), out.Of(g, t))
    requires (f, s) != (g, t) ==> Filled(out, was, f, s)
    ensures Filled(out, now, f, s)
  {
    SliceInside(out, f, s);
    if (f, s) != (g, t) {
      SlicesDisjoint(out, f, s, g, t);
    }
  }

  lemma SlicesDisjoint(out: Output, f: nat, s: nat, g: nat, t: nat)
    requires out.Valid() && out.Has(f, s) && out.Has(g, t) && (f, s) != (g, t)
    ensures out.Start(f, s) + |out.Of(f, s)| <= out.Start(g, t) || out.Start(g, t) + |out.Of(g, t)| <= out.Start(f, s)
  {
    if f < g || (f == g && s < t) {
      SlicesApart(out, f, s, g, t);
    } else {
      SlicesApart(out, g, t, f, s);
    }
  }

  ghost predicate FilledBut(out: Output, table: seq<Record>, todo: set<(nat, nat)>)
    requires out.Valid() && |table| == out.Size()
  {
    forall f: nat, s: nat :: out.Has(f, s) && (f, s) !in todo ==> Filled(out, table, f, s)
  }

  lemma FilledMore(out: Output, table: seq<Record>, todo: set<(nat, nat)>, g: nat, t: nat)
    requires out.Valid() && |table| == out.Size() && FilledBut(out, table, todo) && out.Has(g, t)
    ensures out.base <= out.Start(g, t) && out.Start(g, t) + |out.Of(g, t)| <= out.Size()
    ensures FilledBut(out, Splice(table, out.Start(g, t), out.Of(g, t)), todo - {(g, t)})
    ensures Splice(table, out.Start(g, t), out.Of(g, t))[..out.base] == table[..out.base]
  {
    SliceInside(out, g, t);
    var now := Splice(table, out.Start(g, t), out.Of(g, t));
    forall f: nat, s: nat | out.Has(f, s) && (f, s) !in todo - {(g, t)} ensures Filled(out, now, f, s) {
      FilledStays(out, table, now, f, s, g, t);
    }
  }

  /** The offsets that scanning and update_shdr have computed. */
  ghost predicate OffsetsAre(out: Output, fileOffset: seq<nat>, sectionOffset: seq<seq<nat>>)
    requires out.Valid()
  {
    |fileOffset| == |sectionOffset| == |out.files| &&
    (forall f :: 0 <= f < |out.files| ==> fileOffset[f] == out.base + TotalCount(out.o, out.files, f)) &&
    (forall f :: 0 <= f < |out.files| ==> |sectionOffset[f]| == |out.files[f].sections|) &&
    forall f: nat, s: nat :: out.Has(f, s) ==> sectionOffset[f][s] == FileCount(out.o, out.files[f], s)
  }

  /** Every file has been scanned without errors. */
  ghost predicate AllCounted(out: Output, numDynrel: seq<nat>, sectionOffset: seq<seq<nat>>)
    requires out.Valid()
  {
    |numDynrel| == |sectionOffset| == |out.files| &&
    forall f :: 0 <= f < |out.files| ==>
      Counted(out.o, out.files[f], numDynrel[f], sectionOffset[f], |out.files[f].sections|)
  }

  lemma {:induction false} CountsAreSizes(out: Output, numDynrel: seq<nat>, sectionOffset: seq<seq<nat>>)
    requires out.Valid() && AllCounted(out, numDynrel, sectionOffset)
    ensures numDynrel == FileSizes(out.o, out.files)
  {
    forall f | 0 <= f < |out.files| ensures numDynrel[f] == FileSizes(out.o, out.files)[f] {
      assert Counted(out.o, out.files[f], numDynrel[f], sectionOffset[f], |out.files[f].sections|);
    }
  }

  /** Counting without errors and laying out the table give the offsets, and the size, that writing needs. */
  lemma {:induction false} CountsLayOut(out: Output, numDynrel: seq<nat>, fileOffset: seq<nat>,
                                        sectionOffset: seq<seq<nat>>)
    requires out.Valid() && AllCounted(out, numDynrel, sectionOffset) && |fileOffset| == |numDynrel|
    requires forall f :: 0 <= f < |numDynrel| ==> fileOffset[f] == out.base + Sum(numDynrel, f)
    ensures OffsetsAre(out, fileOffset, sectionOffset)
    ensures out.Size() == out.base + Sum(numDynrel, |numDynrel|)
  {
    CountsAreSizes(out, numDynrel, sectionOffset);
    forall f | 0 <= f < |out.files| ensures fileOffset[f] == out.base + TotalCount(out.o, out.files, f) {
      assert fileOffset[f] == out.base + Sum(numDynrel, f);
    }
  }

  method WriteOne(out: Output, fileOffset: seq<nat>, sectionOffset: seq<seq<nat>>, writer: Writer, f: nat, s: nat)
    requires out.Valid() && writer.table.Length == out.Size() && OffsetsAre(out, fileOffset, sectionOffset)
    requires out.Has(f, s) && out.Start(f, s) + |out.Of(f, s)| <= out.Size()
    modifies writer, writer.table
    ensures writer.table[..] == Splice(old(writer.table[..]), out.Start(f, s), out.Of(f, s))
  {
    writer.ApplySection(out.o, out.files[f], s, fileOffset[f] + sectionOffset[f][s]);
  }

  /**
   Sections are written in any order.  In the end every slice holds the records of its section, so the table
   has no gap; the records of the chunks before it are untouched.
   */
  method WriteAll(out: Output, fileOffset: seq<nat>, sectionOffset: seq<seq<nat>>, writer: Writer)
    requires out.Valid() && writer.table.Length == out.Size() && OffsetsAre(out, fileOffset, sectionOffset)
    modifies writer, writer.table
    ensures writer.table[..out.base] == old(writer.table[..out.base])
    ensures FilledBut(out, writer.table[..], {})
  {
    var todo := set f: nat, s: nat | f < |out.files| && s < |out.files[f].sections| :: (f, s);
    while todo != {}
      invariant forall f: nat, s: nat :: (f, s) in todo ==> out.Has(f, s)
      invariant FilledBut(out, writer.table[..], todo)
      invariant writer.table[..out.base] == old(writer.table[..out.base])
      decreases |todo|
    {
      var next :| next in todo;
      FilledMore(out, writer.table[..], todo, next.0, next.1);
      WriteOne(out, fileOffset, sectionOffset, writer, next.0, next.1);
      todo := todo - {next};
    }
  }

  /** In the finished table every record is one that some section emitted, at its place in the section's slice. */
  lemma EveryRecordIsEmitted(out: Output, table: seq<Record>, i: nat) returns (f: nat, s: nat)
    requires out.Valid() && |table| == out.Size() && FilledBut(out, table, {}) && out.base <= i < |table|
    ensures out.Has(f, s) && out.Start(f, s) <= i < out.Start(f, s) + |out.Of(f, s)|
    ensures table[i] == out.Of(f, s)[i - out.Start(f, s)]
  {
    f, s := SlicesCover(out, i);
    SliceInside(out, f, s);
    assert Filled(out, table, f, s);
    assert table[out.Start(f, s)..out.Start(f, s) + |out.Of(f, s)|][i - out.Start(f, s)] == table[i];
  }
}
