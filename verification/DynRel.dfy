/**
 Dynamic relocations: what the scan counts, what the apply pass emits, and where it goes
 (elf/input-sections.cc, elf/arch-riscv.cc, RelDynSection::update_shdr in elf/output-chunks.cc).
 */
module DynRel {
  import opened Bits

  datatype Action = NONE | ERROR | COPYREL | DYN_COPYREL | PLT | CPLT | DYN_CPLT | DYNREL | BASEREL | IFUNC

  datatype Options = Options(
    shared: bool, pie: bool, is64: bool, zText: bool, zCopyreloc: bool, packRelr: bool, applyDynamic: bool)
  {
    function OutputType(): (r: nat)
      ensures r < 3
    {
      if shared then 0 else if pie then 1 else 2
    }

    function WordSize(): nat {
      if is64 then 8 else 4
    }
  }

  /** `undefError` says that record_undef_error reports references to the symbol. */
  datatype Symbol = Symbol(
    absolute: bool, imported: bool, func: bool, ifunc: bool, protected: bool, undefError: bool,
    addr: int, resolverAddr: int, dynsymIdx: nat)
  {
    function SymType(): (r: nat)
      ensures r < 4
    {
      if absolute then 0 else if !imported then 1 else if !func then 2 else 3
    }
  }

  datatype Kind = R_NONE | R_32 | R_64 | R_HI20 | R_CALL |
    R_GOT_HI20 | R_TLS_GOT_HI20 | R_TLS_GD_HI20 | R_32_PCREL | R_OTHER

  datatype Rel = Rel(kind: Kind, offset: nat, sym: nat, addend: int)

  datatype Section = Section(addr: nat, writable: bool, exec: bool, addralign: nat, rels: seq<Rel>)

  type Table = t: seq<seq<Action>> | |t| == 3 && forall i :: 0 <= i < 3 ==> |t[i]| == 4
    witness [[NONE, NONE, NONE, NONE], [NONE, NONE, NONE, NONE], [NONE, NONE, NONE, NONE]]

  //  columns: absolute, local, imported data, imported code
  const PCREL_TABLE: Table := [
    [ERROR, NONE, ERROR,   PLT],
    [ERROR, NONE, COPYREL, PLT],
    [NONE,  NONE, COPYREL, CPLT]]

  const ABSREL_TABLE: Table := [
    [NONE, ERROR, ERROR,   ERROR],
    [NONE, ERROR, ERROR,   ERROR],
    [NONE, NONE,  COPYREL, CPLT]]

  const DYN_ABSREL_TABLE: Table := [
    [NONE, BASEREL, DYNREL,      DYNREL],
    [NONE, BASEREL, DYNREL,      DYNREL],
    [NONE, NONE,    DYN_COPYREL, DYN_CPLT]]

  function GetRelAction(o: Options, sym: Symbol, table: Table): Action {
    table[o.OutputType()][sym.SymType()]
  }

  function DynAbsrelAction(o: Options, sym: Symbol): Action {
    if sym.ifunc then IFUNC else GetRelAction(o, sym, DYN_ABSREL_TABLE)
  }

  predicate IsRelrReloc(o: Options, sec: Section, r: Rel) {
    o.packRelr && !sec.exec && sec.addralign % o.WordSize() == 0 && r.offset % o.WordSize() == 0
  }

  // ---- the scan

  datatype Need = NEEDS_GOT | NEEDS_PLT | NEEDS_CPLT | NEEDS_COPYREL | NEEDS_GOTTP | NEEDS_TLSGD

  /** What scanning one relocation changes: counters, flags of its symbol, and reported errors. */
  datatype Scan = Scan(dynrels: nat, ifuncs: nat, textrel: bool, needs: set<Need>, errors: nat)

  const NOTHING := Scan(0, 0, false, {}, 0)

  function Textrel(o: Options, sec: Section, dynrels: nat, ifuncs: nat): Scan {
    Scan(dynrels, ifuncs, !sec.writable, {}, if !sec.writable && o.zText then 1 else 0)
  }

  function Copyrel(o: Options, sym: Symbol, errors: nat): Scan {
    Scan(0, 0, false, {NEEDS_COPYREL}, errors + if sym.protected then 1 else 0)
  }

  function ScanRel(o: Options, sec: Section, sym: Symbol, r: Rel, action: Action): Scan {
    match action
    case NONE => NOTHING
    case ERROR => NOTHING.(errors := 1)
    case COPYREL => Copyrel(o, sym, if o.zCopyreloc then 0 else 1)
    case DYN_COPYREL => if sec.writable || !o.zCopyreloc then Textrel(o, sec, 1, 0) else Copyrel(o, sym, 0)
    case PLT => NOTHING.(needs := {NEEDS_PLT})
    case CPLT => NOTHING.(needs := {NEEDS_CPLT})
    case DYN_CPLT => if sec.writable then Textrel(o, sec, 1, 0) else NOTHING.(needs := {NEEDS_CPLT})
    case DYNREL => Textrel(o, sec, 1, 0)
    case BASEREL => Textrel(o, sec, if IsRelrReloc(o, sec, r) then 0 else 1, 0)
    case IFUNC => Textrel(o, sec, 1, 1)
  }

  /** The switch of scan_relocations. */
  function ScanKind(o: Options, sec: Section, sym: Symbol, r: Rel): Scan {
    match r.kind
    case R_32 =>
      ScanRel(o, sec, sym, r, if o.is64 then GetRelAction(o, sym, ABSREL_TABLE) else DynAbsrelAction(o, sym))
    case R_HI20 => ScanRel(o, sec, sym, r, GetRelAction(o, sym, ABSREL_TABLE))
    case R_64 => if o.is64 then ScanRel(o, sec, sym, r, DynAbsrelAction(o, sym)) else NOTHING.(errors := 1)
    case R_CALL => if sym.imported then NOTHING.(needs := {NEEDS_PLT}) else NOTHING
    case R_GOT_HI20 => NOTHING.(needs := {NEEDS_GOT})
    case R_TLS_GOT_HI20 => NOTHING.(needs := {NEEDS_GOTTP})
    case R_TLS_GD_HI20 => NOTHING.(needs := {NEEDS_TLSGD})
    case R_32_PCREL => ScanRel(o, sec, sym, r, GetRelAction(o, sym, PCREL_TABLE))
    case _ => NOTHING
  }

  function ScanOne(o: Options, syms: seq<Symbol>, sec: Section, r: Rel): Scan
    requires r.sym < |syms|
  {
    var sym := syms[r.sym];
    if r.kind == R_NONE then NOTHING
    else if sym.undefError then NOTHING.(errors := 1)
    else
      var s := ScanKind(o, sec, sym, r);
      if sym.ifunc then s.(needs := s.needs + {NEEDS_GOT, NEEDS_PLT}) else s
  }

  // ---- the apply pass

  datatype RecordType = RELATIVE | ABS | IRELATIVE

  datatype Record = Record(place: nat, rtype: RecordType, sym: nat, addend: int)

  /** What applying one word-size relocation does: the word written, if any, and the record emitted, if any. */
  datatype Apply = Apply(word: seq<int>, records: seq<Record>)

  function Place(sec: Section, r: Rel): nat {
    sec.addr + r.offset
  }

  function ApplyDynrel(o: Options, sym: Symbol, place: nat, addend: int): Apply {
    Apply(if o.applyDynamic then [addend] else [], [Record(place, ABS, sym.dynsymIdx, addend)])
  }

  function ApplyAbsrel(o: Options, sec: Section, sym: Symbol, r: Rel, action: Action): Apply {
    var value := sym.addr + r.addend;
    match action
    case BASEREL =>
      if IsRelrReloc(o, sec, r) then Apply([value], [])
      else Apply(if o.applyDynamic then [value] else [], [Record(Place(sec, r), RELATIVE, 0, value)])
    case DYN_COPYREL =>
      if sec.writable || !o.zCopyreloc then ApplyDynrel(o, sym, Place(sec, r), r.addend) else Apply([value], [])
    case DYN_CPLT => if sec.writable then ApplyDynrel(o, sym, Place(sec, r), r.addend) else Apply([value], [])
    case DYNREL => ApplyDynrel(o, sym, Place(sec, r), r.addend)
    case IFUNC =>
      var addr := sym.resolverAddr + r.addend;
      Apply(if o.applyDynamic then [addr] else [], [Record(Place(sec, r), IRELATIVE, 0, addr)])
    case _ => Apply([value], [])
  }

  predicate IsWordSize(o: Options, kind: Kind) {
    kind == if o.is64 then R_64 else R_32
  }

  /** The records emitted for one relocation. */
  function Emitted(o: Options, syms: seq<Symbol>, sec: Section, r: Rel): seq<Record>
    requires r.sym < |syms|
  {
    if IsWordSize(o, r.kind) then ApplyAbsrel(o, sec, syms[r.sym], r, DynAbsrelAction(o, syms[r.sym])).records else []
  }

  /** The actions that come up for word-size relocations are those apply_absrel knows. */
  lemma WordSizeActions(o: Options, sym: Symbol)
    ensures DynAbsrelAction(o, sym) in {NONE, BASEREL, DYN_COPYREL, DYN_CPLT, DYNREL, IFUNC}
  {
    var i, j := o.OutputType(), sym.SymType();
    if i == 0 {
      assert DYN_ABSREL_TABLE[0][j] in {NONE, BASEREL, DYNREL};
    } else if i == 1 {
      assert DYN_ABSREL_TABLE[1][j] in {NONE, BASEREL, DYNREL};
    } else {
      assert DYN_ABSREL_TABLE[2][j] in {NONE, DYN_COPYREL, DYN_CPLT};
    }
  }

  /** No other relocation is ever promoted to a dynamic one. */
  lemma SmallerOnesStayStatic(o: Options, sec: Section, sym: Symbol, r: Rel)
    ensures ScanRel(o, sec, sym, r, GetRelAction(o, sym, ABSREL_TABLE)).dynrels == 0
    ensures ScanRel(o, sec, sym, r, GetRelAction(o, sym, PCREL_TABLE)).dynrels == 0
  {
    var i, j := o.OutputType(), sym.SymType();
    assert ABSREL_TABLE[i][j] in {NONE, ERROR, COPYREL, CPLT};
    assert PCREL_TABLE[i][j] in {NONE, ERROR, COPYREL, PLT, CPLT};
  }

  /** Unless it reports an error, the scan adds to the count exactly as many records as will be emitted. */
  lemma ScanCountsEmitted(o: Options, syms: seq<Symbol>, sec: Section, r: Rel)
    requires r.sym < |syms|
    ensures ScanOne(o, syms, sec, r).errors == 0 ==>
              ScanOne(o, syms, sec, r).dynrels == |Emitted(o, syms, sec, r)|
  {
    var sym := syms[r.sym];
    WordSizeActions(o, sym);
    SmallerOnesStayStatic(o, sec, sym, r);
  }

  /** What makes a record necessary: a word that only the loader can fill in, and that is not packed. */
  predicate NeedsRecord(o: Options, sec: Section, sym: Symbol, r: Rel) {
    match DynAbsrelAction(o, sym)
    case BASEREL => !IsRelrReloc(o, sec, r)
    case DYNREL => true
    case IFUNC => true
    case DYN_COPYREL => sec.writable || !o.zCopyreloc
    case DYN_CPLT => sec.writable
    case _ => false
  }

  /**
   The two passes disagree exactly about references to undefined symbols that need a record: these are
   emitted but have not been counted.  The scan has then reported an error.
   */
  lemma UndefinedSymbolsAreReported(o: Options, syms: seq<Symbol>, sec: Section, r: Rel)
    requires r.sym < |syms|
    ensures
      var sym, counted, emitted := syms[r.sym], ScanOne(o, syms, sec, r).dynrels, |Emitted(o, syms, sec, r)|;
      (emitted == if IsWordSize(o, r.kind) && NeedsRecord(o, sec, sym, r) then 1 else 0) &&
      (counted != emitted <==> sym.undefError && IsWordSize(o, r.kind) && NeedsRecord(o, sec, sym, r)) &&
      (counted != emitted ==> counted == 0 && ScanOne(o, syms, sec, r).errors > 0)
  {
    WordSizeActions(o, syms[r.sym]);
    SmallerOnesStayStatic(o, sec, syms[r.sym], r);
  }

  // ---- what the loader makes of it

  /** The load bias of a position-dependent executable is zero. */
  predicate BiasFits(o: Options, bias: int) {
    o.shared || o.pie || bias == 0
  }

  /**
   The loader looks up imported symbols by name.  Where this output holds the definition that everyone
   uses, a copy-relocated variable or a canonical PLT entry, the lookup finds that.
   */
  predicate LookupFits(o: Options, sec: Section, sym: Symbol, found: int) {
    match DynAbsrelAction(o, sym)
    case DYN_COPYREL => !sec.writable && o.zCopyreloc ==> found == sym.addr
    case DYN_CPLT => !sec.writable ==> found == sym.addr
    case _ => true
  }

  /**
   The word at the place after loading.  `packed` says that the place is in the packed table, and `packedLast`
   that the loader takes that table after the records.
   */
  function Loaded(a: Apply, packed: bool, packedLast: bool, before: int, bias: int, found: int,
                  resolve: int -> int): int
  {
    if a.records == [] then (if packed then bias else 0) + if a.word == [] then before else a.word[0]
    else
      var addend := a.records[0].addend;
      (if packed && packedLast then bias else 0) +
      match a.records[0].rtype
      case RELATIVE => bias + addend
      case ABS => found + addend
      case IRELATIVE => resolve(bias + addend)
  }

  /** The value the program is meant to see. */
  function Meant(sym: Symbol, r: Rel, bias: int, found: int, resolve: int -> int): int {
    if sym.ifunc then resolve(bias + sym.resolverAddr + r.addend)
    else if sym.absolute then sym.addr + r.addend
    else if sym.imported then found + r.addend
    else bias + sym.addr + r.addend
  }

  /** The places the packed relative relocations are made from (OutputSection::construct_relr). */
  predicate InRelrTable(o: Options, p2align: nat, sec: Section, sym: Symbol, r: Rel) {
    o.packRelr && (o.shared || o.pie) && !sec.exec && Pow2(p2align) >= o.WordSize() &&
    IsWordSize(o, r.kind) && r.offset % o.WordSize() == 0 && !sym.absolute && !sym.imported
  }

  /** to_p2align: an alignment of 0 counts as 1. */
  predicate AlignmentFits(addralign: nat, p2align: nat) {
    if addralign == 0 then p2align == 0 else addralign == Pow2(p2align)
  }

  lemma WordDivides(o: Options, k: nat)
    ensures Pow2(k) >= o.WordSize() <==> Pow2(k) % o.WordSize() == 0
  {
    var j := if o.is64 then 3 else 2;
    assert Pow2(j) == o.WordSize();
    if j <= k {
      Pow2Divides(j, k);
    } else {
      Pow2Divides(k, j - 1);
      assert Pow2(j) == 2 * Pow2(j - 1);
    }
  }

  /** The row of the action table for position-independent output, and that for the other. */
  lemma DynTable(o: Options, sym: Symbol)
    ensures
      var pic, action := o.shared || o.pie, GetRelAction(o, sym, DYN_ABSREL_TABLE);
      (action == BASEREL <==> pic && !sym.absolute && !sym.imported) &&
      (action == DYNREL <==> pic && !sym.absolute && sym.imported) &&
      (action == DYN_COPYREL <==> !pic && !sym.absolute && sym.imported && !sym.func) &&
      (action == DYN_CPLT <==> !pic && !sym.absolute && sym.imported && sym.func) &&
      action in {NONE, BASEREL, DYNREL, DYN_COPYREL, DYN_CPLT}
  {
    var row := DYN_ABSREL_TABLE[o.OutputType()];
    assert o.OutputType() < 2 ==> row == [NONE, BASEREL, DYNREL, DYNREL];
    assert o.OutputType() == 2 ==> row == [NONE, NONE, DYN_COPYREL, DYN_CPLT];
  }

  /** The two tests for packed relocations agree but for a section header that says alignment 0. */
  lemma TestsDisagree(o: Options, p2align: nat, sec: Section, sym: Symbol, r: Rel)
    requires AlignmentFits(sec.addralign, p2align) && IsWordSize(o, r.kind)
    ensures InRelrTable(o, p2align, sec, sym, r) <==>
            IsRelrReloc(o, sec, r) && sec.addralign != 0 &&
            GetRelAction(o, sym, DYN_ABSREL_TABLE) == BASEREL
  {
    WordDivides(o, p2align);
    DynTable(o, sym);
    assert Pow2(0) == 1;
  }

  /**
   Where a word is accounted for.  A base relocation has a record or is in the packed table, never both, and
   is in neither exactly in a section of alignment 0 that one test takes for a multiple of the word size
   and the other for 1.  A reference to an ifunc always has a record and can be in the packed table as well.
   Nothing else is in the packed table.
   */
  lemma PackedOrRecorded(o: Options, p2align: nat, sec: Section, sym: Symbol, r: Rel)
    requires AlignmentFits(sec.addralign, p2align) && IsWordSize(o, r.kind)
    ensures
      var action, packed := DynAbsrelAction(o, sym), InRelrTable(o, p2align, sec, sym, r);
      var recorded := ApplyAbsrel(o, sec, sym, r, action).records != [];
      (packed && recorded <==> action == IFUNC && packed) &&
      (action == IFUNC ==> recorded) &&
      (action == BASEREL ==> (!packed && !recorded <==> sec.addralign == 0 && IsRelrReloc(o, sec, r))) &&
      (action !in {BASEREL, IFUNC} ==> !packed)
  {
    TestsDisagree(o, p2align, sec, sym, r);
    DynTable(o, sym);
  }

  /**
   For every kind of output and symbol, the loaded word is the run-time address plus the addend, if and only
   if the output is loaded where it was linked, or the word is neither of the two exceptions above: one that
   nobody relocates, and one that is relocated twice by a loader that takes the packed table last.
   */
  lemma LoadedWordIsRight(o: Options, p2align: nat, sec: Section, sym: Symbol, r: Rel, packedLast: bool,
                          before: int, bias: int, found: int, resolve: int -> int)
    requires AlignmentFits(sec.addralign, p2align) && IsWordSize(o, r.kind)
    requires BiasFits(o, bias) && LookupFits(o, sec, sym, found)
    ensures
      var action, packed := DynAbsrelAction(o, sym), InRelrTable(o, p2align, sec, sym, r);
      Loaded(ApplyAbsrel(o, sec, sym, r, action), packed, packedLast, before, bias, found, resolve) ==
      Meant(sym, r, bias, found, resolve)
      <==>
      bias == 0 || !((action == BASEREL && IsRelrReloc(o, sec, r) && sec.addralign == 0) ||
                     (action == IFUNC && packed && packedLast))
  {
    TestsDisagree(o, p2align, sec, sym, r);
    DynTable(o, sym);
    assert bias + (sym.resolverAddr + r.addend) == bias + sym.resolverAddr + r.addend;
  }
}
