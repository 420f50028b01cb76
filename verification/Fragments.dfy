/**
 Attaching symbols and relocations to pieces of mergeable sections
 (ObjectFile::resolve_section_pieces in elf/input-files.cc).
 */
module Fragments {
  import opened Bits
  import opened Wrappers
  import opened Mergeable

  /** Pieces with equal contents that go to the same output section are one fragment, and no others are. */
  class MergedSections {
    var index: map<(nat, Bytes), nat>
    var pieces: seq<Bytes>

    ghost predicate Valid()
      reads this
    {
      (forall key :: key in index ==> index[key] < |pieces| && pieces[index[key]] == key.1) &&
      forall x, y :: x in index && y in index && index[x] == index[y] ==> x == y
    }

    constructor ()
      ensures Valid() && pieces == []
    {
      index, pieces := map[], [];
    }

    method Insert(parent: nat, s: Bytes) returns (frag: nat)
      requires Valid()
      modifies this
      ensures Valid() && old(pieces) <= pieces
      ensures frag < |pieces| && pieces[frag] == s
      ensures (parent, s) in index && forall key :: key in index ==> (index[key] == frag <==> key == (parent, s))
      ensures forall key :: key in old(index) ==> key in index && index[key] == old(index[key])
    {
      if (parent, s) in index {
        frag := index[(parent, s)];
      } else {
        frag := |pieces|;
        index, pieces := index[(parent, s) := frag], pieces + [s];
      }
    }
  }

  datatype Section = Section(parent: nat, strings: seq<Bytes>, offsets: seq<nat>)

  datatype ElfSym = ElfSym(special: bool, isSection: bool, shndx: nat, value: nat)

  datatype Rel = Rel(sym: nat, addend: int)

  /** What a symbol with a piece attached stands for: the piece plus an offset. */
  datatype Ref = Ref(frag: nat, value: int)

  /** Byte `at` of a fragment stands for byte `offset` of the section. */
  ghost predicate Refers(m: Section, pieces: seq<Bytes>, offset: int, frag: nat, at: int) {
    frag < |pieces| && exists idx :: RefersVia(m, pieces, offset, frag, at, idx)
  }

  ghost predicate RefersVia(m: Section, pieces: seq<Bytes>, offset: int, frag: nat, at: int, idx: nat)
    requires frag < |pieces|
  {
    idx < |m.strings| && pieces[frag] == m.strings[idx] && offset == Start(m.strings, idx) + at &&
    (offset < |Join(m.strings)| ==> Locates(m.strings, offset, idx, at)) &&
    (offset >= |Join(m.strings)| ==> idx == |m.strings| - 1)
  }

  /** Inside the section, that is the same byte. */
  lemma RefersToSameByte(m: Section, pieces: seq<Bytes>, offset: int, frag: nat, at: int)
    requires Refers(m, pieces, offset, frag, at) && 0 <= offset < |Join(m.strings)|
    ensures 0 <= at < |pieces[frag]| && pieces[frag][at] == Join(m.strings)[offset]
  {
    var idx: nat :| RefersVia(m, pieces, offset, frag, at, idx);
    LocatesOneByte(m.strings, offset, idx, at, idx, at);
  }

  ghost predicate Holds(pieces: seq<Bytes>, frags: seq<nat>, strings: seq<Bytes>) {
    |frags| == |strings| &&
    forall i :: 0 <= i < |frags| ==> frags[i] < |pieces| && pieces[frags[i]] == strings[i]
  }

  class ObjectFile {
    const symbols: seq<ElfSym>
    const sections: seq<Option<Section>>
    /** Alive and part of the memory image: only these have their relocations redirected. */
    const loaded: seq<bool>
    var fragments: seq<seq<nat>>
    var attached: seq<Option<Ref>>
    var rels: seq<seq<Rel>>
    var fragSyms: seq<Ref>

    constructor (symbols: seq<ElfSym>, sections: seq<Option<Section>>, loaded: seq<bool>, rels: seq<seq<Rel>>)
      ensures this.symbols == symbols && this.sections == sections && this.loaded == loaded && this.rels == rels
      ensures attached == seq(|symbols|, _ => None) && fragSyms == []
    {
      this.symbols, this.sections, this.loaded, this.rels := symbols, sections, loaded, rels;
      fragments, attached, fragSyms := [], seq(|symbols|, _ => None), [];
    }

    /** The relocation refers to a mergeable section through its section symbol. */
    predicate IsTarget(r: Rel) {
      r.sym < |symbols| && symbols[r.sym].isSection && symbols[r.sym].shndx < |sections| &&
      sections[symbols[r.sym].shndx].Some?
    }

    function TargetSection(r: Rel): Section
      requires IsTarget(r)
    {
      sections[symbols[r.sym].shndx].value
    }

    /** Indices have been checked when the file was read. */
    ghost predicate RelValid(r: Rel) {
      r.sym < |symbols| && (symbols[r.sym].isSection ==> symbols[r.sym].shndx < |sections|)
    }

    /** If the relocation is to be redirected, there is a piece to redirect it to. */
    predicate HasPiece(r: Rel) {
      IsTarget(r) ==> TargetSection(r).strings != [] && symbols[r.sym].value + r.addend >= 0
    }

    ghost predicate AllHavePieces(all: seq<seq<Rel>>, s: nat)
      requires s <= |all| == |loaded|
    {
      forall t, k :: 0 <= t < s && loaded[t] && 0 <= k < |all[t]| ==> HasPiece(all[t][k])
    }

    /** A relocation against the section symbol of a mergeable section that is empty never has one. */
    lemma NoPieceInEmptySection(r: Rel, h: Header, contents: Bytes)
      requires IsTarget(r) && IsSplit(h, contents, TargetSection(r).strings, TargetSection(r).offsets)
      ensures HasPiece(r) <==> contents != [] && symbols[r.sym].value + r.addend >= 0
    {
      PiecesIfNotEmpty(h, contents, TargetSection(r).strings, TargetSection(r).offsets);
    }

    ghost predicate SectionsValid() {
      forall s :: 0 <= s < |sections| && sections[s].Some? ==>
        Exact(sections[s].value.strings, sections[s].value.offsets)
    }

    ghost predicate SymbolsValid() {
      forall i :: 1 <= i < |symbols| && !symbols[i].special ==> symbols[i].shndx < |sections|
    }

    ghost predicate RelsValid(rs: seq<Rel>) {
      forall k :: 0 <= k < |rs| ==> RelValid(rs[k])
    }

    ghost predicate AllRelsValid(all: seq<seq<Rel>>) {
      |all| == |loaded| && forall s :: 0 <= s < |all| && loaded[s] ==> RelsValid(all[s])
    }

    /** The fragments of section s have the contents of its pieces. */
    ghost predicate Interned(pieces: seq<Bytes>, s: nat)
      reads this`fragments
      requires s < |sections| && |fragments| == |sections|
    {
      sections[s].Some? ==> Holds(pieces, fragments[s], sections[s].value.strings)
    }

    ghost predicate AllInterned(pieces: seq<Bytes>)
      reads this`fragments
    {
      |fragments| == |sections| && SectionsValid() && forall s :: 0 <= s < |sections| ==> Interned(pieces, s)
    }

    method InternSection(merged: MergedSections, m: Section) returns (frags: seq<nat>)
      requires merged.Valid()
      modifies merged
      ensures merged.Valid() && old(merged.pieces) <= merged.pieces
      ensures Holds(merged.pieces, frags, m.strings)
    {
      frags := [];
      for i := 0 to |m.strings|
        invariant merged.Valid() && old(merged.pieces) <= merged.pieces
        invariant |frags| == i
        invariant forall j :: 0 <= j < i ==>
                    frags[j] < |merged.pieces| && merged.pieces[frags[j]] == m.strings[j]
      {
        var frag := merged.Insert(m.parent, m.strings[i]);
        frags := frags + [frag];
      }
    }

    method InternAll(merged: MergedSections)
      requires merged.Valid() && SectionsValid()
      modifies this`fragments, merged
      ensures merged.Valid() && old(merged.pieces) <= merged.pieces
      ensures AllInterned(merged.pieces)
    {
      fragments := seq(|sections|, _ => []);
      for s := 0 to |sections|
        invariant merged.Valid() && old(merged.pieces) <= merged.pieces
        invariant |fragments| == |sections|
        invariant forall t :: 0 <= t < s && sections[t].Some? ==>
                    Holds(merged.pieces, fragments[t], sections[t].value.strings)
      {
        if sections[s].Some? {
          var frags := InternSection(merged, sections[s].value);
          fragments := fragments[s := frags];
        }
      }
    }

    /** get_fragment on section s. */
    method Lookup(ghost pieces: seq<Bytes>, s: nat, offset: int) returns (ref: Option<Ref>)
      requires s < |sections| && sections[s].Some? && AllInterned(pieces)
      ensures ref.None? <==> sections[s].value.strings == [] || offset < 0
      ensures ref.Some? ==> Refers(sections[s].value, pieces, offset, ref.value.frag, ref.value.value)
    {
      var m := sections[s].value;
      assert Interned(pieces, s);
      var place := GetFragment(m.strings, m.offsets, offset);
      if place.None? {
        return None;
      }
      ref := Some(Ref(fragments[s][place.value.0], place.value.1));
      assert RefersVia(m, pieces, offset, ref.value.frag, ref.value.value, place.value.0);
    }

    // ---- symbols

    /** Symbol i is defined in a mergeable section that has pieces. */
    predicate InPieces(i: nat) {
      1 <= i < |symbols| && !symbols[i].special && symbols[i].shndx < |sections| &&
      sections[symbols[i].shndx].Some? && sections[symbols[i].shndx].value.strings != []
    }

    ghost predicate SymbolAttached(pieces: seq<Bytes>, was: Option<Ref>, now: Option<Ref>, i: nat) {
      if InPieces(i) then
        now.Some? &&
        Refers(sections[symbols[i].shndx].value, pieces, symbols[i].value, now.value.frag, now.value.value)
      else now == was
    }

    method AttachSymbols(ghost pieces: seq<Bytes>)
      requires AllInterned(pieces) && SymbolsValid() && |attached| == |symbols|
      modifies this`attached
      ensures |attached| == |symbols|
      ensures forall i :: 0 <= i < |symbols| ==> SymbolAttached(pieces, old(attached)[i], attached[i], i)
    {
      ghost var was := attached;
      var i := 1;
      while i < |symbols|
        invariant 1 <= i && |attached| == |symbols| && AllInterned(pieces)
        invariant forall j :: 0 <= j < i && j < |symbols| ==> SymbolAttached(pieces, was[j], attached[j], j)
        invariant forall j :: i <= j < |symbols| ==> attached[j] == was[j]
      {
        var sym := symbols[i];
        if !sym.special && sections[sym.shndx].Some? && fragments[sym.shndx] != [] {
          assert Interned(pieces, sym.shndx);
          var ref := Lookup(pieces, sym.shndx, sym.value);
          attached := attached[i := ref];
        } else {
          assert !sym.special ==> Interned(pieces, sym.shndx);
        }
        i := i + 1;
      }
    }

    // ---- relocations

    function CountIn(rs: seq<Rel>, k: nat): nat
      requires k <= |rs|
    {
      if k == 0 then 0 else CountIn(rs, k - 1) + if IsTarget(rs[k - 1]) then 1 else 0
    }

    function CountAll(all: seq<seq<Rel>>, s: nat): nat
      requires s <= |all| == |loaded|
    {
      if s == 0 then 0 else CountAll(all, s - 1) + if loaded[s - 1] then CountIn(all[s - 1], |all[s - 1]|) else 0
    }

    method CountFragSyms() returns (n: nat)
      requires AllRelsValid(rels)
      ensures n == CountAll(rels, |rels|)
    {
      n := 0;
      for s := 0 to |rels|
        invariant n == CountAll(rels, s)
      {
        if loaded[s] {
          for k := 0 to |rels[s]|
            invariant n == CountAll(rels, s) + CountIn(rels[s], k)
          {
            assert RelValid(rels[s][k]);
            var esym := symbols[rels[s][k].sym];
            if esym.isSection && sections[esym.shndx].Some? {
              n := n + 1;
            }
          }
        }
      }
    }

    /** The relocation now refers to the new symbol of the given number, which stands for the same byte. */
    ghost predicate Redirected(pieces: seq<Bytes>, refs: seq<Ref>, was: Rel, now: Rel, number: nat)
      requires was.sym < |symbols|
    {
      if IsTarget(was) then
        number < |refs| && now == Rel(|symbols| + number, was.addend) &&
        Refers(TargetSection(was), pieces, symbols[was.sym].value + was.addend,
               refs[number].frag, refs[number].value + now.addend)
      else now == was
    }

    /** The first k relocations of a section have been treated, the others are as before. */
    ghost predicate Treated(pieces: seq<Bytes>, refs: seq<Ref>, base: nat, was: seq<Rel>, now: seq<Rel>, k: nat) {
      |now| == |was| && k <= |was| && RelsValid(was) &&
      (forall j :: 0 <= j < k ==> TreatedAt(pieces, refs, base, was, now, j)) &&
      forall j :: k <= j < |was| ==> now[j] == was[j]
    }

    ghost predicate TreatedAt(pieces: seq<Bytes>, refs: seq<Ref>, base: nat, was: seq<Rel>, now: seq<Rel>, j: nat)
      requires j < |was| == |now|
    {
      was[j].sym < |symbols| && Redirected(pieces, refs, was[j], now[j], base + CountIn(was, j))
    }

    /** More new symbols do not change what has been done. */
    lemma TreatedGrows(pieces: seq<Bytes>, refs: seq<Ref>, more: seq<Ref>, base: nat, was: seq<Rel>, now: seq<Rel>,
                       k: nat)
      requires Treated(pieces, refs, base, was, now, k)
      ensures Treated(pieces, refs + more, base, was, now, k)
    {
      forall j | 0 <= j < k ensures TreatedAt(pieces, refs + more, base, was, now, j) {
        assert TreatedAt(pieces, refs, base, was, now, j);
      }
    }

    lemma TreatedStep(pieces: seq<Bytes>, refs: seq<Ref>, base: nat, was: seq<Rel>, now: seq<Rel>, k: nat, frag: nat,
                      at: int)
      requires Treated(pieces, refs, base, was, now, k) && k < |was| && |refs| == base + CountIn(was, k)
      requires IsTarget(was[k])
      requires Refers(TargetSection(was[k]), pieces, symbols[was[k].sym].value + was[k].addend, frag, at)
      ensures Treated(pieces, refs + [Ref(frag, at - was[k].addend)], base, was,
                      now[k := Rel(|symbols| + |refs|, was[k].addend)], k + 1)
      ensures |refs| + 1 == base + CountIn(was, k + 1)
    {
      var refs', now' := refs + [Ref(frag, at - was[k].addend)], now[k := Rel(|symbols| + |refs|, was[k].addend)];
      TreatedGrows(pieces, refs, [Ref(frag, at - was[k].addend)], base, was, now, k);
      forall j | 0 <= j < k ensures TreatedAt(pieces, refs', base, was, now', j) {
        assert TreatedAt(pieces, refs', base, was, now, j);
      }
      assert TreatedAt(pieces, refs', base, was, now', k);
    }

    /** Redirects the relocations of one section; stops at one that has no piece. */
    method RedirectSection(ghost pieces: seq<Bytes>, s: nat) returns (ok: bool)
      requires AllInterned(pieces) && s < |rels| && RelsValid(rels[s])
      modifies this`rels, this`fragSyms
      ensures ok <==> forall k :: 0 <= k < |old(rels)[s]| ==> HasPiece(old(rels)[s][k])
      ensures |rels| == |old(rels)| && rels == old(rels)[s := rels[s]]
      ensures old(fragSyms) <= fragSyms
      ensures ok ==> |fragSyms| == |old(fragSyms)| + CountIn(old(rels)[s], |old(rels)[s]|)
      ensures ok ==> Treated(pieces, fragSyms, |old(fragSyms)|, old(rels)[s], rels[s], |rels[s]|)
    {
      ghost var was, base := rels[s], |fragSyms|;
      for k := 0 to |rels[s]|
        invariant |rels| == |old(rels)| && rels == old(rels)[s := rels[s]]
        invariant AllInterned(pieces) && old(fragSyms) <= fragSyms
        invariant |fragSyms| == base + CountIn(was, k)
        invariant Treated(pieces, fragSyms, base, was, rels[s], k)
        invariant forall j :: 0 <= j < k ==> HasPiece(was[j])
      {
        var r := rels[s][k];
        assert RelValid(r);
        var esym := symbols[r.sym];
        if !esym.isSection {
          continue;
        }
        if sections[esym.shndx].None? {
          continue;
        }
        var ref := Lookup(pieces, esym.shndx, esym.value + r.addend);
        if ref.None? {
          assert !HasPiece(was[k]);
          return false;
        }
        var frag, at := ref.value.frag, ref.value.value;
        TreatedStep(pieces, fragSyms, base, was, rels[s], k, frag, at);
        rels := rels[s := rels[s][k := Rel(|symbols| + |fragSyms|, r.addend)]];
        fragSyms := fragSyms + [Ref(frag, at - r.addend)];
      }
      return true;
    }

    /** What becomes of the relocations of section s. */
    ghost predicate SectionDone(pieces: seq<Bytes>, refs: seq<Ref>, was: seq<seq<Rel>>, now: seq<seq<Rel>>, s: nat)
      requires s < |was| == |now| == |loaded|
    {
      if loaded[s] then Treated(pieces, refs, CountAll(was, s), was[s], now[s], |was[s]|) else now[s] == was[s]
    }

    method RedirectAll(ghost pieces: seq<Bytes>) returns (ok: bool)
      requires AllInterned(pieces) && AllRelsValid(rels)
      modifies this`rels, this`fragSyms
      ensures |rels| == |old(rels)| == |loaded|
      ensures ok <==> AllHavePieces(old(rels), |rels|)
      ensures ok ==> |fragSyms| == CountAll(old(rels), |rels|)
      ensures ok ==> forall s :: 0 <= s < |rels| ==> SectionDone(pieces, fragSyms, old(rels), rels, s)
    {
      ghost var was := rels;
      var count := CountFragSyms();
      fragSyms := [];
      for s := 0 to |rels|
        invariant |rels| == |was| && AllInterned(pieces)
        invariant |fragSyms| == CountAll(was, s) && AllHavePieces(was, s)
        invariant forall t :: 0 <= t < s ==> SectionDone(pieces, fragSyms, was, rels, t)
        invariant forall t :: s <= t < |was| ==> rels[t] == was[t]
      {
        if loaded[s] {
          ghost var refs, now := fragSyms, rels;
          var fine := RedirectSection(pieces, s);
          if !fine {
            return false;
          }
          forall t | 0 <= t < s ensures SectionDone(pieces, fragSyms, was, rels, t) {
            assert SectionDone(pieces, refs, was, now, t);
            assert fragSyms == refs + fragSyms[|refs|..];
            if loaded[t] {
              TreatedGrows(pieces, refs, fragSyms[|refs|..], CountAll(was, t), was[t], now[t], |was[t]|);
            }
          }
        }
      }
      assert |fragSyms| == count;
      return true;
    }

    /** resolve_section_pieces; false if it takes the piece of a section that has none there. */
    method ResolveSectionPieces(merged: MergedSections) returns (ok: bool)
      requires merged.Valid() && SectionsValid() && SymbolsValid() && AllRelsValid(rels)
      requires |attached| == |symbols|
      modifies this, merged
      ensures merged.Valid() && old(merged.pieces) <= merged.pieces
      ensures |attached| == |symbols| && |rels| == |old(rels)| == |loaded|
      ensures forall i :: 0 <= i < |symbols| ==> SymbolAttached(merged.pieces, old(attached)[i], attached[i], i)
      ensures ok <==> AllHavePieces(old(rels), |rels|)
      ensures ok ==> |fragSyms| == CountAll(old(rels), |rels|)
      ensures ok ==> forall s :: 0 <= s < |rels| ==> SectionDone(merged.pieces, fragSyms, old(rels), rels, s)
    {
      InternAll(merged);
      AttachSymbols(merged.pieces);
      ok := RedirectAll(merged.pieces);
    }

    /** A redirected relocation still denotes the byte it denoted before, and no other uses its symbol. */
    lemma SameByteAfterwards(pieces: seq<Bytes>, refs: seq<Ref>, was: seq<seq<Rel>>, now: seq<seq<Rel>>, s: nat, k: nat)
      requires s < |was| == |now| == |loaded| && loaded[s] && k < |was[s]| && SectionDone(pieces, refs, was, now, s)
      requires IsTarget(was[s][k])
      ensures |now[s]| == |was[s]|
      ensures
        var r, r', contents := was[s][k], now[s][k], Join(TargetSection(was[s][k]).strings);
        var offset := symbols[r.sym].value + r.addend;
        |symbols| <= r'.sym < |symbols| + |refs| &&
        var ref := refs[r'.sym - |symbols|];
        ref.frag < |pieces| &&
        (0 <= offset < |contents| ==>
           0 <= ref.value + r'.addend < |pieces[ref.frag]| &&
           pieces[ref.frag][ref.value + r'.addend] == contents[offset])
    {
      var r, r', m := was[s][k], now[s][k], TargetSection(was[s][k]);
      assert TreatedAt(pieces, refs, CountAll(was, s), was[s], now[s], k);
      var ref, offset := refs[r'.sym - |symbols|], symbols[r.sym].value + r.addend;
      if 0 <= offset < |Join(m.strings)| {
        RefersToSameByte(m, pieces, offset, ref.frag, ref.value + r'.addend);
      }
    }
  }
}
