/**
 Garbage collection of sections (elf/gc-sections.cc).

 Sections are numbered; a section that is missing counts as not alive.  A relocation is represented by
 what its symbol stands for.
 */
module SectionGc {
  import opened InputSections

  datatype Target = Nothing | InSection(section: nat) | InFragment(frag: nat)

  /** `keep` is the result of should_keep; an FDE is the list of its relocations. */
  datatype Section = Section(alloc: bool, keep: bool, fdes: seq<seq<Target>>, rels: seq<Target>)

  datatype Program = Program(
    sections: seq<Section>, alive: seq<bool>, fragments: nat,
    exported: seq<Target>, requested: seq<Target>, cies: seq<Target>)
  {
    predicate InRange(t: Target) {
      match t
      case Nothing => true
      case InSection(s) => s < |sections|
      case InFragment(f) => f < fragments
    }

    predicate AllInRange(ts: seq<Target>) {
      forall k :: 0 <= k < |ts| ==> InRange(ts[k])
    }

    predicate SectionInRange(s: nat)
      requires s < |sections|
    {
      AllInRange(sections[s].rels) &&
      forall i :: 0 <= i < |sections[s].fdes| ==> sections[s].fdes[i] != [] && AllInRange(sections[s].fdes[i])
    }

    predicate Valid() {
      |alive| == |sections| && (forall s :: 0 <= s < |sections| ==> SectionInRange(s)) && AllInRange(RootSymbols())
    }

    function RootSymbols(): seq<Target> {
      exported + requested + cies
    }

    /** Sections the collector may discard. */
    predicate Collectable(s: nat) {
      s < |sections| == |alive| && alive[s] && sections[s].alloc
    }

    /** Section s refers to t by a relocation, or by a relocation of one of its FDEs other than the first. */
    ghost predicate Edge(s: nat, t: nat) {
      s < |sections| && Collectable(t) &&
      (InSection(t) in sections[s].rels ||
       exists i, k :: 0 <= i < |sections[s].fdes| && 1 <= k < |sections[s].fdes[i]| &&
                      sections[s].fdes[i][k] == InSection(t))
    }

    predicate Root(s: nat) {
      Collectable(s) && (sections[s].keep || InSection(s) in RootSymbols())
    }

    ghost predicate IsPath(path: seq<nat>) {
      path != [] && Root(path[0]) && forall i :: 0 <= i < |path| - 1 ==> Link(path, i)
    }

    ghost predicate Link(path: seq<nat>, i: nat)
      requires i + 1 < |path|
    {
      Edge(path[i], path[i + 1])
    }

    ghost predicate Reach(s: nat) {
      exists path :: IsPath(path) && path[|path| - 1] == s
    }

    /** A piece of a mergeable section that a root symbol or a reachable section refers to. */
    ghost predicate FragmentReach(f: nat) {
      InFragment(f) in RootSymbols() || exists s :: FragmentIn(f, s)
    }

    ghost predicate FragmentIn(f: nat, s: nat) {
      s < |sections| && Reach(s) && InFragment(f) in sections[s].rels
    }

    lemma RootReached(s: nat)
      requires Root(s)
      ensures Reach(s)
    {
      var path := [s];
      assert IsPath(path) && path[|path| - 1] == s;
    }

    lemma EdgeReached(s: nat, t: nat)
      requires Reach(s) && Edge(s, t)
      ensures Reach(t)
    {
      var path :| IsPath(path) && path[|path| - 1] == s;
      var longer := path + [t];
      forall i | 0 <= i < |longer| - 1 ensures Link(longer, i) {
        if i < |path| - 1 {
          assert Link(path, i);
        }
      }
      assert IsPath(longer) && longer[|longer| - 1] == t;
    }
  }

  /** Marks, queued sections, and the sections whose relocations have been looked at. */
  datatype State = State(marked: seq<bool>, frags: seq<bool>, queued: multiset<nat>, expanded: multiset<nat>) {
    function Count(s: nat): nat {
      queued[s] + expanded[s]
    }

    predicate Shape(p: Program) {
      |marked| == |p.sections| == |p.alive| && |frags| == p.fragments
    }
  }

  ghost predicate RelDone(p: Program, st: State, t: Target)
    requires st.Shape(p)
  {
    match t
    case Nothing => true
    case InSection(s) => p.Collectable(s) ==> st.marked[s]
    case InFragment(f) => f < |st.frags| ==> st.frags[f]
  }

  /** A relocation of an FDE only keeps sections, not pieces of mergeable sections. */
  ghost predicate FdeRelDone(p: Program, st: State, t: Target)
    requires st.Shape(p)
  {
    t.InSection? ==> RelDone(p, st, t)
  }

  ghost predicate FdeRelsDone(p: Program, st: State, fde: seq<Target>, n: nat)
    requires st.Shape(p) && n <= |fde|
  {
    forall k :: 1 <= k < n ==> FdeRelDone(p, st, fde[k])
  }

  ghost predicate FdeDone(p: Program, st: State, fde: seq<Target>)
    requires st.Shape(p)
  {
    FdeRelsDone(p, st, fde, |fde|)
  }

  ghost predicate RelsDone(p: Program, st: State, rels: seq<Target>, n: nat)
    requires st.Shape(p) && n <= |rels|
  {
    forall k :: 0 <= k < n ==> RelDone(p, st, rels[k])
  }

  ghost predicate FdesDone(p: Program, st: State, fdes: seq<seq<Target>>, n: nat)
    requires st.Shape(p) && n <= |fdes|
  {
    forall i :: 0 <= i < n ==> FdeDone(p, st, fdes[i])
  }

  /** Everything section s refers to is marked. */
  ghost predicate Done(p: Program, st: State, s: nat)
    requires st.Shape(p)
  {
    s < |p.sections| ==>
      RelsDone(p, st, p.sections[s].rels, |p.sections[s].rels|) &&
      FdesDone(p, st, p.sections[s].fdes, |p.sections[s].fdes|)
  }

  function Bit(b: bool): nat {
    if b then 1 else 0
  }

  /**
   What marking may do: marks are only added, and only to what is reachable; a section newly marked is queued
   or expanded exactly once, and nothing else is; what has been expanded is done.
   */
  ghost predicate Extends(p: Program, a: State, b: State) {
    a.Shape(p) && b.Shape(p) && a.queued <= b.queued && a.expanded <= b.expanded &&
    (forall s :: s in b.queued && s !in a.queued ==> s < |p.sections|) &&
    (forall s :: 0 <= s < |p.sections| ==> MarkExtends(p, a, b, s)) &&
    (forall f :: 0 <= f < p.fragments ==> FragExtends(p, a, b, f)) &&
    forall s: nat :: b.expanded[s] > a.expanded[s] ==> Done(p, b, s)
  }

  ghost predicate MarkExtends(p: Program, a: State, b: State, s: nat)
    requires a.Shape(p) && b.Shape(p) && s < |p.sections|
  {
    (a.marked[s] ==> b.marked[s]) && (b.marked[s] ==> a.marked[s] || (p.Collectable(s) && p.Reach(s))) &&
    b.Count(s) + Bit(a.marked[s]) == a.Count(s) + Bit(b.marked[s])
  }

  ghost predicate FragExtends(p: Program, a: State, b: State, f: nat)
    requires a.Shape(p) && b.Shape(p) && f < p.fragments
  {
    (a.frags[f] ==> b.frags[f]) && (b.frags[f] ==> a.frags[f] || p.FragmentReach(f))
  }

  lemma RelDoneGrows(p: Program, a: State, b: State, t: Target)
    requires Extends(p, a, b) && RelDone(p, a, t)
    ensures RelDone(p, b, t)
  {
    if t.InSection? && p.Collectable(t.section) {
      assert MarkExtends(p, a, b, t.section);
    } else if t.InFragment? && t.frag < p.fragments {
      assert FragExtends(p, a, b, t.frag);
    }
  }

  lemma FdeRelDoneGrows(p: Program, a: State, b: State, t: Target)
    requires Extends(p, a, b) && FdeRelDone(p, a, t)
    ensures FdeRelDone(p, b, t)
  {
    if t.InSection? {
      RelDoneGrows(p, a, b, t);
    }
  }

  lemma FdeRelsDoneGrow(p: Program, a: State, b: State, fde: seq<Target>, n: nat)
    requires Extends(p, a, b) && n <= |fde| && FdeRelsDone(p, a, fde, n)
    ensures FdeRelsDone(p, b, fde, n)
  {
    forall k | 1 <= k < n ensures FdeRelDone(p, b, fde[k]) {
      FdeRelDoneGrows(p, a, b, fde[k]);
    }
  }

  lemma FdeRelsDoneStep(p: Program, a: State, b: State, fde: seq<Target>, n: nat)
    requires Extends(p, a, b) && 1 <= n < |fde| && FdeRelsDone(p, a, fde, n) && FdeRelDone(p, b, fde[n])
    ensures FdeRelsDone(p, b, fde, n + 1)
  {
    FdeRelsDoneGrow(p, a, b, fde, n);
  }

  lemma FdesDoneStep(p: Program, a: State, b: State, fdes: seq<seq<Target>>, n: nat)
    requires Extends(p, a, b) && n < |fdes| && FdesDone(p, a, fdes, n) && FdeDone(p, b, fdes[n])
    ensures FdesDone(p, b, fdes, n + 1)
  {
    FdesDoneGrow(p, a, b, fdes, n);
  }

  lemma RelsDoneGrow(p: Program, a: State, b: State, rels: seq<Target>, n: nat)
    requires Extends(p, a, b) && n <= |rels| && RelsDone(p, a, rels, n)
    ensures RelsDone(p, b, rels, n)
  {
    forall k | 0 <= k < n ensures RelDone(p, b, rels[k]) {
      RelDoneGrows(p, a, b, rels[k]);
    }
  }

  lemma FdesDoneGrow(p: Program, a: State, b: State, fdes: seq<seq<Target>>, n: nat)
    requires Extends(p, a, b) && n <= |fdes| && FdesDone(p, a, fdes, n)
    ensures FdesDone(p, b, fdes, n)
  {
    forall i | 0 <= i < n ensures FdeDone(p, b, fdes[i]) {
      FdeRelsDoneGrow(p, a, b, fdes[i], |fdes[i]|);
    }
  }

  lemma DoneGrows(p: Program, a: State, b: State, s: nat)
    requires Extends(p, a, b) && Done(p, a, s)
    ensures Done(p, b, s)
  {
    if s < |p.sections| {
      RelsDoneGrow(p, a, b, p.sections[s].rels, |p.sections[s].rels|);
      FdesDoneGrow(p, a, b, p.sections[s].fdes, |p.sections[s].fdes|);
    }
  }

  lemma ExtendsTrans(p: Program, a: State, b: State, c: State)
    requires Extends(p, a, b) && Extends(p, b, c)
    ensures Extends(p, a, c)
  {
    forall s | 0 <= s < |p.sections| ensures MarkExtends(p, a, c, s) {
      assert MarkExtends(p, a, b, s) && MarkExtends(p, b, c, s);
    }
    forall f | 0 <= f < p.fragments ensures FragExtends(p, a, c, f) {
      assert FragExtends(p, a, b, f) && FragExtends(p, b, c, f);
    }
    forall s: nat | c.expanded[s] > a.expanded[s] ensures Done(p, c, s) {
      if b.expanded[s] > a.expanded[s] {
        DoneGrows(p, b, c, s);
      }
    }
  }

  /** Marking a reachable section and expanding it at once. */
  lemma InlineExtends(p: Program, a: State, t: nat, c: State)
    requires a.Shape(p) && p.Collectable(t) && p.Reach(t) && !a.marked[t]
    requires Extends(p, a.(marked := a.marked[t := true], expanded := a.expanded + multiset{t}), c) && Done(p, c, t)
    ensures Extends(p, a, c) && c.marked[t]
  {
    var b := a.(marked := a.marked[t := true], expanded := a.expanded + multiset{t});
    forall s | 0 <= s < |p.sections| ensures MarkExtends(p, a, c, s) {
      assert MarkExtends(p, b, c, s);
    }
    forall f | 0 <= f < p.fragments ensures FragExtends(p, a, c, f) {
      assert FragExtends(p, b, c, f);
    }
    assert MarkExtends(p, b, c, t);
    assert a.expanded <= b.expanded;
    forall s: nat | c.expanded[s] > a.expanded[s] ensures Done(p, c, s) {
      if s != t {
        assert b.expanded[s] == a.expanded[s];
      }
    }
  }

  lemma ExtendsRefl(p: Program, a: State)
    requires a.Shape(p)
    ensures Extends(p, a, a)
  {
  }

  // ---- what holds between the phases

  /** Between visits, every marked section is queued or has been expanded, and exactly once. */
  ghost predicate Consistent(p: Program, frags0: seq<bool>, st: State) {
    st.Shape(p) && |frags0| == p.fragments &&
    (forall s :: 0 <= s < |p.sections| ==> MarkConsistent(p, st, s)) &&
    (forall f :: 0 <= f < p.fragments ==>
       (frags0[f] ==> st.frags[f]) && (st.frags[f] ==> frags0[f] || p.FragmentReach(f))) &&
    (forall s :: s in st.queued ==> s < |p.sections|) &&
    forall s: nat :: s in st.expanded ==> Done(p, st, s)
  }

  ghost predicate MarkConsistent(p: Program, st: State, s: nat)
    requires st.Shape(p) && s < |p.sections|
  {
    if p.Collectable(s) then
      st.Count(s) == Bit(st.marked[s]) && (st.marked[s] ==> p.Reach(s))
    else st.Count(s) == 0 && (st.marked[s] ==> p.alive[s])
  }

  ghost predicate RootsMarked(p: Program, st: State)
    requires st.Shape(p)
  {
    (forall s :: 0 <= s < |p.sections| ==> (p.Root(s) ==> st.marked[s])) &&
    (forall s :: 0 <= s < |p.sections| ==> (p.alive[s] && !p.sections[s].alloc ==> st.marked[s])) &&
    forall k :: 0 <= k < |p.RootSymbols()| ==> RelDone(p, st, p.RootSymbols()[k])
  }

  lemma ConsistentGrows(p: Program, frags0: seq<bool>, a: State, b: State)
    requires p.Valid() && Consistent(p, frags0, a) && Extends(p, a, b)
    ensures Consistent(p, frags0, b)
  {
    forall s | 0 <= s < |p.sections| ensures MarkConsistent(p, b, s) {
      assert MarkConsistent(p, a, s) && MarkExtends(p, a, b, s);
    }
    forall f | 0 <= f < p.fragments
      ensures (frags0[f] ==> b.frags[f]) && (b.frags[f] ==> frags0[f] || p.FragmentReach(f))
    {
      assert FragExtends(p, a, b, f);
    }
    forall s: nat | s in b.expanded ensures Done(p, b, s) {
      if s in a.expanded {
        DoneGrows(p, a, b, s);
      }
    }
  }

  /** Sections outside the memory image are marked from the start, so they are never expanded. */
  ghost predicate OthersMarked(p: Program, st: State)
    requires st.Shape(p)
  {
    forall s :: 0 <= s < |p.sections| && p.alive[s] && !p.sections[s].alloc ==> st.marked[s]
  }

  lemma OthersStayMarked(p: Program, a: State, b: State)
    requires Extends(p, a, b) && OthersMarked(p, a)
    ensures OthersMarked(p, b)
  {
    forall s | 0 <= s < |p.sections| && p.alive[s] && !p.sections[s].alloc ensures b.marked[s] {
      assert MarkExtends(p, a, b, s);
    }
  }

  lemma RelsDoneStep(p: Program, a: State, b: State, rels: seq<Target>, n: nat)
    requires Extends(p, a, b) && n < |rels| && RelsDone(p, a, rels, n) && RelDone(p, b, rels[n])
    ensures RelsDone(p, b, rels, n + 1)
  {
    RelsDoneGrow(p, a, b, rels, n);
  }

  // ---- the whole collection

  lemma ConsistentMark(p: Program, frags0: seq<bool>, a: State, s: nat)
    requires Consistent(p, frags0, a) && s < |p.sections| && p.alive[s] && !p.sections[s].alloc
    ensures Consistent(p, frags0, a.(marked := a.marked[s := true]))
  {
    var b := a.(marked := a.marked[s := true]);
    forall t | 0 <= t < |p.sections| ensures MarkConsistent(p, b, t) {
      assert MarkConsistent(p, a, t);
    }
    forall t: nat | t in b.expanded ensures Done(p, b, t) {
      assert Done(p, a, t);
    }
  }

  /** The first n sections have been examined for the root set. */
  ghost predicate Examined(p: Program, st: State, n: nat)
    requires st.Shape(p)
  {
    forall s :: 0 <= s < n && s < |p.sections| && p.alive[s] && (p.sections[s].keep || !p.sections[s].alloc) ==>
      st.marked[s]
  }

  ghost predicate SymbolsDone(p: Program, st: State, ts: seq<Target>)
    requires st.Shape(p)
  {
    RelsDone(p, st, ts, |ts|)
  }

  lemma ExaminedGrows(p: Program, a: State, b: State, n: nat)
    requires Extends(p, a, b) && Examined(p, a, n)
    ensures Examined(p, b, n)
  {
    forall s | 0 <= s < n && s < |p.sections| && p.alive[s] && (p.sections[s].keep || !p.sections[s].alloc)
      ensures b.marked[s]
    {
      assert MarkExtends(p, a, b, s);
    }
  }

  lemma RootsAreMarked(p: Program, st: State)
    requires p.Valid() && st.Shape(p) && Examined(p, st, |p.sections|) && SymbolsDone(p, st, p.RootSymbols())
    ensures RootsMarked(p, st)
  {
    forall s | 0 <= s < |p.sections| && p.Root(s) ensures st.marked[s] {
      if !p.sections[s].keep {
        var k :| 0 <= k < |p.RootSymbols()| && p.RootSymbols()[k] == InSection(s);
        assert RelDone(p, st, p.RootSymbols()[k]);
      }
    }
  }

  lemma RootsStayMarked(p: Program, a: State, b: State)
    requires Extends(p, a, b) && RootsMarked(p, a)
    ensures RootsMarked(p, b)
  {
    forall s | 0 <= s < |p.sections| && a.marked[s] ensures b.marked[s] {
      assert MarkExtends(p, a, b, s);
    }
    forall k | 0 <= k < |p.RootSymbols()| ensures RelDone(p, b, p.RootSymbols()[k]) {
      RelDoneGrows(p, a, b, p.RootSymbols()[k]);
    }
  }

  lemma SymbolsTogether(p: Program, st0: State, st1: State, st2: State, st3: State)
    requires Extends(p, st0, st1) && Extends(p, st1, st2) && Extends(p, st2, st3)
    requires Examined(p, st0, |p.sections|)
    requires SymbolsDone(p, st1, p.exported) && SymbolsDone(p, st2, p.requested) && SymbolsDone(p, st3, p.cies)
    ensures Extends(p, st0, st3) && Examined(p, st3, |p.sections|) && SymbolsDone(p, st3, p.RootSymbols())
  {
    ExtendsTrans(p, st1, st2, st3);
    ExtendsTrans(p, st0, st1, st3);
    ExaminedGrows(p, st0, st3, |p.sections|);
    RelsDoneGrow(p, st1, st3, p.exported, |p.exported|);
    RelsDoneGrow(p, st2, st3, p.requested, |p.requested|);
    var ts := p.RootSymbols();
    forall k | 0 <= k < |ts| ensures RelDone(p, st3, ts[k]) {
      var m, n := |p.exported|, |p.exported| + |p.requested|;
      assert ts[k] == if k < m then p.exported[k] else if k < n then p.requested[k - m] else p.cies[k - n];
    }
  }

  /** When nothing is queued any more, the marks are closed under the edges. */
  lemma {:induction false} PathMarked(p: Program, frags0: seq<bool>, st: State, path: seq<nat>)
    requires p.Valid() && Consistent(p, frags0, st) && RootsMarked(p, st) && st.queued == multiset{}
    requires p.IsPath(path)
    ensures path[|path| - 1] < |p.sections| && p.Collectable(path[|path| - 1]) && st.marked[path[|path| - 1]]
    decreases |path|
  {
    var n := |path| - 1;
    if n > 0 {
      var init := path[..n];
      forall i | 0 <= i < n - 1 ensures p.Link(init, i) {
        assert p.Link(path, i);
      }
      PathMarked(p, frags0, st, init);
      assert p.Link(path, n - 1);
      assert MarkConsistent(p, st, path[n - 1]);
    }
  }

  /** The marks are exactly the reachable sections, and each of those has been expanded exactly once. */
  lemma MarksAreExact(p: Program, frags0: seq<bool>, st: State)
    requires p.Valid() && Consistent(p, frags0, st) && RootsMarked(p, st) && st.queued == multiset{}
    ensures forall s :: 0 <= s < |p.sections| && p.Collectable(s) ==> (st.marked[s] <==> p.Reach(s))
    ensures forall s :: 0 <= s < |p.sections| ==> st.expanded[s] == Bit(p.Collectable(s) && p.Reach(s))
    ensures forall f :: 0 <= f < p.fragments ==> (st.frags[f] <==> frags0[f] || p.FragmentReach(f))
  {
    forall s | 0 <= s < |p.sections|
      ensures p.Collectable(s) ==> (st.marked[s] <==> p.Reach(s))
      ensures st.expanded[s] == Bit(p.Collectable(s) && p.Reach(s))
    {
      assert MarkConsistent(p, st, s);
      if p.Reach(s) {
        var path :| p.IsPath(path) && path[|path| - 1] == s;
        PathMarked(p, frags0, st, path);
      }
    }
    forall f | 0 <= f < p.fragments && p.FragmentReach(f) ensures st.frags[f] {
      FragmentMarked(p, frags0, st, f);
    }
  }

  lemma FragmentMarked(p: Program, frags0: seq<bool>, st: State, f: nat)
    requires p.Valid() && Consistent(p, frags0, st) && RootsMarked(p, st) && st.queued == multiset{}
    requires f < p.fragments && p.FragmentReach(f)
    ensures st.frags[f]
  {
    if InFragment(f) in p.RootSymbols() {
      var k :| 0 <= k < |p.RootSymbols()| && p.RootSymbols()[k] == InFragment(f);
      assert RelDone(p, st, p.RootSymbols()[k]);
    } else {
      var s: nat :| p.FragmentIn(f, s);
      var path :| p.IsPath(path) && path[|path| - 1] == s;
      PathMarked(p, frags0, st, path);
      assert MarkConsistent(p, st, s);
      var rels := p.sections[s].rels;
      var k :| 0 <= k < |rels| && rels[k] == InFragment(f);
      assert RelDone(p, st, rels[k]);
    }
  }

  ghost function Unmarked(marked: seq<bool>): set<nat> {
    set s: nat | s < |marked| && !marked[s]
  }

  /** A visit marks something, or it only moves one section out of the queue. */
  lemma VisitProgress(p: Program, frags0: seq<bool>, a: State, s: nat, b: State)
    requires Consistent(p, frags0, a) && s in a.queued
    requires Extends(p, a.(queued := a.queued - multiset{s}, expanded := a.expanded + multiset{s}), b)
    ensures Unmarked(b.marked) < Unmarked(a.marked) ||
            (Unmarked(b.marked) == Unmarked(a.marked) && |b.queued| < |a.queued|)
  {
    var a' := a.(queued := a.queued - multiset{s}, expanded := a.expanded + multiset{s});
    forall t: nat | t in Unmarked(b.marked) ensures t in Unmarked(a.marked) {
      assert MarkExtends(p, a', b, t);
    }
    if Unmarked(b.marked) == Unmarked(a.marked) {
      forall t: nat ensures b.queued[t] == a'.queued[t] {
        if t < |p.sections| {
          assert MarkExtends(p, a', b, t);
          assert t in Unmarked(a.marked) <==> t in Unmarked(b.marked);
        } else {
          assert t !in a.queued && t !in b.queued;
        }
      }
      assert b.queued == a.queued - multiset{s};
      assert a.queued == (a.queued - multiset{s}) + multiset{s};
    }
  }

  /** Taking a section out of the queue to visit it keeps the account. */
  lemma VisitConsistent(p: Program, frags0: seq<bool>, a: State, s: nat, b: State)
    requires p.Valid() && Consistent(p, frags0, a) && s in a.queued
    requires Extends(p, a.(queued := a.queued - multiset{s}, expanded := a.expanded + multiset{s}), b)
    requires Done(p, b, s)
    ensures Consistent(p, frags0, b)
  {
    var a' := a.(queued := a.queued - multiset{s}, expanded := a.expanded + multiset{s});
    forall t | 0 <= t < |p.sections| ensures MarkConsistent(p, b, t) {
      assert MarkConsistent(p, a, t) && MarkExtends(p, a', b, t);
      assert a'.Count(t) == a.Count(t);
    }
    forall f | 0 <= f < p.fragments
      ensures (frags0[f] ==> b.frags[f]) && (b.frags[f] ==> frags0[f] || p.FragmentReach(f))
    {
      assert FragExtends(p, a', b, f);
    }
    forall t: nat | t in b.expanded ensures Done(p, b, t) {
      if t != s && b.expanded[t] == a'.expanded[t] {
        assert t in a.expanded;
        assert Done(p, a', t);
        DoneGrows(p, a', b, t);
      }
    }
  }

  lemma VisitStep(p: Program, frags0: seq<bool>, a: State, s: nat, b: State)
    requires p.Valid() && Consistent(p, frags0, a) && RootsMarked(p, a) && s in a.queued
    requires Extends(p, a.(queued := a.queued - multiset{s}, expanded := a.expanded + multiset{s}), b)
    requires Done(p, b, s)
    ensures Consistent(p, frags0, b) && RootsMarked(p, b)
    ensures Unmarked(b.marked) < Unmarked(a.marked) ||
            (Unmarked(b.marked) == Unmarked(a.marked) && |b.queued| < |a.queued|)
  {
    var a' := a.(queued := a.queued - multiset{s}, expanded := a.expanded + multiset{s});
    VisitProgress(p, frags0, a, s, b);
    VisitConsistent(p, frags0, a, s, b);
    assert RootsMarked(p, a') by {
      forall k | 0 <= k < |p.RootSymbols()| ensures RelDone(p, a', p.RootSymbols()[k]) {
        assert RelDone(p, a, p.RootSymbols()[k]);
      }
    }
    RootsStayMarked(p, a', b);
  }

  class Collector {
    const p: Program
    const live: Liveness
    const visited: array<bool>
    const frags: array<bool>
    var feeder: multiset<nat>
    ghost var expanded: multiset<nat>

    constructor (p: Program, live: Liveness, frags: array<bool>)
      requires p.Valid() && live.Valid() && live.alive[..] == p.alive && frags.Length == p.fragments
      requires frags != live.alive && frags != live.fdesAlive
      ensures Valid() && fresh(visited) && this.p == p && this.live == live && this.frags == frags
      ensures Now() == State(seq(|p.sections|, _ => false), frags[..], multiset{}, multiset{})
    {
      this.p, this.live, this.frags := p, live, frags;
      visited := new bool[|p.sections|](_ => false);
      feeder, expanded := multiset{}, multiset{};
    }

    ghost predicate Valid()
      reads live.alive
    {
      p.Valid() && live.Valid() && live.alive[..] == p.alive &&
      visited.Length == |p.sections| && frags.Length == p.fragments &&
      visited != frags && visited != live.alive && visited != live.fdesAlive &&
      frags != live.alive && frags != live.fdesAlive
    }

    ghost function Now(): (st: State)
      reads this, visited, frags
    {
      State(visited[..], frags[..], feeder, expanded)
    }

    /** mark_section: true for the one caller that sets the mark. */
    method MarkSection(s: nat) returns (first: bool)
      requires Valid() && s < |p.sections|
      modifies visited
      ensures first == (p.alive[s] && !old(visited[s]))
      ensures visited[..] == if first then old(visited[..])[s := true] else old(visited[..])
    {
      first := false;
      if live.alive[s] {
        first := !visited[s];
        visited[s] := true;
      }
    }

    /** One relocation of an FDE. */
    method VisitFdeRel(s: nat, t: Target)
      requires Valid() && OthersMarked(p, Now()) && p.InRange(t) && p.Reach(s)
      requires t.InSection? && p.Collectable(t.section) ==> p.Edge(s, t.section)
      modifies visited, this`feeder
      ensures Valid() && Extends(p, old(Now()), Now()) && FdeRelDone(p, Now(), t)
    {
      ghost var was := Now();
      ExtendsRefl(p, was);
      if t.InSection? {
        var first := MarkSection(t.section);
        if first {
          feeder := feeder + multiset{t.section};
          p.EdgeReached(s, t.section);
        }
      }
    }

    method VisitFdes(s: nat)
      requires Valid() && OthersMarked(p, Now()) && p.Collectable(s) && p.Reach(s)
      modifies visited, this`feeder
      ensures Valid() && Extends(p, old(Now()), Now())
      ensures FdesDone(p, Now(), p.sections[s].fdes, |p.sections[s].fdes|)
    {
      ghost var was := Now();
      var fdes := p.sections[s].fdes;
      assert p.SectionInRange(s);
      ExtendsRefl(p, was);
      for i := 0 to |fdes|
        invariant Valid() && Extends(p, was, Now()) && FdesDone(p, Now(), fdes, i)
      {
        ghost var before := Now();
        OthersStayMarked(p, was, before);
        VisitFde(s, i);
        FdesDoneStep(p, before, Now(), fdes, i);
        ExtendsTrans(p, was, before, Now());
      }
    }

    /** All relocations of an FDE but the first, which refers to the section itself. */
    method VisitFde(s: nat, i: nat)
      requires Valid() && OthersMarked(p, Now()) && p.Collectable(s) && p.Reach(s) && i < |p.sections[s].fdes|
      modifies visited, this`feeder
      ensures Valid() && Extends(p, old(Now()), Now()) && FdeDone(p, Now(), p.sections[s].fdes[i])
    {
      ghost var was := Now();
      assert p.SectionInRange(s);
      var fde := p.sections[s].fdes[i];
      ExtendsRefl(p, was);
      for k := 1 to |fde|
        invariant Valid() && Extends(p, was, Now())
        invariant FdeRelsDone(p, Now(), fde, k)
      {
        ghost var before := Now();
        OthersStayMarked(p, was, before);
        VisitFdeRel(s, fde[k]);
        FdeRelsDoneStep(p, before, Now(), fde, k);
        ExtendsTrans(p, was, before, Now());
      }
    }

    /** One relocation of a section. */
    method VisitRel(s: nat, t: Target, depth: nat)
      requires Valid() && OthersMarked(p, Now()) && p.InRange(t) && depth <= 3
      requires p.Collectable(s) && p.Reach(s) && t in p.sections[s].rels
      modifies visited, frags, this`feeder, this`expanded
      ensures Valid() && Extends(p, old(Now()), Now()) && RelDone(p, Now(), t)
      decreases 3 - depth, 1
    {
      ghost var was := Now();
      ExtendsRefl(p, was);
      match t
      case Nothing =>
      case InFragment(f) =>
        frags[f] := true;
        assert p.FragmentIn(f, s);
      case InSection(n) =>
        var first := MarkSection(n);
        if first {
          p.EdgeReached(s, n);
          Enter(n, depth, was);
        }
    }

    /** A section just marked is expanded at once unless the recursion is too deep; then it is queued. */
    method Enter(n: nat, depth: nat, ghost was: State)
      requires Valid() && depth <= 3 && p.Collectable(n) && p.Reach(n)
      requires was.Shape(p) && !was.marked[n] && OthersMarked(p, was.(marked := was.marked[n := true]))
      requires Now() == was.(marked := was.marked[n := true])
      modifies visited, frags, this`feeder, this`expanded
      ensures Valid() && Extends(p, was, Now()) && visited[n]
      decreases 3 - depth, 0
    {
      if depth < 3 {
        assert Now().marked[n] == visited[n];
        Visit(n, depth + 1);
        InlineExtends(p, was, n, Now());
        assert Now().marked[n] == visited[n];
      } else {
        feeder := feeder + multiset{n};
      }
    }

    /** Expands a marked section: everything it refers to is marked, queued or expanded. */
    method Visit(s: nat, depth: nat)
      requires Valid() && OthersMarked(p, Now()) && depth <= 3
      requires p.Collectable(s) && p.Reach(s) && visited[s]
      modifies visited, frags, this`feeder, this`expanded
      ensures Valid() && Done(p, Now(), s)
      ensures Extends(p, old(Now()).(expanded := old(expanded) + multiset{s}), Now())
      decreases 3 - depth, 2
    {
      expanded := expanded + multiset{s};
      ghost var was := Now();
      VisitFdes(s);
      ghost var mid := Now();
      var rels := p.sections[s].rels;
      assert p.SectionInRange(s);
      ExtendsRefl(p, mid);
      for k := 0 to |rels|
        invariant Valid() && Extends(p, mid, Now()) && RelsDone(p, Now(), rels, k)
      {
        ghost var before := Now();
        OthersStayMarked(p, was, mid);
        OthersStayMarked(p, mid, before);
        VisitRel(s, rels[k], depth);
        RelsDoneStep(p, before, Now(), rels, k);
        ExtendsTrans(p, mid, before, Now());
      }
      FdesDoneGrow(p, mid, Now(), p.sections[s].fdes, |p.sections[s].fdes|);
      ExtendsTrans(p, was, mid, Now());
    }

    // ---- phases

    /** Sections that are never discarded. */
    method CollectKept()
      requires Valid() && Consistent(p, frags[..], Now()) && visited[..] == seq(|p.sections|, _ => false)
      modifies visited, this`feeder
      ensures Valid() && Consistent(p, frags[..], Now()) && Examined(p, Now(), |p.sections|)
      ensures expanded == old(expanded)
    {
      for s := 0 to |p.sections|
        invariant Valid() && Consistent(p, frags[..], Now()) && Examined(p, Now(), s)
        invariant forall t :: s <= t < |p.sections| ==> !visited[t]
      {
        if live.alive[s] {
          ExamineSection(s);
        }
      }
    }

    method ExamineSection(s: nat)
      requires Valid() && s < |p.sections| && p.alive[s] && !visited[s]
      requires Consistent(p, frags[..], Now()) && Examined(p, Now(), s)
      modifies visited, this`feeder
      ensures Valid() && Consistent(p, frags[..], Now()) && Examined(p, Now(), s + 1)
      ensures forall t :: s < t < |p.sections| ==> visited[t] == old(visited[t])
      ensures expanded == old(expanded)
    {
      ghost var was := Now();
      if !p.sections[s].alloc {
        visited[s] := true;
        ConsistentMark(p, frags[..], was, s);
        assert Now() == was.(marked := was.marked[s := true]);
      }
      if p.sections[s].keep {
        ghost var before := Now();
        var first := MarkSection(s);
        if first {
          feeder := feeder + multiset{s};
          assert p.Root(s);
          p.RootReached(s);
          ConsistentGrows(p, frags[..], before, Now());
          ExaminedGrows(p, before, Now(), s);
        }
      }
    }

    /** enqueue_symbol */
    method EnqueueSymbol(t: Target)
      requires Valid() && OthersMarked(p, Now()) && p.InRange(t) && t in p.RootSymbols()
      modifies visited, frags, this`feeder
      ensures Valid() && Extends(p, old(Now()), Now()) && RelDone(p, Now(), t)
    {
      ghost var was := Now();
      ExtendsRefl(p, was);
      match t
      case Nothing =>
      case InFragment(f) =>
        frags[f] := true;
      case InSection(s) =>
        var first := MarkSection(s);
        if first {
          feeder := feeder + multiset{s};
          assert p.Root(s);
          p.RootReached(s);
        }
    }

    method EnqueueSymbols(ts: seq<Target>)
      requires Valid() && OthersMarked(p, Now()) && forall k :: 0 <= k < |ts| ==> ts[k] in p.RootSymbols()
      modifies visited, frags, this`feeder
      ensures Valid() && Extends(p, old(Now()), Now()) && SymbolsDone(p, Now(), ts)
    {
      ghost var was := Now();
      ExtendsRefl(p, was);
      for k := 0 to |ts|
        invariant Valid() && Extends(p, was, Now()) && RelsDone(p, Now(), ts, k)
      {
        ghost var before := Now();
        OthersStayMarked(p, was, before);
        EnqueueSymbol(ts[k]);
        RelsDoneStep(p, before, Now(), ts, k);
        ExtendsTrans(p, was, before, Now());
      }
    }

    method CollectRootSet()
      requires Valid() && Now() == State(seq(|p.sections|, _ => false), frags[..], multiset{}, multiset{})
      modifies visited, frags, this`feeder
      ensures Valid() && Consistent(p, old(frags[..]), Now()) && RootsMarked(p, Now()) && expanded == multiset{}
    {
      ghost var frags0 := frags[..];
      CollectKept();
      ghost var st0 := Now();
      EnqueueSymbols(p.exported);
      ghost var st1 := Now();
      OthersStayMarked(p, st0, st1);
      EnqueueSymbols(p.requested);
      ghost var st2 := Now();
      OthersStayMarked(p, st1, st2);
      EnqueueSymbols(p.cies);
      ghost var st3 := Now();
      SymbolsTogether(p, st0, st1, st2, st3);
      ConsistentGrows(p, frags0, st0, st3);
      RootsAreMarked(p, st3);
    }

    /** Visits until nothing is queued, in whatever order. */
    method Mark()
      requires Valid() && Consistent(p, frags[..], Now()) && RootsMarked(p, Now())
      modifies visited, frags, this`feeder, this`expanded
      ensures Valid() && Consistent(p, old(frags[..]), Now()) && RootsMarked(p, Now()) && feeder == multiset{}
    {
      ghost var frags0 := frags[..];
      while feeder != multiset{}
        invariant Valid() && Consistent(p, frags0, Now()) && RootsMarked(p, Now())
        decreases Unmarked(visited[..]), |feeder|
      {
        ghost var was := Now();
        var s: nat :| s in feeder;
        assert MarkConsistent(p, was, s);
        feeder := feeder - multiset{s};
        Visit(s, 0);
        VisitStep(p, frags0, was, s, Now());
      }
    }

    /** Kills what has not been marked. */
    method Sweep()
      requires Valid()
      modifies live.alive, live.fdesAlive
      ensures forall s :: 0 <= s < |p.sections| ==> live.alive[s] == (p.alive[s] && visited[s])
      ensures forall s :: 0 <= s < |p.sections| ==>
                live.fdesAlive[s] == (old(live.fdesAlive[s]) && (p.alive[s] ==> visited[s]))
    {
      for s := 0 to |p.sections|
        invariant live.alive.Length == live.fdesAlive.Length == |p.sections|
        invariant forall t :: 0 <= t < s ==> live.alive[t] == (p.alive[t] && visited[t])
        invariant forall t :: s <= t < |p.sections| ==> live.alive[t] == p.alive[t]
        invariant forall t :: 0 <= t < |p.sections| ==>
                    live.fdesAlive[t] == (old(live.fdesAlive[t]) && (t < s && p.alive[t] ==> visited[t]))
      {
        if live.alive[s] && !visited[s] {
          ghost var a, f := live.alive[..], live.fdesAlive[..];
          live.Kill(s);
          assert forall t :: 0 <= t < |p.sections| && t != s ==>
              live.alive[..][t] == a[t] && live.fdesAlive[..][t] == f[t];
          assert !live.alive[..][s] && !live.fdesAlive[..][s];
        }
      }
    }

    /**
     gc_sections on a fresh collector.  A section survives exactly if it was alive and is outside the memory
     image or reachable; a piece of a mergeable section exactly if it was alive or something that survives
     refers to it; and every reachable section is expanded exactly once.
     */
    method GcSections()
      requires Valid() && Now() == State(seq(|p.sections|, _ => false), frags[..], multiset{}, multiset{})
      modifies this`feeder, this`expanded, visited, frags, live.alive, live.fdesAlive
      ensures live.alive.Length == live.fdesAlive.Length == |p.sections| && frags.Length == p.fragments
      ensures forall s :: 0 <= s < |p.sections| ==>
                live.alive[s] == (p.alive[s] && (p.sections[s].alloc ==> p.Reach(s)))
      ensures forall s :: 0 <= s < |p.sections| ==>
                live.fdesAlive[s] == (old(live.fdesAlive[s]) && (p.alive[s] ==> live.alive[s]))
      ensures forall f :: 0 <= f < p.fragments ==> (frags[f] <==> old(frags[f]) || p.FragmentReach(f))
      ensures forall s :: 0 <= s < |p.sections| ==> expanded[s] == Bit(p.Collectable(s) && p.Reach(s))
    {
      ghost var frags0 := frags[..];
      CollectRootSet();
      Mark();
      ghost var st := Now();
      MarksAreExact(p, frags0, st);
      Sweep();
    }
  }
}
