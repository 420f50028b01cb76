/**
 The marking phase of elf/gc-sections.cc on several threads.

 A visit is a thread of its own, whether the source starts it through the feeder or by recursion; it
 handles its relocations one by one.  Testing and setting a section's mark is atomic, and the visit of
 a section just marked may begin at any later time.
 */
module SectionGcThreads {
  import opened Wrappers
  import opened SectionGc

  /** A visit: what it still has to look at, and a section it has marked but whose visit has not begun. */
  datatype Visitor = Visitor(section: nat, todo: seq<Target>, claimed: Option<nat>)

  datatype Marking = Marking(marked: set<nat>, frags: set<nat>, visits: seq<Visitor>)

  function OnlySection(t: Target): Target {
    if t.InSection? then t else Nothing
  }

  function FdeTargets(fde: seq<Target>): seq<Target>
    requires fde != []
  {
    seq(|fde| - 1, k requires 0 <= k < |fde| - 1 => OnlySection(fde[k + 1]))
  }

  function FdesTargets(fdes: seq<seq<Target>>): seq<Target>
    requires forall i :: 0 <= i < |fdes| ==> fdes[i] != []
  {
    if fdes == [] then [] else FdeTargets(fdes[0]) + FdesTargets(fdes[1..])
  }

  /** Everything a visit looks at: its FDEs without their first relocations, then its own relocations. */
  function Targets(p: Program, s: nat): seq<Target>
    requires p.Valid() && s < |p.sections|
  {
    assert p.SectionInRange(s);
    FdesTargets(p.sections[s].fdes) + p.sections[s].rels
  }

  function Begin(p: Program, s: nat): Visitor
    requires p.Valid() && s < |p.sections|
  {
    Visitor(s, Targets(p, s), None)
  }

  ghost predicate Due(p: Program, st: Marking, s: nat, i: nat)
    requires p.Valid()
  {
    i < |st.visits| && s < |p.sections| && st.visits[i] == Begin(p, s)
  }

  /** The state after collect_root_set: one visit is due for every root, in any order. */
  ghost predicate Init(p: Program, st: Marking)
    requires p.Valid()
  {
    (forall s: nat :: s in st.marked <==> p.Root(s)) &&
    (forall f: nat :: f in st.frags <==> InFragment(f) in p.RootSymbols()) &&
    (forall i: nat :: i < |st.visits| ==> FirstVisit(p, st, i)) &&
    (forall i, j :: 0 <= i < j < |st.visits| ==> st.visits[i].section != st.visits[j].section) &&
    forall s: nat :: p.Root(s) ==> exists i: nat :: Due(p, st, s, i)
  }

  ghost predicate FirstVisit(p: Program, st: Marking, i: nat)
    requires p.Valid() && i < |st.visits|
  {
    p.Root(st.visits[i].section) && Due(p, st, st.visits[i].section, i)
  }

  /** One step of visit i. */
  ghost predicate Step(p: Program, st: Marking, st': Marking, i: nat)
    requires p.Valid()
  {
    i < |st.visits| &&
    var v := st.visits[i];
    if v.claimed.Some? then
      v.claimed.value < |p.sections| &&
      st' == st.(visits := st.visits[i := v.(claimed := None)] + [Begin(p, v.claimed.value)])
    else
      v.todo != [] &&
      var done := v.(todo := v.todo[1..]);
      match v.todo[0]
      case Nothing => st' == st.(visits := st.visits[i := done])
      case InFragment(f) => st' == st.(frags := st.frags + {f}, visits := st.visits[i := done])
      case InSection(n) =>
        if p.Collectable(n) && n !in st.marked then
          st' == st.(marked := st.marked + {n}, visits := st.visits[i := done.(claimed := Some(n))])
        else st' == st.(visits := st.visits[i := done])
  }

  ghost predicate Run(p: Program, trace: seq<Marking>, schedule: seq<nat>)
    requires p.Valid()
  {
    |trace| == |schedule| + 1 && Init(p, trace[0]) &&
    forall n :: 0 <= n < |schedule| ==> Step(p, trace[n], trace[n + 1], schedule[n])
  }

  predicate Idle(v: Visitor) {
    v.todo == [] && v.claimed.None?
  }

  ghost predicate Finished(st: Marking) {
    forall i :: 0 <= i < |st.visits| ==> Idle(st.visits[i])
  }

  // ---- the invariant

  predicate Handled(p: Program, st: Marking, t: Target) {
    match t
    case Nothing => true
    case InFragment(f) => f in st.frags
    case InSection(n) => p.Collectable(n) ==> n in st.marked
  }

  ghost predicate Listed(p: Program, s: nat, todo: seq<Target>)
    requires p.Valid() && s < |p.sections|
  {
    forall t :: t in todo ==> t in Targets(p, s)
  }

  ghost predicate Passed(p: Program, st: Marking, s: nat, todo: seq<Target>)
    requires p.Valid() && s < |p.sections|
  {
    forall t :: t in Targets(p, s) ==> t in todo || Handled(p, st, t)
  }

  /** A visit belongs to a marked section, and what it has passed is handled. */
  ghost predicate VisitorOk(p: Program, st: Marking, v: Visitor)
    requires p.Valid()
  {
    v.section in st.marked && v.section < |p.sections| && Listed(p, v.section, v.todo) &&
    Passed(p, st, v.section, v.todo) && (v.claimed.Some? ==> v.claimed.value in st.marked)
  }

  ghost predicate VisitOk(p: Program, st: Marking, i: nat)
    requires p.Valid() && i < |st.visits|
  {
    VisitorOk(p, st, st.visits[i])
  }

  /** No section is visited or about to be visited twice. */
  ghost predicate Apart(st: Marking, i: nat, j: nat)
    requires i < |st.visits| && j < |st.visits|
  {
    st.visits[i].claimed != Some(st.visits[j].section) &&
    (i != j ==> st.visits[i].section != st.visits[j].section) &&
    (i != j && st.visits[i].claimed.Some? ==> st.visits[i].claimed != st.visits[j].claimed)
  }

  ghost predicate Visits(st: Marking, s: nat, i: nat) {
    i < |st.visits| && (st.visits[i].section == s || st.visits[i].claimed == Some(s))
  }

  ghost predicate Inv(p: Program, st: Marking)
    requires p.Valid()
  {
    (forall s :: s in st.marked ==> p.Collectable(s) && p.Reach(s)) &&
    (forall s: nat :: p.Root(s) ==> s in st.marked) &&
    (forall f :: f in st.frags ==> p.FragmentReach(f)) &&
    (forall f: nat :: InFragment(f) in p.RootSymbols() ==> f in st.frags) &&
    (forall i: nat :: i < |st.visits| ==> VisitOk(p, st, i)) &&
    (forall i: nat, j: nat :: i < |st.visits| && j < |st.visits| ==> Apart(st, i, j)) &&
    forall s :: s in st.marked ==> exists i: nat :: Visits(st, s, i)
  }

  lemma {:induction false} FdesTargetsAre(fdes: seq<seq<Target>>, t: Target)
    requires forall i :: 0 <= i < |fdes| ==> fdes[i] != []
    ensures t in FdesTargets(fdes) && t != Nothing ==>
              t.InSection? && exists i, k :: 0 <= i < |fdes| && 1 <= k < |fdes[i]| && fdes[i][k] == t
    ensures t.InSection? && (exists i, k :: 0 <= i < |fdes| && 1 <= k < |fdes[i]| && fdes[i][k] == t) ==>
              t in FdesTargets(fdes)
    decreases |fdes|
  {
    if fdes != [] {
      var rest := fdes[1..];
      FdesTargetsAre(rest, t);
      if t in FdeTargets(fdes[0]) && t != Nothing {
        var k :| 0 <= k < |FdeTargets(fdes[0])| && FdeTargets(fdes[0])[k] == t;
        assert fdes[0][k + 1] == t;
      }
      if i, k :| 0 <= i < |rest| && 1 <= k < |rest[i]| && rest[i][k] == t {
        assert fdes[i + 1][k] == t;
      }
      if i, k :| 0 <= i < |fdes| && 1 <= k < |fdes[i]| && fdes[i][k] == t && t.InSection? {
        if i == 0 {
          assert FdeTargets(fdes[0])[k - 1] == t;
        } else {
          assert rest[i - 1][k] == t;
        }
      }
    }
  }

  /** A section among the targets is one the visited section has an edge to, and the other way round. */
  lemma TargetsAreEdges(p: Program, s: nat, n: nat)
    requires p.Valid() && s < |p.sections| && p.Collectable(n)
    ensures InSection(n) in Targets(p, s) <==> p.Edge(s, n)
  {
    assert p.SectionInRange(s);
    FdesTargetsAre(p.sections[s].fdes, InSection(n));
  }

  lemma TargetFragments(p: Program, s: nat, f: nat)
    requires p.Valid() && s < |p.sections|
    ensures InFragment(f) in Targets(p, s) <==> InFragment(f) in p.sections[s].rels
  {
    assert p.SectionInRange(s);
    FdesTargetsAre(p.sections[s].fdes, InFragment(f));
  }

  lemma {:induction false} InitOk(p: Program, st: Marking)
    requires p.Valid() && Init(p, st)
    ensures Inv(p, st)
  {
    InitVisits(p, st);
    forall s | s in st.marked
      ensures p.Collectable(s) && p.Reach(s) && exists i: nat :: Visits(st, s, i)
    {
      RootVisited(p, st, s);
    }
  }

  lemma InitVisits(p: Program, st: Marking)
    requires p.Valid() && Init(p, st)
    ensures forall i: nat :: i < |st.visits| ==> VisitOk(p, st, i)
    ensures forall i: nat, j: nat :: i < |st.visits| && j < |st.visits| ==> Apart(st, i, j)
  {
    forall i: nat | i < |st.visits| ensures VisitOk(p, st, i) {
      FirstVisitOk(p, st, i);
    }
    forall i: nat, j: nat | i < |st.visits| && j < |st.visits| ensures Apart(st, i, j) {
      FirstVisitsApart(p, st, i, j);
    }
  }

  lemma FirstVisitsApart(p: Program, st: Marking, i: nat, j: nat)
    requires p.Valid() && Init(p, st) && i < |st.visits| && j < |st.visits|
    ensures Apart(st, i, j)
  {
    FirstVisitOk(p, st, i);
    FirstVisitOk(p, st, j);
  }

  lemma RootVisited(p: Program, st: Marking, s: nat)
    requires p.Valid() && Init(p, st) && s in st.marked
    ensures p.Collectable(s) && p.Reach(s) && exists i: nat :: Visits(st, s, i)
  {
    p.RootReached(s);
    var i: nat :| Due(p, st, s, i);
    assert Visits(st, s, i);
  }

  lemma FirstVisitOk(p: Program, st: Marking, i: nat)
    requires p.Valid() && Init(p, st) && i < |st.visits|
    ensures VisitOk(p, st, i) && st.visits[i].claimed.None?
  {
    assert FirstVisit(p, st, i);
    BeginOk(p, st, st.visits[i].section);
  }

  lemma BeginOk(p: Program, st: Marking, s: nat)
    requires p.Valid() && s < |p.sections| && s in st.marked
    ensures VisitorOk(p, st, Begin(p, s))
  {
  }

  /** Marks and fragments that a step adds are reachable. */
  lemma StepReaches(p: Program, st: Marking, st': Marking, i: nat)
    requires p.Valid() && Inv(p, st) && Step(p, st, st', i)
    ensures forall s :: s in st'.marked ==> p.Collectable(s) && p.Reach(s)
    ensures forall f :: f in st'.frags ==> p.FragmentReach(f)
  {
    assert VisitOk(p, st, i);
    var v := st.visits[i];
    if v.claimed.None? {
      assert v.todo[0] in Targets(p, v.section);
      match v.todo[0]
      case Nothing =>
      case InFragment(f) =>
        TargetFragments(p, v.section, f);
        assert p.FragmentIn(f, v.section);
      case InSection(n) =>
        if p.Collectable(n) {
          TargetsAreEdges(p, v.section, n);
          p.EdgeReached(v.section, n);
        }
    }
  }

  ghost predicate Grows(st: Marking, st': Marking) {
    st.marked <= st'.marked && st.frags <= st'.frags && |st.visits| <= |st'.visits| &&
    forall i :: 0 <= i < |st.visits| ==> st'.visits[i].section == st.visits[i].section
  }

  lemma StepGrows(p: Program, st: Marking, st': Marking, i: nat)
    requires p.Valid() && Step(p, st, st', i)
    ensures Grows(st, st')
  {
  }

  lemma VisitsOk(p: Program, st: Marking, st': Marking, i: nat, j: nat)
    requires p.Valid() && Inv(p, st) && Step(p, st, st', i) && j < |st'.visits|
    ensures VisitOk(p, st', j)
  {
    StepGrows(p, st, st', i);
    assert VisitOk(p, st, i);
    if j < |st.visits| {
      assert VisitOk(p, st, j);
      var v := st.visits[j];
      if j == i && v.claimed.None? {
        StepHandles(p, st, st', i);
      }
    } else {
      BeginOk(p, st', st.visits[i].claimed.value);
    }
  }

  lemma StepHandles(p: Program, st: Marking, st': Marking, i: nat)
    requires p.Valid() && Step(p, st, st', i) && st.visits[i].claimed.None?
    ensures Handled(p, st', st.visits[i].todo[0])
    ensures st'.visits[i].section == st.visits[i].section && st'.visits[i].todo == st.visits[i].todo[1..]
    ensures st'.visits[i].claimed.Some? ==> st'.visits[i].claimed.value in st'.marked
  {
  }

  lemma VisitsApart(p: Program, st: Marking, st': Marking, i: nat, j: nat, k: nat)
    requires p.Valid() && Inv(p, st) && Step(p, st, st', i) && j < |st'.visits| && k < |st'.visits|
    ensures Apart(st', j, k)
  {
    assert VisitOk(p, st, i);
    if j < |st.visits| {
      assert VisitOk(p, st, j) && Apart(st, i, j) && Apart(st, j, i);
    }
    if k < |st.visits| {
      assert VisitOk(p, st, k) && Apart(st, i, k) && Apart(st, k, i);
    }
    if j < |st.visits| && k < |st.visits| {
      assert Apart(st, j, k);
    }
  }

  lemma StillVisited(p: Program, st: Marking, st': Marking, i: nat, s: nat)
    requires p.Valid() && Inv(p, st) && Step(p, st, st', i) && s in st'.marked
    ensures exists j: nat :: Visits(st', s, j)
  {
    if s in st.marked {
      var j: nat :| Visits(st, s, j);
      if j == i && st.visits[i].claimed == Some(s) {
        assert Visits(st', s, |st.visits|);
      } else {
        assert Visits(st', s, j);
      }
    } else {
      assert Visits(st', s, i);
    }
  }

  lemma StepKeepsInv(p: Program, st: Marking, st': Marking, i: nat)
    requires p.Valid() && Inv(p, st) && Step(p, st, st', i)
    ensures Inv(p, st')
  {
    StepReaches(p, st, st', i);
    StepGrows(p, st, st', i);
    forall j: nat | j < |st'.visits| ensures VisitOk(p, st', j) {
      VisitsOk(p, st, st', i, j);
    }
    forall j: nat, k: nat | j < |st'.visits| && k < |st'.visits| ensures Apart(st', j, k) {
      VisitsApart(p, st, st', i, j, k);
    }
    forall s | s in st'.marked ensures exists j: nat :: Visits(st', s, j) {
      StillVisited(p, st, st', i, s);
    }
  }

  lemma {:induction false} RunKeepsInv(p: Program, trace: seq<Marking>, schedule: seq<nat>, n: nat)
    requires p.Valid() && Run(p, trace, schedule) && n < |trace|
    ensures Inv(p, trace[n])
  {
    if n == 0 {
      InitOk(p, trace[0]);
    } else {
      RunKeepsInv(p, trace, schedule, n - 1);
      StepKeepsInv(p, trace[n - 1], trace[n], schedule[n - 1]);
    }
  }

  // ---- the theorems

  /** In every interleaving a section is visited at most once, and so marked by at most one visit. */
  lemma VisitedAtMostOnce(p: Program, trace: seq<Marking>, schedule: seq<nat>, n: nat, i: nat, j: nat)
    requires p.Valid() && Run(p, trace, schedule) && n < |trace|
    requires i < |trace[n].visits| && j < |trace[n].visits|
    requires trace[n].visits[i].section == trace[n].visits[j].section
    ensures i == j
  {
    RunKeepsInv(p, trace, schedule, n);
    assert Apart(trace[n], i, j);
  }

  ghost predicate Closed(p: Program, marked: set<nat>) {
    (forall s: nat :: p.Root(s) ==> s in marked) &&
    forall s: nat, t: nat :: s in marked && p.Edge(s, t) ==> t in marked
  }

  /** A path never leaves a set that holds the roots and is closed under the edges. */
  lemma {:induction false} PathInside(p: Program, marked: set<nat>, path: seq<nat>)
    requires Closed(p, marked) && p.IsPath(path)
    ensures path[|path| - 1] in marked
    decreases |path|
  {
    var n := |path| - 1;
    if n > 0 {
      forall i | 0 <= i < n - 1 ensures p.Link(path[..n], i) {
        assert p.Link(path, i);
      }
      PathInside(p, marked, path[..n]);
      assert p.Link(path, n - 1);
    }
  }

  /** When nothing is left to do, everything a marked section refers to is handled. */
  lemma AllHandled(p: Program, st: Marking, s: nat)
    requires p.Valid() && Inv(p, st) && Finished(st) && s in st.marked
    ensures s < |p.sections| && Passed(p, st, s, [])
  {
    var i: nat :| Visits(st, s, i);
    assert Idle(st.visits[i]);
    assert VisitOk(p, st, i);
  }

  lemma NeighbourMarked(p: Program, st: Marking, s: nat, t: nat)
    requires p.Valid() && Inv(p, st) && Finished(st) && s in st.marked && p.Edge(s, t)
    ensures t in st.marked
  {
    AllHandled(p, st, s);
    TargetsAreEdges(p, s, t);
    assert Handled(p, st, InSection(t));
  }

  lemma MarksAreClosed(p: Program, st: Marking)
    requires p.Valid() && Inv(p, st) && Finished(st)
    ensures Closed(p, st.marked)
  {
    forall s: nat, t: nat | s in st.marked && p.Edge(s, t) ensures t in st.marked {
      NeighbourMarked(p, st, s, t);
    }
  }

  lemma FragmentKept(p: Program, st: Marking, s: nat, f: nat)
    requires p.Valid() && Inv(p, st) && Finished(st) && s in st.marked
    requires s < |p.sections| && InFragment(f) in p.sections[s].rels
    ensures f in st.frags
  {
    AllHandled(p, st, s);
    TargetFragments(p, s, f);
    assert Handled(p, st, InFragment(f));
  }

  /** However the visits interleave, in the end exactly the reachable sections and fragments are marked. */
  lemma EveryRunMarksExactly(p: Program, trace: seq<Marking>, schedule: seq<nat>)
    requires p.Valid() && Run(p, trace, schedule) && Finished(trace[|schedule|])
    ensures forall s: nat :: s in trace[|schedule|].marked <==> p.Reach(s)
    ensures forall f: nat :: f in trace[|schedule|].frags <==> p.FragmentReach(f)
  {
    RunKeepsInv(p, trace, schedule, |schedule|);
    var st := trace[|schedule|];
    MarksAreClosed(p, st);
    forall s: nat | p.Reach(s) ensures s in st.marked {
      var path :| p.IsPath(path) && path[|path| - 1] == s;
      PathInside(p, st.marked, path);
    }
    forall f: nat | p.FragmentReach(f) ensures f in st.frags {
      if InFragment(f) !in p.RootSymbols() {
        var s: nat :| p.FragmentIn(f, s);
        FragmentKept(p, st, s, f);
      }
    }
  }

  /** A visit that is not done can always move. */
  lemma NeverStuck(p: Program, st: Marking, i: nat) returns (st': Marking)
    requires p.Valid() && Inv(p, st) && i < |st.visits| && !Idle(st.visits[i])
    ensures Step(p, st, st', i)
  {
    assert VisitOk(p, st, i);
    var v := st.visits[i];
    var done := if v.todo != [] then v.(todo := v.todo[1..]) else v;
    if v.claimed.Some? {
      st' := st.(visits := st.visits[i := v.(claimed := None)] + [Begin(p, v.claimed.value)]);
    } else if v.todo[0].InFragment? {
      st' := st.(frags := st.frags + {v.todo[0].frag}, visits := st.visits[i := done]);
    } else if v.todo[0].InSection? && p.Collectable(v.todo[0].section) && v.todo[0].section !in st.marked {
      st' := st.(marked := st.marked + {v.todo[0].section},
                 visits := st.visits[i := done.(claimed := Some(v.todo[0].section))]);
    } else {
      st' := st.(visits := st.visits[i := done]);
    }
  }

  // ---- every run ends

  function Cost(p: Program, s: nat): nat
    requires p.Valid() && s < |p.sections|
  {
    |Targets(p, s)| + 1
  }

  /** Work that will only come up if further sections are marked. */
  function Dormant(p: Program, marked: set<nat>, n: nat): nat
    requires p.Valid() && n <= |p.sections|
  {
    if n == 0 then 0 else Dormant(p, marked, n - 1) + if n - 1 in marked then 0 else Cost(p, n - 1)
  }

  function Load(p: Program, v: Visitor): nat
    requires p.Valid()
  {
    |v.todo| + if v.claimed.Some? && v.claimed.value < |p.sections| then Cost(p, v.claimed.value) else 0
  }

  function Active(p: Program, visits: seq<Visitor>): nat
    requires p.Valid()
  {
    if visits == [] then 0 else Active(p, visits[..|visits| - 1]) + Load(p, visits[|visits| - 1])
  }

  function Work(p: Program, st: Marking): nat
    requires p.Valid()
  {
    Dormant(p, st.marked, |p.sections|) + Active(p, st.visits)
  }

  lemma {:induction false} DormantFalls(p: Program, marked: set<nat>, s: nat, n: nat)
    requires p.Valid() && n <= |p.sections| && s < |p.sections| && s !in marked
    ensures Dormant(p, marked + {s}, n) == Dormant(p, marked, n) - if s < n then Cost(p, s) else 0
    decreases n
  {
    if n > 0 {
      DormantFalls(p, marked, s, n - 1);
    }
  }

  lemma {:induction false} ActiveChanges(p: Program, visits: seq<Visitor>, i: nat, v: Visitor)
    requires p.Valid() && i < |visits|
    ensures Active(p, visits[i := v]) == Active(p, visits) - Load(p, visits[i]) + Load(p, v)
    decreases |visits|
  {
    var n := |visits| - 1;
    var init := visits[..n];
    if i == n {
      assert visits[i := v][..n] == init;
    } else {
      ActiveChanges(p, init, i, v);
      assert visits[i := v][..n] == init[i := v];
    }
  }

  lemma ActiveGrows(p: Program, visits: seq<Visitor>, v: Visitor)
    requires p.Valid()
    ensures Active(p, visits + [v]) == Active(p, visits) + Load(p, v)
  {
    assert (visits + [v])[..|visits|] == visits;
  }

  /** Every step uses up some work. */
  lemma StepWorks(p: Program, st: Marking, st': Marking, i: nat)
    requires p.Valid() && Step(p, st, st', i)
    ensures Work(p, st') < Work(p, st)
  {
    var v, v' := st.visits[i], st'.visits[i];
    ActiveChanges(p, st.visits, i, v');
    if v.claimed.Some? {
      ActiveGrows(p, st.visits[i := v'], Begin(p, v.claimed.value));
    } else if v.todo[0].InSection? && p.Collectable(v.todo[0].section) && v.todo[0].section !in st.marked {
      DormantFalls(p, st.marked, v.todo[0].section, |p.sections|);
    }
  }

  /** So no run takes more steps than there is work at the start: marking ends under every schedule. */
  lemma {:induction false} RunsEnd(p: Program, trace: seq<Marking>, schedule: seq<nat>, n: nat)
    requires p.Valid() && Run(p, trace, schedule) && n <= |schedule|
    ensures n + Work(p, trace[n]) <= Work(p, trace[0])
  {
    if n > 0 {
      RunsEnd(p, trace, schedule, n - 1);
      StepWorks(p, trace[n - 1], trace[n], schedule[n - 1]);
    }
  }
}
