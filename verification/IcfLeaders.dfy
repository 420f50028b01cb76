/**
 Identical code folding, choosing one section per class (elf/icf.cc: the grouping step,
 merge_leaf_nodes and update_leader).

 Every section is handed to some thread, which tries to insert it under its key (a digest, or
 for leaf sections the contents) and otherwise races to lower the entry with a weak
 compare-and-exchange that may fail for no reason.
 */
module IcfLeaders {
  import opened Bits
  import opened InputSections
  import opened Wrappers
  import opened IcfTheory
  import opened IcfRun

  datatype Pc = Start | Found | Racing(cur: nat) | Done

  /** The shared map from key to leader, and how far the insertion of each section has come. */
  datatype State<K> = State(entries: map<K, nat>, pcs: seq<Pc>)

  datatype Job<K> = Job(keys: seq<K>, priority: seq<int>) {
    ghost predicate Valid() {
      |keys| == |priority| &&
      forall i, k :: 0 <= i < k < |priority| ==> priority[i] != priority[k]
    }

    predicate Beats(i: nat, k: nat)
      requires i < |priority| && k < |priority|
    {
      priority[i] < priority[k]
    }

    ghost predicate Member(i: nat, key: K) {
      i < |keys| && keys[i] == key
    }
  }

  ghost predicate Init<K>(job: Job<K>, s: State<K>) {
    s.entries == map[] && |s.pcs| == |job.keys| && forall i :: 0 <= i < |s.pcs| ==> s.pcs[i] == Start
  }

  // ---- the atomic steps of one insertion

  /** emplace: inserts the section if its key is new. */
  ghost predicate Emplace<K>(job: Job<K>, s: State<K>, t: State<K>, i: nat)
    requires i < |s.pcs| == |job.keys|
  {
    s.pcs[i] == Start &&
    if job.keys[i] in s.entries then t == s.(pcs := s.pcs[i := Found])
    else t == State(s.entries[job.keys[i] := i], s.pcs[i := Done])
  }

  /** The load at the head of update_leader. */
  ghost predicate Load<K>(job: Job<K>, s: State<K>, t: State<K>, i: nat)
    requires i < |s.pcs| == |job.keys|
  {
    s.pcs[i] == Found && job.keys[i] in s.entries &&
    t == s.(pcs := s.pcs[i := Racing(s.entries[job.keys[i]])])
  }

  /** The loop condition fails: the entry seen is no worse than this section. */
  ghost predicate GiveWay<K>(job: Job<K>, s: State<K>, t: State<K>, i: nat)
    requires i < |s.pcs| == |job.keys| == |job.priority|
  {
    s.pcs[i].Racing? && s.pcs[i].cur < |job.priority| && !job.Beats(i, s.pcs[i].cur) &&
    t == s.(pcs := s.pcs[i := Done])
  }

  /** The exchange succeeds: the entry is still the one seen. */
  ghost predicate Exchange<K>(job: Job<K>, s: State<K>, t: State<K>, i: nat)
    requires i < |s.pcs| == |job.keys| == |job.priority|
  {
    s.pcs[i].Racing? && s.pcs[i].cur < |job.priority| && job.Beats(i, s.pcs[i].cur) &&
    job.keys[i] in s.entries && s.entries[job.keys[i]] == s.pcs[i].cur &&
    t == State(s.entries[job.keys[i] := i], s.pcs[i := Done])
  }

  /** The exchange fails, rightly or spuriously, and the current entry is read again. */
  ghost predicate Retry<K>(job: Job<K>, s: State<K>, t: State<K>, i: nat)
    requires i < |s.pcs| == |job.keys| == |job.priority|
  {
    s.pcs[i].Racing? && s.pcs[i].cur < |job.priority| && job.Beats(i, s.pcs[i].cur) &&
    job.keys[i] in s.entries &&
    t == s.(pcs := s.pcs[i := Racing(s.entries[job.keys[i]])])
  }

  ghost predicate Step<K>(job: Job<K>, s: State<K>, t: State<K>, i: nat) {
    i < |s.pcs| == |job.keys| == |job.priority| &&
    (Emplace(job, s, t, i) || Load(job, s, t, i) || GiveWay(job, s, t, i) ||
     Exchange(job, s, t, i) || Retry(job, s, t, i))
  }

  /** A run under some schedule: which section moves at each step is arbitrary. */
  ghost predicate Run<K>(job: Job<K>, trace: seq<State<K>>, schedule: seq<nat>) {
    |trace| == |schedule| + 1 && Init(job, trace[0]) &&
    forall n :: 0 <= n < |schedule| ==> Step(job, trace[n], trace[n + 1], schedule[n])
  }

  // ---- the invariant

  ghost predicate EntriesBelong<K>(job: Job<K>, s: State<K>) {
    forall key :: key in s.entries ==> job.Member(s.entries[key], key)
  }

  /** What section i may rely on, given how far it has come. */
  ghost predicate Progress<K>(job: Job<K>, s: State<K>, i: nat)
    requires EntriesBelong(job, s) && i < |s.pcs| == |job.keys| == |job.priority|
  {
    s.pcs[i] != Start ==>
      var key := job.keys[i];
      key in s.entries &&
      match s.pcs[i]
      case Racing(cur) => job.Member(cur, key) && !job.Beats(cur, s.entries[key])
      case Done => !job.Beats(i, s.entries[key])
      case _ => true
  }

  ghost predicate Inv<K>(job: Job<K>, s: State<K>) {
    job.Valid() && |s.pcs| == |job.keys| && EntriesBelong(job, s) &&
    forall i: nat :: i < |s.pcs| ==> Progress(job, s, i)
  }

  /** A step keeps the invariant, and never makes the entry of any key worse. */
  lemma StepKeepsInv<K>(job: Job<K>, s: State<K>, t: State<K>, i: nat)
    requires Inv(job, s) && Step(job, s, t, i)
    ensures Inv(job, t)
    ensures forall key :: key in s.entries ==> key in t.entries && !job.Beats(s.entries[key], t.entries[key])
  {
    assert Progress(job, s, i);
    assert EntriesBelong(job, t);
    forall k: nat | k < |t.pcs| ensures Progress(job, t, k) {
      assert Progress(job, s, k);
    }
  }

  lemma {:induction false} RunKeepsInv<K>(job: Job<K>, trace: seq<State<K>>, schedule: seq<nat>, n: nat)
    requires job.Valid() && Run(job, trace, schedule) && n < |trace|
    ensures Inv(job, trace[n])
  {
    if n > 0 {
      RunKeepsInv(job, trace, schedule, n - 1);
      StepKeepsInv(job, trace[n - 1], trace[n], schedule[n - 1]);
    }
  }

  /** Nothing is ever stuck: a section that is not done can always move. */
  lemma NeverStuck<K>(job: Job<K>, s: State<K>, i: nat)
    requires Inv(job, s) && i < |s.pcs| && s.pcs[i] != Done
    ensures exists t :: Step(job, s, t, i)
  {
    assert Progress(job, s, i);
    var key := job.keys[i];
    match s.pcs[i]
    case Start =>
      var t := if key in s.entries then s.(pcs := s.pcs[i := Found])
               else State(s.entries[key := i], s.pcs[i := Done]);
      assert Emplace(job, s, t, i) && Step(job, s, t, i);
    case Found =>
      var t := s.(pcs := s.pcs[i := Racing(s.entries[key])]);
      assert Load(job, s, t, i) && Step(job, s, t, i);
    case Racing(cur) =>
      if job.Beats(i, cur) {
        var t := s.(pcs := s.pcs[i := Racing(s.entries[key])]);
        assert Retry(job, s, t, i) && Step(job, s, t, i);
      } else {
        var t := s.(pcs := s.pcs[i := Done]);
        assert GiveWay(job, s, t, i) && Step(job, s, t, i);
      }
  }

  // ---- the outcome

  ghost predicate Finished<K>(s: State<K>) {
    forall i :: 0 <= i < |s.pcs| ==> s.pcs[i] == Done
  }

  /** `leader` assigns to each section the first section, by priority, with the same key. */
  ghost predicate Elects<K>(job: Job<K>, leader: seq<nat>)
    requires job.Valid()
  {
    |leader| == |job.keys| &&
    forall i: nat :: i < |leader| ==>
      job.Member(leader[i], job.keys[i]) &&
      forall k: nat :: job.Member(k, job.keys[i]) ==> !job.Beats(k, leader[i])
  }

  /** The leaders as read back from the map. */
  ghost function Leaders<K>(job: Job<K>, s: State<K>): seq<nat>
    requires Inv(job, s) && Finished(s)
  {
    seq(|job.keys|, i requires 0 <= i < |job.keys| =>
      assert Progress(job, s, i);
      s.entries[job.keys[i]])
  }

  /** Under every interleaving the outcome is the same: each class is led by its first member. */
  lemma EveryRunElects<K>(job: Job<K>, trace: seq<State<K>>, schedule: seq<nat>)
    requires job.Valid() && Run(job, trace, schedule) && Finished(trace[|schedule|])
    ensures Inv(job, trace[|schedule|])
    ensures Elects(job, Leaders(job, trace[|schedule|]))
  {
    RunKeepsInv(job, trace, schedule, |schedule|);
    var s := trace[|schedule|];
    forall i: nat | i < |job.keys|
      ensures job.keys[i] in s.entries && job.Member(s.entries[job.keys[i]], job.keys[i])
      ensures forall k: nat :: job.Member(k, job.keys[i]) ==> !job.Beats(k, s.entries[job.keys[i]])
    {
      assert Progress(job, s, i);
      forall k: nat | job.Member(k, job.keys[i]) ensures !job.Beats(k, s.entries[job.keys[i]]) {
        assert Progress(job, s, k);
      }
    }
  }

  /** Leaders are shared exactly within a class, and leading is idempotent. */
  lemma ElectionIsByClass<K>(job: Job<K>, leader: seq<nat>, i: nat, k: nat)
    requires job.Valid() && Elects(job, leader) && i < |leader| && k < |leader|
    ensures leader[i] == leader[k] <==> job.keys[i] == job.keys[k]
    ensures leader[i] < |leader| && leader[leader[i]] == leader[i]
  {
    var a, b := leader[i], leader[k];
    assert job.Member(a, job.keys[i]) && job.Member(b, job.keys[k]);
    if job.keys[i] == job.keys[k] {
      assert !job.Beats(a, b) && !job.Beats(b, a);
    }
    assert job.Member(a, job.keys[a]) && job.Member(leader[a], job.keys[a]);
    assert !job.Beats(a, leader[a]) && !job.Beats(leader[a], a);
  }

  /**
   The whole of ICF.  After a stable round, elect leaders by digest and drop every section that is not
   its own leader: two sections get the same leader exactly when they may be folded, each
   section may be folded with its leader, and exactly the leaders survive.
   */
  lemma FoldingIsCorrect(secs: seq<Section>, n: nat, priority: seq<int>, leader: seq<nat>, i: nat, k: nat)
    requires Closed(GraphOf(secs)) && Stable(GraphOf(secs), n)
    requires Job(Row(GraphOf(secs), n), priority).Valid()
    requires Elects(Job(Row(GraphOf(secs), n), priority), leader)
    requires i < |secs| && k < |secs|
    ensures leader[i] == leader[k] <==> Foldable(secs, i, k)
    ensures Foldable(secs, i, leader[i])
    ensures !KilledByIcf(i, Some(leader[i])) <==>
            forall j: nat :: Foldable(secs, i, j) ==> priority[i] <= priority[j]
  {
    var g := GraphOf(secs);
    var job := Job(Row(g, n), priority);
    ElectionIsByClass(job, leader, i, k);
    ElectionIsByClass(job, leader, i, leader[i]);
    StableIsGreatest(secs, n, i, k);
    StableIsGreatest(secs, n, i, leader[i]);
    assert Same(g, n, i, k) <==> job.keys[i] == job.keys[k];
    assert Same(g, n, i, leader[i]) <==> job.keys[i] == job.keys[leader[i]];
    forall j: nat ensures Foldable(secs, i, j) <==> job.Member(j, job.keys[i]) {
      if j < |secs| {
        StableIsGreatest(secs, n, i, j);
        assert Same(g, n, i, j) <==> job.keys[i] == job.keys[j];
      }
    }
    if leader[i] == i {
      forall j: nat | Foldable(secs, i, j) ensures priority[i] <= priority[j] {
        assert job.Member(j, job.keys[i]) && !job.Beats(j, leader[i]);
      }
    } else {
      assert job.Member(i, job.keys[i]) && !job.Beats(i, leader[i]);
      assert job.Member(leader[i], job.keys[i]);
    }
  }

  // ---- leaf sections

  /** A section without relocations, its exception records included. */
  predicate IsLeaf(s: Section) {
    s.rels == [] && forall i :: 0 <= i < |s.fdes| ==> s.fdes[i].rels == []
  }

  /** What is compared of leaf sections: neither their flags nor the CIEs of their exception records. */
  datatype LeafKey = LeafKey(contents: seq<byte>, fdes: seq<seq<byte>>)

  function KeyOf(s: Section): LeafKey {
    LeafKey(s.contents, seq(|s.fdes|, i requires 0 <= i < |s.fdes| => s.fdes[i].contents))
  }

  /** What is not compared. */
  predicate SameMetadata(s: Section, t: Section) {
    s.flags == t.flags && |s.fdes| == |t.fdes| && forall i :: 0 <= i < |s.fdes| ==> s.fdes[i].cie == t.fdes[i].cie
  }

  /** Equal leaf keys mean identical sections, exactly if flags and CIEs agree as well. */
  lemma LeafKeysSuffice(s: Section, t: Section, rel: (nat, nat) -> bool)
    requires IsLeaf(s) && IsLeaf(t) && KeyOf(s) == KeyOf(t)
    ensures Interchangeable(s, t, rel) <==> SameMetadata(s, t)
  {
    var k, l := KeyOf(s), KeyOf(t);
    assert |k.fdes| == |s.fdes| && |l.fdes| == |t.fdes|;
    forall i | 0 <= i < |s.fdes|
      ensures Label(s).fdes[i] == Label(t).fdes[i] <==> s.fdes[i].cie == t.fdes[i].cie
    {
      assert k.fdes[i] == s.fdes[i].contents && l.fdes[i] == t.fdes[i].contents;
      assert TaggedRels(s.fdes[i].rels) == [] == TaggedRels(t.fdes[i].rels);
    }
    if Label(s).fdes == Label(t).fdes {
      assert forall i :: 0 <= i < |s.fdes| ==> Label(s).fdes[i] == Label(t).fdes[i];
    }
    if SameMetadata(s, t) {
      assert forall i :: 0 <= i < |s.fdes| ==> Label(s).fdes[i] == Label(t).fdes[i];
      assert Label(s).fdes == Label(t).fdes;
    }
  }

  /** So two functions of one byte, one of which belongs to a section group, are folded. */
  lemma OtherFlagsFold(byteValue: byte, rel: (nat, nat) -> bool)
    ensures
      var s, t := Section([byteValue], 0x6, [], []), Section([byteValue], 0x206, [], []);
      IsLeaf(s) && IsLeaf(t) && KeyOf(s) == KeyOf(t) && !Interchangeable(s, t, rel)
  {
  }

  function LeafKeys(leaves: seq<Section>): (keys: seq<LeafKey>)
    ensures |keys| == |leaves|
  {
    seq(|leaves|, i requires 0 <= i < |leaves| => KeyOf(leaves[i]))
  }

  /**
   Identical leaf sections always get one leader; and two leaf sections with one leader are identical, exactly if
   they agree in flags and in the CIEs of their records.
   */
  lemma LeavesFold(leaves: seq<Section>, priority: seq<int>, leader: seq<nat>, i: nat, k: nat, rel: (nat, nat) -> bool)
    requires forall j :: 0 <= j < |leaves| ==> IsLeaf(leaves[j])
    requires Job(LeafKeys(leaves), priority).Valid() && Elects(Job(LeafKeys(leaves), priority), leader)
    requires i < |leaves| && k < |leaves|
    ensures i < |leader| && k < |leader|
    ensures Interchangeable(leaves[i], leaves[k], rel) ==> leader[i] == leader[k]
    ensures leader[i] == leader[k] ==>
              (Interchangeable(leaves[i], leaves[k], rel) <==> SameMetadata(leaves[i], leaves[k]))
  {
    ElectionIsByClass(Job(LeafKeys(leaves), priority), leader, i, k);
    if Interchangeable(leaves[i], leaves[k], rel) {
      IdenticalLeavesAgree(leaves[i], leaves[k], rel);
    }
    if leader[i] == leader[k] {
      LeafKeysSuffice(leaves[i], leaves[k], rel);
    }
  }

  lemma IdenticalLeavesAgree(s: Section, t: Section, rel: (nat, nat) -> bool)
    requires Interchangeable(s, t, rel)
    ensures KeyOf(s) == KeyOf(t)
  {
    forall i | 0 <= i < |s.fdes| ensures s.fdes[i].contents == t.fdes[i].contents {
      assert Label(s).fdes[i] == Label(t).fdes[i];
    }
    assert |Label(s).fdes| == |s.fdes| && |Label(t).fdes| == |t.fdes|;
    assert KeyOf(s).fdes == KeyOf(t).fdes;
  }
}
