/**
 Identical code folding, the mathematics (elf/icf.cc).

 Sections are vertices, relocations to foldable sections are edges.  The linker
 hashes each vertex, then hashes it again together with the hashes of its
 successors, round after round.  The hash is idealised as a free term, so that
 two digests are equal exactly when the hashed inputs are.
 */
module IcfTheory {
  import opened Bits

  /** What a symbol resolves to; the order of the cases is the order of the tags '1'..'6'. */
  datatype Target =
    | Undefined(sym: nat)
    | Fragment(frag: nat)
    | Sectionless
    | Folded(leader: nat)
    | Eligible(idx: nat)
    | Ineligible(section: nat)
  {
    /** The part of a target that enters the hash: a foldable section is only a tag. */
    function Tag(): Target {
      if Eligible? then Eligible(0) else this
    }
  }

  datatype Reloc = Reloc(offset: nat, kind: nat, addend: int, target: Target, value: nat) {
    function Tagged(): Reloc {
      this.(target := target.Tag())
    }
  }

  /** An exception-handling record: its CIE class, its bytes, its relocations after the first. */
  datatype Fde = Fde(cie: nat, contents: seq<byte>, rels: seq<Reloc>)

  datatype Section = Section(contents: seq<byte>, flags: nat, fdes: seq<Fde>, rels: seq<Reloc>)

  function TaggedRels(rels: seq<Reloc>): (r: seq<Reloc>) {
    seq(|rels|, i requires 0 <= i < |rels| => rels[i].Tagged())
  }

  /** The bytes that identify a vertex on its own, as a value. */
  function Label(s: Section): Section {
    Section(
      s.contents, s.flags,
      seq(|s.fdes|, i requires 0 <= i < |s.fdes| => s.fdes[i].(rels := TaggedRels(s.fdes[i].rels))),
      TaggedRels(s.rels))
  }

  /** The outgoing edges of a vertex, in relocation order. */
  function EligibleTargets(rels: seq<Reloc>): seq<nat> {
    if rels == [] then []
    else
      var init, last := rels[..|rels| - 1], rels[|rels| - 1];
      EligibleTargets(init) + if last.target.Eligible? then [last.target.idx] else []
  }

  /** What hashing sees: a label for every vertex, and the successors of every vertex. */
  datatype Graph = Graph(labels: seq<Section>, succ: seq<seq<nat>>)

  function GraphOf(secs: seq<Section>): Graph {
    Graph(
      seq(|secs|, i requires 0 <= i < |secs| => Label(secs[i])),
      seq(|secs|, i requires 0 <= i < |secs| => EligibleTargets(secs[i].rels)))
  }

  /** A digest as a free term: a vertex hash, or a hash of a vertex hash and its successors' digests. */
  datatype Digest = Init(feed: Section) | Node(own: Digest, children: seq<Digest>)

  predicate Within(edges: seq<nat>, count: nat) {
    forall k :: 0 <= k < |edges| ==> edges[k] < count
  }

  /** Every edge leads to a vertex of the graph. */
  ghost predicate Closed(g: Graph) {
    |g.labels| == |g.succ| &&
    forall i :: 0 <= i < |g.succ| ==> Within(g.succ[i], |g.succ|)
  }

  /** The recurrence the rounds are meant to compute. */
  function D(g: Graph, n: nat, i: nat): Digest
    requires Closed(g) && i < |g.succ|
    decreases n, 0
  {
    if n == 0 then Init(g.labels[i])
    else Node(Init(g.labels[i]), Children(g, n - 1, g.succ[i]))
  }

  function Children(g: Graph, n: nat, edges: seq<nat>): (r: seq<Digest>)
    requires Closed(g) && Within(edges, |g.succ|)
    ensures |r| == |edges|
    ensures forall k :: 0 <= k < |edges| ==> r[k] == D(g, n, edges[k])
    decreases n, 1
  {
    seq(|edges|, k requires 0 <= k < |edges| => D(g, n, edges[k]))
  }

  ghost predicate Same(g: Graph, n: nat, i: nat, k: nat)
    requires Closed(g)
  {
    i < |g.succ| && k < |g.succ| && D(g, n, i) == D(g, n, k)
  }

  // ---- the partition of round n + 1 refines the partition of round n

  lemma {:induction false} RoundRefines(g: Graph, n: nat, i: nat, k: nat)
    requires Closed(g) && Same(g, n + 1, i, k)
    ensures Same(g, n, i, k)
  {
    if n > 0 {
      var e, f := g.succ[i], g.succ[k];
      var c, d := Children(g, n, e), Children(g, n, f);
      assert D(g, n + 1, i).children == c && D(g, n + 1, k).children == d;
      assert |e| == |f|;
      forall j | 0 <= j < |e| ensures Same(g, n - 1, e[j], f[j]) {
        assert c[j] == d[j];
        RoundRefines(g, n - 1, e[j], f[j]);
      }
      assert Children(g, n - 1, e) == Children(g, n - 1, f);
    }
  }

  lemma {:induction false} LaterRoundRefines(g: Graph, n: nat, m: nat, i: nat, k: nat)
    requires Closed(g) && n <= m && Same(g, m, i, k)
    ensures Same(g, n, i, k)
    decreases m
  {
    if n < m {
      RoundRefines(g, m - 1, i, k);
      LaterRoundRefines(g, n, m - 1, i, k);
    }
  }

  // ---- once a vertex repeats its digest it repeats it forever

  lemma {:induction false} RepeatsForever(g: Graph, n: nat, i: nat)
    requires Closed(g) && i < |g.succ| && D(g, n + 1, i) == D(g, n, i)
    ensures D(g, n + 2, i) == D(g, n + 1, i)
  {
    var e := g.succ[i];
    var c, d := Children(g, n, e), Children(g, n + 1, e);
    assert n > 0;
    assert D(g, n + 1, i).children == c && D(g, n, i).children == Children(g, n - 1, e);
    forall j | 0 <= j < |e| ensures c[j] == d[j] {
      assert c[j] == Children(g, n - 1, e)[j];
      RepeatsForever(g, n - 1, e[j]);
    }
    assert c == d;
  }

  // ---- a partition that survives one round survives all of them

  ghost predicate Stable(g: Graph, n: nat)
    requires Closed(g)
  {
    forall i: nat, k: nat :: Same(g, n, i, k) ==> Same(g, n + 1, i, k)
  }

  lemma {:induction false} StableNext(g: Graph, n: nat)
    requires Closed(g) && Stable(g, n)
    ensures Stable(g, n + 1)
  {
    var m := n + 1;
    forall i: nat, k: nat | Same(g, m, i, k) ensures Same(g, m + 1, i, k) {
      var e, f := g.succ[i], g.succ[k];
      var c, d := Children(g, n, e), Children(g, n, f);
      assert D(g, n + 1, i).children == c && D(g, n + 1, k).children == d;
      forall j | 0 <= j < |e| ensures Same(g, n + 1, e[j], f[j]) {
        assert c[j] == d[j];
        assert Same(g, n, e[j], f[j]);
      }
      assert Children(g, n + 1, e) == Children(g, n + 1, f);
    }
  }

  lemma {:induction false} StableForever(g: Graph, n: nat, m: nat, i: nat, k: nat)
    requires Closed(g) && Stable(g, n) && n <= m
    ensures Stable(g, m)
    ensures Same(g, m, i, k) <==> Same(g, n, i, k)
    decreases m
  {
    if n < m {
      StableForever(g, n, m - 1, i, k);
      StableNext(g, m - 1);
      if Same(g, m, i, k) {
        RoundRefines(g, m - 1, i, k);
      }
    }
  }

  // ---- counting classes

  /** The distinct digests of the first `count` vertices after round n. */
  function Classes(g: Graph, n: nat, count: nat): set<Digest>
    requires Closed(g) && count <= |g.succ|
  {
    set i | 0 <= i < count :: D(g, n, i)
  }

  /** Vertex k is in the class of an earlier one. */
  ghost predicate Seen(g: Graph, n: nat, k: nat)
    requires Closed(g)
  {
    exists j: nat :: j < k && Same(g, n, j, k)
  }

  lemma ClassesGrow(g: Graph, n: nat, k: nat)
    requires Closed(g) && k < |g.succ|
    ensures |Classes(g, n, k + 1)| == |Classes(g, n, k)| + if Seen(g, n, k) then 0 else 1
  {
    var before, d := Classes(g, n, k), D(g, n, k);
    assert Classes(g, n, k + 1) == before + {d};
    if Seen(g, n, k) {
      assert before + {d} == before;
    } else if d in before {
      var j :| 0 <= j < k && D(g, n, j) == d;
      assert Same(g, n, j, k);
    }
  }

  lemma SeenEarlier(g: Graph, n: nat, m: nat, k: nat)
    requires Closed(g) && n <= m && Seen(g, m, k)
    ensures Seen(g, n, k)
  {
    var j: nat :| j < k && Same(g, m, j, k);
    LaterRoundRefines(g, n, m, j, k);
  }

  /** Among the first `count` vertices, round n groups nothing that round m tells apart. */
  ghost predicate Agree(g: Graph, n: nat, m: nat, count: nat)
    requires Closed(g)
  {
    forall i: nat, k: nat :: i < k < count && Same(g, n, i, k) ==> Same(g, m, i, k)
  }

  lemma AgreeGrows(g: Graph, n: nat, m: nat, k: nat)
    requires Closed(g) && n <= m && Agree(g, n, m, k)
    requires Seen(g, n, k) ==> Seen(g, m, k)
    ensures Agree(g, n, m, k + 1)
  {
    forall i: nat | i < k && Same(g, n, i, k) ensures Same(g, m, i, k) {
      var j: nat :| j < k && Same(g, m, j, k);
      LaterRoundRefines(g, n, m, j, k);
      assert Same(g, n, i, j) && Same(g, n, j, i);
    }
  }

  /** A later round never has fewer classes, and on equal counts it is the same partition. */
  lemma {:induction false} CountDecides(g: Graph, n: nat, m: nat, count: nat)
    requires Closed(g) && n <= m && count <= |g.succ|
    ensures |Classes(g, n, count)| <= |Classes(g, m, count)| <= count
    ensures |Classes(g, n, count)| == |Classes(g, m, count)| ==> Agree(g, n, m, count)
  {
    if count > 0 {
      var k := count - 1;
      CountDecides(g, n, m, k);
      ClassesGrow(g, n, k);
      ClassesGrow(g, m, k);
      if Seen(g, m, k) {
        SeenEarlier(g, n, m, k);
      }
      if |Classes(g, n, count)| == |Classes(g, m, count)| {
        AgreeGrows(g, n, m, k);
      }
    }
  }

  /** The stop rule: as many classes after round m > n as after round n means nothing changes any more. */
  lemma StopRule(g: Graph, n: nat, m: nat)
    requires Closed(g) && n < m
    requires |Classes(g, n, |g.succ|)| == |Classes(g, m, |g.succ|)|
    ensures Stable(g, n)
    ensures forall r: nat, i: nat, k: nat :: n <= r ==> (Same(g, r, i, k) <==> Same(g, n, i, k))
  {
    CountDecides(g, n, m, |g.succ|);
    forall i: nat, k: nat | Same(g, n, i, k) ensures Same(g, n + 1, i, k) {
      assert Same(g, n, k, i);
      if i != k {
        assert Same(g, m, i, k);
        LaterRoundRefines(g, n + 1, m, i, k);
      }
    }
    forall r: nat, i: nat, k: nat | n <= r ensures Same(g, r, i, k) <==> Same(g, n, i, k) {
      StableForever(g, n, r, i, k);
    }
  }

  // ---- what the classes mean

  ghost predicate SameTarget(t: Target, u: Target, rel: (nat, nat) -> bool) {
    if t.Eligible? && u.Eligible? then rel(t.idx, u.idx) else t == u
  }

  ghost predicate SameReloc(a: Reloc, b: Reloc, rel: (nat, nat) -> bool) {
    a.offset == b.offset && a.kind == b.kind && a.addend == b.addend && a.value == b.value &&
    SameTarget(a.target, b.target, rel)
  }

  /**
   Two sections are interchangeable when contents, flags and exception records agree and
   their relocations agree up to targets that are themselves related.
   */
  ghost predicate Interchangeable(s: Section, t: Section, rel: (nat, nat) -> bool) {
    s.contents == t.contents && s.flags == t.flags && Label(s).fdes == Label(t).fdes &&
    |s.rels| == |t.rels| &&
    forall j :: 0 <= j < |s.rels| ==> SameReloc(s.rels[j], t.rels[j], rel)
  }

  ghost predicate Bisimulation(secs: seq<Section>, rel: (nat, nat) -> bool) {
    forall i, k :: 0 <= i < |secs| && 0 <= k < |secs| && rel(i, k) ==>
      Interchangeable(secs[i], secs[k], rel)
  }

  ghost predicate RelatedSeqs(e: seq<nat>, f: seq<nat>, rel: (nat, nat) -> bool) {
    |e| == |f| && forall j :: 0 <= j < |e| ==> rel(e[j], f[j])
  }

  /** Equal labels and pointwise related edge lists are the same thing as related relocations. */
  lemma {:induction false} EdgesAlign(a: seq<Reloc>, b: seq<Reloc>, rel: (nat, nat) -> bool)
    ensures
      TaggedRels(a) == TaggedRels(b) && RelatedSeqs(EligibleTargets(a), EligibleTargets(b), rel)
      <==>
      |a| == |b| && forall j :: 0 <= j < |a| ==> SameReloc(a[j], b[j], rel)
    decreases |a|
  {
    assert |TaggedRels(a)| == |a| && |TaggedRels(b)| == |b|;
    if |a| == |b| && |a| > 0 {
      var m := |a| - 1;
      var x, y := a[..m], b[..m];
      EdgesAlign(x, y, rel);
      assert TaggedRels(a) == TaggedRels(x) + [a[m].Tagged()];
      assert TaggedRels(b) == TaggedRels(y) + [b[m].Tagged()];
      if TaggedRels(a) == TaggedRels(b) {
        assert TaggedRels(a)[m] == TaggedRels(b)[m];
        assert TaggedRels(x) == TaggedRels(a)[..m] == TaggedRels(b)[..m] == TaggedRels(y);
        EdgeCount(x, y);
        if a[m].target.Eligible? {
          RelatedSnoc(EligibleTargets(x), a[m].target.idx, EligibleTargets(y), b[m].target.idx, rel);
        } else {
          assert EligibleTargets(a) == EligibleTargets(x) && EligibleTargets(b) == EligibleTargets(y);
        }
      }
      assert (forall j :: 0 <= j < |a| ==> SameReloc(a[j], b[j], rel)) <==>
             (forall j :: 0 <= j < m ==> SameReloc(x[j], y[j], rel)) && SameReloc(a[m], b[m], rel) by {
        assert forall j :: 0 <= j < m ==> x[j] == a[j] && y[j] == b[j];
      }
      if (forall j :: 0 <= j < |a| ==> SameReloc(a[j], b[j], rel)) {
        EdgeCount(x, y);
        if a[m].target.Eligible? {
          RelatedSnoc(EligibleTargets(x), a[m].target.idx, EligibleTargets(y), b[m].target.idx, rel);
        }
      }
    }
  }

  lemma RelatedSnoc(e: seq<nat>, i: nat, f: seq<nat>, k: nat, rel: (nat, nat) -> bool)
    requires |e| == |f|
    ensures RelatedSeqs(e + [i], f + [k], rel) <==> RelatedSeqs(e, f, rel) && rel(i, k)
  {
    var g, h := e + [i], f + [k];
    assert g[|e|] == i && h[|f|] == k;
    assert forall j :: 0 <= j < |e| ==> g[j] == e[j] && h[j] == f[j];
  }

  lemma {:induction false} EdgeCount(a: seq<Reloc>, b: seq<Reloc>)
    requires TaggedRels(a) == TaggedRels(b)
    ensures |EligibleTargets(a)| == |EligibleTargets(b)|
    decreases |a|
  {
    assert |a| == |TaggedRels(a)| == |TaggedRels(b)| == |b|;
    if |a| > 0 {
      var m := |a| - 1;
      assert TaggedRels(a[..m]) == TaggedRels(a)[..m];
      assert TaggedRels(b[..m]) == TaggedRels(b)[..m];
      EdgeCount(a[..m], b[..m]);
      assert TaggedRels(a)[m] == a[m].Tagged() && TaggedRels(b)[m] == b[m].Tagged();
    }
  }

  lemma LabelsAndEdges(secs: seq<Section>, i: nat, k: nat, rel: (nat, nat) -> bool)
    requires i < |secs| && k < |secs|
    ensures
      GraphOf(secs).labels[i] == GraphOf(secs).labels[k] &&
      RelatedSeqs(GraphOf(secs).succ[i], GraphOf(secs).succ[k], rel)
      <==> Interchangeable(secs[i], secs[k], rel)
  {
    EdgesAlign(secs[i].rels, secs[k].rels, rel);
  }

  /** Soundness: a stable partition only groups interchangeable sections. */
  lemma StableIsBisimulation(secs: seq<Section>, n: nat)
    requires Closed(GraphOf(secs)) && Stable(GraphOf(secs), n)
    ensures Bisimulation(secs, (i: nat, k: nat) => Same(GraphOf(secs), n, i, k))
  {
    var g := GraphOf(secs);
    var rel := (i: nat, k: nat) => Same(g, n, i, k);
    forall i, k | 0 <= i < |secs| && 0 <= k < |secs| && rel(i, k)
      ensures Interchangeable(secs[i], secs[k], rel)
    {
      assert Same(g, n + 1, i, k);
      var e, f := g.succ[i], g.succ[k];
      var c, d := Children(g, n, e), Children(g, n, f);
      assert D(g, n + 1, i).children == c && D(g, n + 1, k).children == d;
      assert forall j :: 0 <= j < |e| ==> c[j] == d[j];
      LabelsAndEdges(secs, i, k, rel);
    }
  }

  /** Maximality: sections related by any such relation whatever are never told apart. */
  lemma {:induction false} BisimilarNeverSplit(secs: seq<Section>, rel: (nat, nat) -> bool, n: nat, i: nat, k: nat)
    requires Closed(GraphOf(secs)) && Bisimulation(secs, rel)
    requires i < |secs| && k < |secs| && rel(i, k)
    ensures Same(GraphOf(secs), n, i, k)
  {
    var g := GraphOf(secs);
    LabelsAndEdges(secs, i, k, rel);
    if n > 0 {
      var e, f := g.succ[i], g.succ[k];
      forall j | 0 <= j < |e| ensures Same(g, n - 1, e[j], f[j]) {
        BisimilarNeverSplit(secs, rel, n - 1, e[j], f[j]);
      }
      assert Children(g, n - 1, e) == Children(g, n - 1, f);
    }
  }

  /** Some relation witnesses that two sections may be folded. */
  ghost predicate Foldable(secs: seq<Section>, i: nat, k: nat) {
    i < |secs| && k < |secs| &&
    exists rel: (nat, nat) -> bool :: Bisimulation(secs, rel) && rel(i, k)
  }

  /**
   The classes of a stable round are exactly the greatest relation of interchangeable sections,
   and two sections are in one class exactly when no depth of unfolding tells them apart.
   */
  lemma StableIsGreatest(secs: seq<Section>, n: nat, i: nat, k: nat)
    requires Closed(GraphOf(secs)) && Stable(GraphOf(secs), n)
    ensures Same(GraphOf(secs), n, i, k) <==> Foldable(secs, i, k)
    ensures Same(GraphOf(secs), n, i, k) <==> forall m: nat :: Same(GraphOf(secs), m, i, k)
  {
    var g := GraphOf(secs);
    if Same(g, n, i, k) {
      StableIsBisimulation(secs, n);
      var rel := (i: nat, k: nat) => Same(g, n, i, k);
      assert Bisimulation(secs, rel) && rel(i, k);
      forall m: nat ensures Same(g, m, i, k) {
        BisimilarNeverSplit(secs, rel, m, i, k);
      }
    }
    if Foldable(secs, i, k) {
      var rel: (nat, nat) -> bool :| Bisimulation(secs, rel) && rel(i, k);
      BisimilarNeverSplit(secs, rel, n, i, k);
    }
  }

  // ---- relocations of exception records

  /** Like Interchangeable, but the relocations of exception records must agree up to related targets too. */
  ghost predicate StrictlyInterchangeable(s: Section, t: Section, rel: (nat, nat) -> bool) {
    Interchangeable(s, t, rel) &&
    forall i, j :: 0 <= i < |s.fdes| && 0 <= j < |s.fdes[i].rels| ==> SameFdeReloc(s, t, i, j, rel)
  }

  ghost predicate SameFdeReloc(s: Section, t: Section, i: nat, j: nat, rel: (nat, nat) -> bool)
    requires i < |s.fdes| && j < |s.fdes[i].rels|
  {
    i < |t.fdes| && j < |t.fdes[i].rels| && SameReloc(s.fdes[i].rels[j], t.fdes[i].rels[j], rel)
  }

  /** No exception record of the section refers to a foldable section. */
  ghost predicate PlainFdes(s: Section) {
    forall i, j :: 0 <= i < |s.fdes| && 0 <= j < |s.fdes[i].rels| ==> !s.fdes[i].rels[j].target.Eligible?
  }

  /** Then what is hashed of exception records is all there is to them. */
  lemma PlainRecordsAgree(s: Section, t: Section, rel: (nat, nat) -> bool)
    requires PlainFdes(s) && Interchangeable(s, t, rel)
    ensures StrictlyInterchangeable(s, t, rel)
  {
    forall i, j | 0 <= i < |s.fdes| && 0 <= j < |s.fdes[i].rels| ensures SameFdeReloc(s, t, i, j, rel) {
      var x, y := Label(s).fdes[i].rels, Label(t).fdes[i].rels;
      assert x[j] == s.fdes[i].rels[j].Tagged() && y[j] == t.fdes[i].rels[j].Tagged();
    }
  }

  /** A section that differs in the target of one relocation of an exception record. */
  function Retargeted(s: Section, i: nat, j: nat, target: nat): Section
    requires i < |s.fdes| && j < |s.fdes[i].rels|
  {
    var fde := s.fdes[i];
    s.(fdes := s.fdes[i := fde.(rels := fde.rels[j := fde.rels[j].(target := Eligible(target))])])
  }

  /** Moving such a target to another foldable section does not change the label. */
  lemma RetargetedLooksTheSame(s: Section, i: nat, j: nat, target: nat)
    requires i < |s.fdes| && j < |s.fdes[i].rels| && s.fdes[i].rels[j].target.Eligible?
    ensures Label(Retargeted(s, i, j, target)) == Label(s)
    ensures Interchangeable(s, Retargeted(s, i, j, target), (x: nat, y: nat) => x == y)
  {
    var t := Retargeted(s, i, j, target);
    assert TaggedRels(t.fdes[i].rels) == TaggedRels(s.fdes[i].rels);
    assert Label(t).fdes == Label(s).fdes;
  }

  /**
   What is hashed of the exception records of a section is all there is to them exactly when none of them
   refers to a foldable section.
   */
  lemma PlainFdesAreCompared(s: Section)
    ensures PlainFdes(s) <==>
            forall t, rel: (nat, nat) -> bool :: Interchangeable(s, t, rel) ==> StrictlyInterchangeable(s, t, rel)
  {
    if PlainFdes(s) {
      forall t, rel: (nat, nat) -> bool | Interchangeable(s, t, rel) ensures StrictlyInterchangeable(s, t, rel) {
        PlainRecordsAgree(s, t, rel);
      }
    } else {
      var i: nat, j: nat :| i < |s.fdes| && j < |s.fdes[i].rels| && s.fdes[i].rels[j].target.Eligible?;
      var target := s.fdes[i].rels[j].target.idx + 1;
      var t, rel := Retargeted(s, i, j, target), (x: nat, y: nat) => x == y;
      RetargetedLooksTheSame(s, i, j, target);
      assert !SameFdeReloc(s, t, i, j, rel);
    }
  }

  /** So sections without such records that end up in one class agree in everything, records included. */
  lemma FoldedRecordsAgree(secs: seq<Section>, n: nat, i: nat, k: nat)
    requires Closed(GraphOf(secs)) && Stable(GraphOf(secs), n) && Same(GraphOf(secs), n, i, k)
    requires i < |secs| && k < |secs| && PlainFdes(secs[i])
    ensures StrictlyInterchangeable(secs[i], secs[k], (x: nat, y: nat) => Same(GraphOf(secs), n, x, y))
  {
    StableIsBisimulation(secs, n);
    PlainRecordsAgree(secs[i], secs[k], (x: nat, y: nat) => Same(GraphOf(secs), n, x, y));
  }

  /**
   What makes a section a vertex: code or constant data in memory that is not empty, and a relocation of its
   own or of one of its exception records.  Its name and symbols are not part of the model.
   */
  predicate IsVertex(s: Section) {
    s.contents != [] && s.flags % 2 == 0 && s.flags / 2 % 2 == 1 && s.flags / 4 % 2 == 1 &&
    (s.rels != [] || exists i :: 0 <= i < |s.fdes| && s.fdes[i].rels != [])
  }

  /** An allocated, executable section that refers to some undefined symbol. */
  function CodeSection(byteValue: byte): Section {
    Section([byteValue], 6, [], [Reloc(0, 18, 0, Undefined(0), 0)])
  }

  function WithRecordOf(target: nat): Section {
    Section([0], 6, [Fde(0, [], [Reloc(0, 1, 0, Eligible(target), 0)])], [])
  }

  /**
   Otherwise it is not: two sections whose exception records refer to different foldable sections are
   never told apart, although the sections referred to are.
   */
  lemma {:induction false} RecordTargetsAreIgnored(n: nat)
    ensures
      var secs := [WithRecordOf(2), WithRecordOf(3), CodeSection(0), CodeSection(1)];
      (forall i :: 0 <= i < |secs| ==> IsVertex(secs[i])) &&
      Closed(GraphOf(secs)) && Same(GraphOf(secs), n, 0, 1) && !Same(GraphOf(secs), n, 2, 3)
  {
    var secs := [WithRecordOf(2), WithRecordOf(3), CodeSection(0), CodeSection(1)];
    var g := GraphOf(secs);
    assert secs[0].fdes[0].rels != [] && secs[1].fdes[0].rels != [];
    assert WithRecordOf(3) == Retargeted(WithRecordOf(2), 0, 0, 3) by {
      assert Retargeted(WithRecordOf(2), 0, 0, 3).fdes[0].rels == WithRecordOf(3).fdes[0].rels;
      assert Retargeted(WithRecordOf(2), 0, 0, 3).fdes == WithRecordOf(3).fdes;
    }
    RetargetedLooksTheSame(WithRecordOf(2), 0, 0, 3);
    NoTargets(secs[2].rels);
    NoTargets(secs[3].rels);
    assert g.succ[0] == [] && g.succ[1] == [];
    assert Label(secs[2]).contents != Label(secs[3]).contents;
    if n > 0 {
      assert Children(g, n - 1, g.succ[0]) == Children(g, n - 1, g.succ[1]);
    }
  }

  lemma NoTargets(rels: seq<Reloc>)
    requires |rels| == 1 && !rels[0].target.Eligible?
    ensures EligibleTargets(rels) == []
  {
    assert rels[..0] == [] && EligibleTargets([]) == [];
  }
}
