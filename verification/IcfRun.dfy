/**
 Identical code folding, the program (elf/icf.cc): edge gathering, propagation rounds
 with the convergence shortcut, class counting and the two loops of icf_sections.
 */
module IcfRun {
  import opened IcfTheory
  import opened BitVectors

  // ---- gather_edges

  /** The edge lists of the first k sections, one after another. */
  function FlatEdges(succ: seq<seq<nat>>, k: nat): seq<nat>
    requires k <= |succ|
  {
    if k == 0 then [] else FlatEdges(succ, k - 1) + succ[k - 1]
  }

  function Offsets(succ: seq<seq<nat>>): seq<nat> {
    seq(|succ|, i requires 0 <= i < |succ| => |FlatEdges(succ, i)|)
  }

  lemma FlatSlice(succ: seq<seq<nat>>, i: nat, k: nat)
    requires i < k <= |succ|
    ensures |FlatEdges(succ, i)| <= |FlatEdges(succ, i + 1)| <= |FlatEdges(succ, k)|
    ensures FlatEdges(succ, k)[|FlatEdges(succ, i)|..|FlatEdges(succ, i + 1)|] ==
            succ[i]
  {
    if i + 1 < k {
      FlatSlice(succ, i, k - 1);
      var a, b := |FlatEdges(succ, i)|, |FlatEdges(succ, i + 1)|;
      assert FlatEdges(succ, k)[a..b] == FlatEdges(succ, k - 1)[a..b];
    }
  }

  /** The slice of a section in the flat edge array. */
  lemma OwnSlice(succ: seq<seq<nat>>, i: nat)
    requires i < |succ|
    ensures
      var edges := FlatEdges(succ, |succ|);
      var begin, end := Offsets(succ)[i], if i + 1 == |succ| then |edges| else Offsets(succ)[i + 1];
      begin <= end <= |edges| && edges[begin..end] == succ[i]
  {
    FlatSlice(succ, i, |succ|);
  }

  lemma TargetsSnoc(rels: seq<Reloc>, j: nat)
    requires j < |rels|
    ensures EligibleTargets(rels[..j + 1]) ==
            EligibleTargets(rels[..j]) + if rels[j].target.Eligible? then [rels[j].target.idx] else []
  {
    assert rels[..j + 1][..j] == rels[..j];
  }

  lemma FlatStep(succ: seq<seq<nat>>, i: nat)
    requires i < |succ|
    ensures |FlatEdges(succ, i + 1)| == |FlatEdges(succ, i)| + |succ[i]| <= |FlatEdges(succ, |succ|)|
    ensures FlatEdges(succ, i + 1) == FlatEdges(succ, i) + succ[i]
  {
    FlatSlice(succ, i, |succ|);
  }

  method CountEdges(rels: seq<Reloc>) returns (n: nat)
    ensures n == |EligibleTargets(rels)|
  {
    n := 0;
    for j := 0 to |rels|
      invariant n == |EligibleTargets(rels[..j])|
    {
      TargetsSnoc(rels, j);
      if rels[j].target.Eligible? {
        n := n + 1;
      }
    }
    assert rels[..|rels|] == rels;
  }

  method FillEdges(rels: seq<Reloc>, edges: array<nat>, begin: nat)
    requires begin + |EligibleTargets(rels)| <= edges.Length
    modifies edges
    ensures edges[..begin + |EligibleTargets(rels)|] == old(edges[..begin]) + EligibleTargets(rels)
  {
    var idx := begin;
    for j := 0 to |rels|
      invariant begin <= idx <= edges.Length && idx == begin + |EligibleTargets(rels[..j])|
      invariant edges[..idx] == old(edges[..begin]) + EligibleTargets(rels[..j])
    {
      TargetsSnoc(rels, j);
      TargetsPrefix(rels, j + 1);
      if rels[j].target.Eligible? {
        edges[idx] := rels[j].target.idx;
        idx := idx + 1;
      }
    }
    assert rels[..|rels|] == rels;
  }

  /** The number of edges of every section. */
  method CountAll(secs: seq<Section>) returns (numEdges: array<nat>)
    ensures fresh(numEdges) && numEdges.Length == |secs|
    ensures forall k :: 0 <= k < |secs| ==> numEdges[k] == |EligibleTargets(secs[k].rels)|
  {
    numEdges := new nat[|secs|];
    for i := 0 to |secs|
      invariant forall k :: 0 <= k < i ==> numEdges[k] == |EligibleTargets(secs[k].rels)|
    {
      numEdges[i] := CountEdges(secs[i].rels);
    }
  }

  /** Where the edges of every section begin. */
  method AddUp(numEdges: array<nat>, ghost succ: seq<seq<nat>>) returns (edgeIndices: array<nat>)
    requires numEdges.Length == |succ| > 0
    requires forall k :: 0 <= k < |succ| ==> numEdges[k] == |succ[k]|
    ensures fresh(edgeIndices) && edgeIndices[..] == Offsets(succ)
  {
    edgeIndices := new nat[numEdges.Length](_ => 0);
    ghost var offsets := Offsets(succ);
    for i := 0 to numEdges.Length - 1
      invariant forall k :: 0 <= k <= i ==> edgeIndices[k] == offsets[k]
    {
      OffsetStep(succ, i);
      edgeIndices[i + 1] := edgeIndices[i] + numEdges[i];
    }
  }

  lemma OffsetStep(succ: seq<seq<nat>>, i: nat)
    requires i + 1 < |succ|
    ensures Offsets(succ)[i + 1] == Offsets(succ)[i] + |succ[i]|
  {
    FlatStep(succ, i);
  }

  /** Both passes: count and add up, then fill the slices. */
  method GatherEdges(secs: seq<Section>) returns (edges: array<nat>, edgeIndices: array<nat>)
    ensures fresh(edges) && fresh(edgeIndices)
    ensures edges[..] == FlatEdges(GraphOf(secs).succ, |secs|)
    ensures edgeIndices[..] == Offsets(GraphOf(secs).succ)
  {
    ghost var succ := GraphOf(secs).succ;
    if |secs| == 0 {
      edges, edgeIndices := new nat[0], new nat[0];
      return;
    }
    var numEdges := CountAll(secs);
    edgeIndices := AddUp(numEdges, succ);
    assert edgeIndices[|secs| - 1] == edgeIndices[..][|secs| - 1];
    LastOffset(succ);
    edges := new nat[edgeIndices[|secs| - 1] + numEdges[|secs| - 1]];
    FillAll(secs, edges, edgeIndices);
  }

  lemma LastOffset(succ: seq<seq<nat>>)
    requires succ != []
    ensures |Offsets(succ)| == |succ|
    ensures Offsets(succ)[|succ| - 1] + |succ[|succ| - 1]| == |FlatEdges(succ, |succ|)|
  {
    FlatStep(succ, |succ| - 1);
  }

  method FillAll(secs: seq<Section>, edges: array<nat>, edgeIndices: array<nat>)
    requires edges != edgeIndices && edgeIndices[..] == Offsets(GraphOf(secs).succ)
    requires edges.Length == |FlatEdges(GraphOf(secs).succ, |secs|)|
    modifies edges
    ensures edges[..] == FlatEdges(GraphOf(secs).succ, |secs|)
  {
    ghost var succ := GraphOf(secs).succ;
    for i := 0 to |secs|
      invariant |FlatEdges(succ, i)| <= edges.Length
      invariant edges[..|FlatEdges(succ, i)|] == FlatEdges(succ, i)
    {
      FlatStep(succ, i);
      assert edgeIndices[i] == edgeIndices[..][i] == |FlatEdges(succ, i)|;
      FillEdges(secs[i].rels, edges, edgeIndices[i]);
    }
    assert edges[..] == edges[..|FlatEdges(succ, |secs|)|];
  }

  lemma TargetsPrefix(rels: seq<Reloc>, j: nat)
    requires j <= |rels|
    ensures |EligibleTargets(rels[..j])| <= |EligibleTargets(rels)|
  {
    if j < |rels| {
      TargetsPrefix(rels[..|rels| - 1], j);
      assert rels[..|rels| - 1][..j] == rels[..j];
    } else {
      assert rels[..j] == rels;
    }
  }

  // ---- propagate

  /** All digests after round n, by the plain recurrence. */
  function Row(g: Graph, n: nat): seq<Digest>
    requires Closed(g)
  {
    seq(|g.succ|, i requires 0 <= i < |g.succ| => D(g, n, i))
  }

  /** The number of positions, among the first k, at which two arrays of digests differ. */
  function NumChanged(v: seq<Digest>, w: seq<Digest>, k: nat): (r: nat)
    requires k <= |v| == |w|
    ensures r <= k
  {
    if k == 0 then 0 else NumChanged(v, w, k - 1) + if v[k - 1] == w[k - 1] then 0 else 1
  }

  lemma ChangedStep(v: seq<Digest>, w: seq<Digest>, k: nat)
    requires k < |v| == |w|
    ensures NumChanged(v, w, k + 1) == NumChanged(v, w, k) + if v[k] == w[k] then 0 else 1
  {
  }

  /** The number of vertices that change in round n + 1. */
  function Changes(g: Graph, n: nat): (r: nat)
    requires Closed(g)
    ensures r <= |g.succ|
  {
    NumChanged(Row(g, n), Row(g, n + 1), |g.succ|)
  }

  /** The number of changing vertices never rises. */
  lemma ChangesFall(g: Graph, n: nat)
    requires Closed(g)
    ensures Changes(g, n + 1) <= Changes(g, n)
  {
    forall i | 0 <= i < |g.succ| && Row(g, n + 1)[i] == Row(g, n)[i]
      ensures Row(g, n + 2)[i] == Row(g, n + 1)[i]
    {
      RepeatsForever(g, n, i);
    }
    FewerChanges(Row(g, n), Row(g, n + 1), Row(g, n + 2), |g.succ|);
  }

  lemma {:induction false} FewerChanges(u: seq<Digest>, v: seq<Digest>, w: seq<Digest>, k: nat)
    requires k <= |u| == |v| == |w|
    requires forall i :: 0 <= i < |u| && v[i] == u[i] ==> w[i] == v[i]
    ensures NumChanged(v, w, k) <= NumChanged(u, v, k)
  {
    if k > 0 {
      FewerChanges(u, v, w, k - 1);
    }
  }

  /** A vertex with its bit set has the same digest in both arrays and in the next round. */
  ghost predicate Settled(v: seq<Digest>, w: seq<Digest>, next: seq<Digest>, bits: seq<bool>) {
    |v| == |w| == |next| == |bits| &&
    forall i :: 0 <= i < |bits| && bits[i] ==> v[i] == w[i] == next[i]
  }

  lemma SettledNext(g: Graph, w: seq<Digest>, bits: seq<bool>, n: nat)
    requires Closed(g) && Settled(Row(g, n), w, Row(g, n + 1), bits)
    requires w == Row(g, n + 1)
    ensures Settled(w, Row(g, n), Row(g, n + 2), bits)
  {
    forall i | 0 <= i < |bits| && bits[i] ensures Row(g, n + 2)[i] == Row(g, n + 1)[i] {
      RepeatsForever(g, n, i);
    }
  }

  /** The digests of the successors, in order. */
  method ChildDigests(digests: array<Digest>, targets: seq<nat>) returns (kids: seq<Digest>)
    requires Within(targets, digests.Length)
    ensures |kids| == |targets| && forall k :: 0 <= k < |kids| ==> kids[k] == digests[targets[k]]
  {
    kids := [];
    for j := 0 to |targets|
      invariant |kids| == j
      invariant forall k :: 0 <= k < j ==> kids[k] == digests[targets[k]]
    {
      kids := kids + [digests[targets[j]]];
    }
  }

  class Propagation {
    ghost const g: Graph
    const edges: seq<nat>
    const edgeIndices: seq<nat>
    const own: seq<Digest>
    const hashes0: array<Digest>
    const hashes1: array<Digest>
    const converged: BitVector
    var slot: bool
    ghost var round: nat

    function Current(): array<Digest>
      reads this
    {
      if slot then hashes1 else hashes0
    }

    function Other(): array<Digest>
      reads this
    {
      if slot then hashes0 else hashes1
    }

    /** What never changes: the graph, its flat edge arrays and the vertex hashes. */
    ghost predicate Inputs() {
      Closed(g) && edges == FlatEdges(g.succ, |g.succ|) && edgeIndices == Offsets(g.succ) &&
      own == Row(g, 0) &&
      hashes0 != hashes1 && converged.vec as object != hashes0 && converged.vec as object != hashes1
    }

    /** The current array holds the plain recurrence for every vertex. */
    ghost predicate Valid()
      reads this, hashes0, hashes1, converged, converged.vec
    {
      Inputs() && converged.Valid() &&
      Current()[..] == Row(g, round) &&
      Settled(Row(g, round), Other()[..], Row(g, round + 1), converged.Bits())
    }

    /** The first i vertices have their digests of the next round. */
    ghost predicate Rehashed(i: nat)
      reads this, hashes0, hashes1
      requires Closed(g) && i <= |g.succ| == Other().Length
    {
      Other()[..i] == Row(g, round + 1)[..i]
    }

    constructor (secs: seq<Section>)
      requires Closed(GraphOf(secs))
      ensures Valid() && round == 0 && g == GraphOf(secs)
      ensures fresh(hashes0) && fresh(hashes1) && fresh(converged) && fresh(converged.vec)
    {
      g := GraphOf(secs);
      var digest := i requires 0 <= i < |secs| => Init(Label(secs[i]));
      hashes0 := new Digest[|secs|](digest);
      hashes1 := new Digest[|secs|](digest);
      own := seq(|secs|, digest);
      var e, ei := GatherEdges(secs);
      edges, edgeIndices := e[..], ei[..];
      var bits := new BitVector(|secs|);
      converged := bits;
      slot := false;
      round := 0;
    }

    /** The new digest of vertex i: its own hash and its successors', read through the flat edges. */
    method Rehash(i: nat) returns (d: Digest)
      requires Valid() && i < |g.succ|
      ensures d == Row(g, round + 1)[i]
    {
      var begin := edgeIndices[i];
      var end := if i + 1 == |edgeIndices| then |edges| else edgeIndices[i + 1];
      ghost var targets := g.succ[i];
      OwnSlice(g.succ, i);
      assert Within(targets, |g.succ|);
      assert edges[begin..end] == targets;
      var kids := ChildDigests(Current(), edges[begin..end]);
      assert kids == Children(g, round, targets);
      d := Node(own[i], kids);
    }

    /**
     The body of the parallel loop for one vertex.  Setting a bit of `converged` is not atomic in
     the source, so an update may be lost; that is the nondeterministic choice below.
     */
    method Visit(i: nat) returns (changed: nat)
      requires Valid() && i < |g.succ| && Rehashed(i)
      modifies Other(), converged.vec
      ensures Valid() && Rehashed(i + 1)
      ensures changed == if Row(g, round)[i] == Row(g, round + 1)[i] then 0 else 1
    {
      ghost var v, w, next, bits := Row(g, round), Other()[..], Row(g, round + 1), converged.Bits();
      if converged.Get(i) {
        assert bits[i];
        return 0;
      }
      assert !bits[i];
      var d := Rehash(i);
      Other()[i] := d;
      assert Current()[..] == v && Other()[..] == w[i := next[i]];
      assert Current()[i] == v[i];
      if Current()[i] == Other()[i] {
        if * {
          converged.Set(i);
        }
        changed := 0;
      } else {
        changed := 1;
      }
      assert Current()[..] == v && Other()[..] == w[i := next[i]];
    }

    method VisitAll() returns (changed: nat)
      requires Valid()
      modifies Other(), converged.vec
      ensures Valid() && Other()[..] == Row(g, round + 1)
      ensures changed == Changes(g, round)
    {
      changed := 0;
      ghost var v, next := Row(g, round), Row(g, round + 1);
      for i := 0 to |own|
        invariant Valid() && Rehashed(i)
        invariant changed == NumChanged(v, next, i)
      {
        ChangedStep(v, next, i);
        var c := Visit(i);
        changed := changed + c;
      }
      assert Other()[..] == Other()[..|own|] && next == next[..|own|];
    }

    /** One round. */
    method Propagate() returns (changed: nat)
      requires Valid()
      modifies `slot, `round, hashes0, hashes1, converged.vec
      ensures Valid() && round == old(round) + 1
      ensures changed == Changes(g, old(round))
    {
      changed := VisitAll();
      ghost var v, w := Current()[..], Other()[..];
      SettledNext(g, w, converged.Bits(), round);
      slot := !slot;
      round := round + 1;
      assert Current()[..] == w && Other()[..] == v;
    }

    /** The first loop: rounds until the number of changing vertices stops falling. */
    method PropagateUntilSteady()
      requires Valid()
      modifies `slot, `round, hashes0, hashes1, converged.vec
      ensures Valid() && round >= old(round) + 2
      ensures Changes(g, round - 1) == Changes(g, round - 2)
    {
      var numChanged: int := -1;
      while true
        invariant Valid() && round >= old(round)
        invariant numChanged == -1 || (round > old(round) && numChanged == Changes(g, round - 1))
        decreases if numChanged == -1 then |own| + 1 else numChanged
      {
        var n := NextRound(numChanged);
        if n == numChanged {
          break;
        }
        numChanged := n;
      }
    }

    /** One more round; no more vertices change than in the one before, if there was one. */
    method NextRound(ghost numChanged: int) returns (n: nat)
      requires Valid() && (numChanged == -1 || (round > 0 && numChanged == Changes(g, round - 1)))
      modifies `slot, `round, hashes0, hashes1, converged.vec
      ensures Valid() && round == old(round) + 1 && n == Changes(g, old(round)) <= |own|
      ensures numChanged != -1 ==> n <= numChanged
    {
      ghost var before := round;
      n := Propagate();
      if numChanged != -1 {
        ChangesFall(g, before - 1);
      }
    }

    method PropagateTen()
      requires Valid()
      modifies `slot, `round, hashes0, hashes1, converged.vec
      ensures Valid() && round == old(round) + 10
    {
      for i := 0 to 10
        invariant Valid() && round == old(round) + i
      {
        var _ := Propagate();
      }
    }

    /** Both loops of icf_sections: afterwards no later round would change the partition. */
    method Run(leq: (Digest, Digest) -> bool)
      requires Valid() && TotalOrder(leq)
      modifies `slot, `round, hashes0, hashes1, converged.vec
      ensures Valid() && Stable(g, round)
    {
      PropagateUntilSteady();
      var numClasses: int := -1;
      while true
        invariant Valid()
        invariant numClasses == -1 || numClasses == Boundaries(Elements(Row(g, round)))
        decreases |own| - numClasses
      {
        ghost var before := round;
        PropagateTen();
        var n := CountNumClasses(Current()[..], leq);
        CountsRise(g, before, round);
        if n == numClasses {
          break;
        }
        numClasses := n;
      }
    }
  }

  lemma RowElements(g: Graph, n: nat)
    requires Closed(g)
    ensures Elements(Row(g, n)) == Classes(g, n, |g.succ|)
  {
    forall d | d in Row(g, n) ensures d in Classes(g, n, |g.succ|) {
      var i :| 0 <= i < |g.succ| && Row(g, n)[i] == d;
    }
    forall d | d in Classes(g, n, |g.succ|) ensures d in Row(g, n) {
      var i :| 0 <= i < |g.succ| && D(g, n, i) == d;
      assert Row(g, n)[i] == d;
    }
  }

  /** What the second loop needs of its counts: they rise to a bound, and a repetition means stability. */
  lemma CountsRise(g: Graph, n: nat, m: nat)
    requires Closed(g) && n < m
    ensures Boundaries(Elements(Row(g, n))) <= Boundaries(Elements(Row(g, m))) <= |g.succ|
    ensures Boundaries(Elements(Row(g, n))) == Boundaries(Elements(Row(g, m))) ==> Stable(g, m)
  {
    RowElements(g, n);
    RowElements(g, m);
    CountDecides(g, n, m, |g.succ|);
    if |g.succ| > 0 {
      assert Row(g, n)[0] in Elements(Row(g, n));
      assert Row(g, m)[0] in Elements(Row(g, m));
    }
    if |Classes(g, n, |g.succ|)| == |Classes(g, m, |g.succ|)| {
      StopRule(g, n, m);
      StableForever(g, n, m, 0, 0);
    }
  }

  // ---- count_num_classes

  ghost predicate TotalOrder<T(!new)>(leq: (T, T) -> bool) {
    (forall a, b :: leq(a, b) || leq(b, a)) &&
    (forall a, b :: leq(a, b) && leq(b, a) ==> a == b) &&
    (forall a, b, c :: leq(a, b) && leq(b, c) ==> leq(a, c))
  }

  ghost predicate Sorted<T(!new)>(v: seq<T>, leq: (T, T) -> bool) {
    forall i, j :: 0 <= i < j < |v| ==> leq(v[i], v[j])
  }

  function Elements<T>(v: seq<T>): set<T> {
    set x | x in v
  }

  /** The boundaries between n adjacent runs: one less than the runs, except that there is no run at all. */
  function Boundaries<T>(classes: set<T>): nat {
    if classes == {} then 0 else |classes| - 1
  }

  lemma SortedInsert<T(!new)>(r: seq<T>, k: nat, x: T, leq: (T, T) -> bool)
    requires TotalOrder(leq) && Sorted(r, leq) && k <= |r|
    requires forall j :: k <= j < |r| ==> leq(x, r[j])
    requires k > 0 ==> leq(r[k - 1], x)
    ensures Sorted(r[..k] + [x] + r[k..], leq)
    ensures Elements(r[..k] + [x] + r[k..]) == Elements(r) + {x}
  {
    var s := r[..k] + [x] + r[k..];
    forall i, j | 0 <= i < j < |s| ensures leq(s[i], s[j]) {
      assert i < k ==> leq(r[i], x) by {
        assert i < k - 1 ==> leq(r[i], r[k - 1]);
      }
    }
    assert r == r[..k] + r[k..];
    assert forall y :: y in s <==> y in r[..k] || y == x || y in r[k..];
    assert forall y :: y in r <==> y in r[..k] || y in r[k..];
  }

  /** Stands for the library sort. */
  method Sort<T(==, !new)>(v: seq<T>, leq: (T, T) -> bool) returns (r: seq<T>)
    requires TotalOrder(leq)
    ensures Sorted(r, leq) && |r| == |v| && Elements(r) == Elements(v)
  {
    r := [];
    for i := 0 to |v|
      invariant |r| == i && Sorted(r, leq) && Elements(r) == Elements(v[..i])
    {
      var k := i;
      while k > 0 && !leq(r[k - 1], v[i])
        invariant 0 <= k <= i
        invariant forall j :: k <= j < i ==> leq(v[i], r[j])
      {
        k := k - 1;
      }
      assert Elements(v[..i + 1]) == Elements(v[..i]) + {v[i]};
      SortedInsert(r, k, v[i], leq);
      r := r[..k] + [v[i]] + r[k..];
    }
    assert v[..|v|] == v;
  }

  method CountNumClasses<T(==, !new)>(digests: seq<T>, leq: (T, T) -> bool) returns (n: nat)
    requires TotalOrder(leq)
    ensures n == Boundaries(Elements(digests))
  {
    var vec := Sort(digests, leq);
    n := 0;
    if |vec| == 0 {
      assert Elements(vec) == {};
      return;
    }
    assert Elements(vec[..1]) == {vec[0]};
    for i := 0 to |vec| - 1
      invariant n == |Elements(vec[..i + 1])| - 1
    {
      assert Elements(vec[..i + 2]) == Elements(vec[..i + 1]) + {vec[i + 1]};
      assert vec[i + 1] in vec[..i + 1] <==> vec[i] == vec[i + 1] by {
        assert vec[..i + 1][i] == vec[i];
      }
      if vec[i] != vec[i + 1] {
        n := n + 1;
      }
    }
    assert vec[..|vec|] == vec;
    assert vec[0] in Elements(vec);
  }
}
