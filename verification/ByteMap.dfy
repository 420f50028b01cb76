/**
 Deleting byte ranges from a section (elf/arch-riscv.cc: what shrink_section, the symbol fixing of
 riscv_resize_sections and copy_contents_riscv assume about each other).
 */
module ByteMap {
  /** At a relocation's offset a number of bytes, possibly none, is deleted. */
  datatype Cut = Cut(offset: nat, removed: nat)

  /** Relocations are sorted, and actual deletions do not overlap and stay inside the section. */
  ghost predicate Disjoint(cuts: seq<Cut>, size: nat) {
    (forall i, j :: 0 <= i < j < |cuts| ==> cuts[i].offset <= cuts[j].offset) &&
    (forall i, j :: 0 <= i < j < |cuts| && cuts[i].removed > 0 && cuts[j].removed > 0 ==>
       cuts[i].offset + cuts[i].removed <= cuts[j].offset) &&
    (forall i :: 0 <= i < |cuts| && cuts[i].removed > 0 ==> cuts[i].offset + cuts[i].removed <= size)
  }

  predicate Inside(c: Cut, p: int) {
    c.offset <= p < c.offset + c.removed
  }

  ghost predicate Deleted(cuts: seq<Cut>, p: int) {
    exists i :: 0 <= i < |cuts| && Inside(cuts[i], p)
  }

  /** The number of deleted bytes below position p. */
  ghost function Before(cuts: seq<Cut>, p: nat): (n: nat)
    ensures n <= p
  {
    if p == 0 then 0 else Before(cuts, p - 1) + if Deleted(cuts, p - 1) then 1 else 0
  }

  ghost function NewPos(cuts: seq<Cut>, p: nat): nat {
    p - Before(cuts, p)
  }

  /** What is left of the first p bytes. */
  ghost function Kept<T>(cuts: seq<Cut>, contents: seq<T>, p: nat): (r: seq<T>)
    requires p <= |contents|
    ensures |r| == NewPos(cuts, p)
  {
    if p == 0 then []
    else Kept(cuts, contents, p - 1) + if Deleted(cuts, p - 1) then [] else [contents[p - 1]]
  }

  /** A kept byte is found at its new position. */
  lemma {:induction false} KeptAt<T>(cuts: seq<Cut>, contents: seq<T>, p: nat, q: nat)
    requires p < q <= |contents| && !Deleted(cuts, p)
    ensures NewPos(cuts, p) < NewPos(cuts, q)
    ensures Kept(cuts, contents, q)[NewPos(cuts, p)] == contents[p]
    decreases q
  {
    if p < q - 1 {
      KeptAt(cuts, contents, p, q - 1);
    }
  }

  lemma {:induction false} KeptPrefix<T>(cuts: seq<Cut>, contents: seq<T>, p: nat, q: nat)
    requires p <= q <= |contents|
    ensures Kept(cuts, contents, p) <= Kept(cuts, contents, q)
    decreases q
  {
    if p < q {
      KeptPrefix(cuts, contents, p, q - 1);
    }
  }

  /** The bytes from p to q are found in one piece at their new position. */
  ghost predicate PieceKept<T>(cuts: seq<Cut>, contents: seq<T>, p: int, q: int) {
    0 <= p <= q <= |contents| &&
    NewPos(cuts, q) == NewPos(cuts, p) + (q - p) <= NewPos(cuts, |contents|) &&
    Kept(cuts, contents, |contents|)[NewPos(cuts, p)..NewPos(cuts, q)] == contents[p..q]
  }

  lemma KeptPiece<T>(cuts: seq<Cut>, contents: seq<T>, p: nat, q: nat)
    requires p <= q <= |contents| && forall x :: p <= x < q ==> !Deleted(cuts, x)
    ensures PieceKept(cuts, contents, p, q)
  {
    KeptRun(cuts, contents, p, q);
    KeptPrefix(cuts, contents, q, |contents|);
    assert |Kept(cuts, contents, q)| == |Kept(cuts, contents, p)| + (q - p);
  }

  /** A relocation that removes nothing keeps the bytes it is about in one piece. */
  lemma UntouchedPiece<T>(cuts: seq<Cut>, contents: seq<T>, i: nat, p: int, q: int)
    requires OnlyTouchedBy(cuts, i, p, q) && cuts[i].removed == 0 && q <= |contents|
    ensures PieceKept(cuts, contents, p, q)
  {
    forall x, j | p <= x < q && 0 <= j < |cuts| ensures !Inside(cuts[j], x) {
    }
    KeptPiece(cuts, contents, p, q);
  }

  lemma {:induction false} Monotone(cuts: seq<Cut>, p: nat, q: nat)
    requires p <= q
    ensures 0 <= Before(cuts, q) - Before(cuts, p) <= q - p
    decreases q
  {
    if p < q {
      Monotone(cuts, p, q - 1);
    }
  }

  /** A kept byte outside of a range of positions stays outside of it. */
  lemma KeptOutside(cuts: seq<Cut>, p: nat, a: nat, b: nat)
    requires a <= b && !Deleted(cuts, p) && !(a <= p < b)
    ensures !(NewPos(cuts, a) <= NewPos(cuts, p) < NewPos(cuts, b))
  {
    if p < a {
      Monotone(cuts, p + 1, a);
    } else {
      Monotone(cuts, b, p);
    }
  }

  lemma {:induction false} KeptRun<T>(cuts: seq<Cut>, contents: seq<T>, p: nat, q: nat)
    requires p <= q <= |contents| && forall x :: p <= x < q ==> !Deleted(cuts, x)
    ensures Kept(cuts, contents, q) == Kept(cuts, contents, p) + contents[p..q]
    decreases q
  {
    if p < q {
      KeptRun(cuts, contents, p, q - 1);
      assert contents[p..q] == contents[p..q - 1] + [contents[q - 1]];
    } else {
      assert contents[p..q] == [];
    }
  }

  lemma {:induction false} DeletedRun<T>(cuts: seq<Cut>, contents: seq<T>, p: nat, q: nat)
    requires p <= q <= |contents| && forall x :: p <= x < q ==> Deleted(cuts, x)
    ensures Kept(cuts, contents, q) == Kept(cuts, contents, p)
    decreases q
  {
    if p < q {
      DeletedRun(cuts, contents, p, q - 1);
    }
  }

  // ---- running totals

  /** The total deleted by the first k relocations: r_deltas[k]. */
  ghost function Total(cuts: seq<Cut>, k: nat): nat
    requires k <= |cuts|
  {
    if k == 0 then 0 else Total(cuts, k - 1) + cuts[k - 1].removed
  }

  ghost function Clamp(c: Cut, p: nat): nat {
    if p <= c.offset then 0 else if p - c.offset < c.removed then p - c.offset else c.removed
  }

  ghost function ClampTotal(cuts: seq<Cut>, k: nat, p: nat): nat
    requires k <= |cuts|
  {
    if k == 0 then 0 else ClampTotal(cuts, k - 1, p) + Clamp(cuts[k - 1], p)
  }

  lemma {:induction false} ClampStep(cuts: seq<Cut>, size: nat, k: nat, p: nat)
    requires Disjoint(cuts, size) && k <= |cuts|
    ensures ClampTotal(cuts, k, p + 1) == ClampTotal(cuts, k, p) +
              if exists i :: 0 <= i < k && Inside(cuts[i], p) then 1 else 0
  {
    if k > 0 {
      ClampStep(cuts, size, k - 1, p);
      if Inside(cuts[k - 1], p) {
        assert forall i :: 0 <= i < k - 1 ==> !Inside(cuts[i], p);
      }
    }
  }

  lemma {:induction false} ClampZero(cuts: seq<Cut>, k: nat)
    requires k <= |cuts|
    ensures ClampTotal(cuts, k, 0) == 0
  {
    if k > 0 {
      ClampZero(cuts, k - 1);
    }
  }

  lemma {:induction false} BeforeIsClamped(cuts: seq<Cut>, size: nat, p: nat)
    requires Disjoint(cuts, size)
    ensures Before(cuts, p) == ClampTotal(cuts, |cuts|, p)
  {
    if p == 0 {
      ClampZero(cuts, |cuts|);
    } else {
      BeforeIsClamped(cuts, size, p - 1);
      ClampStep(cuts, size, |cuts|, p - 1);
    }
  }

  /** The first k cuts counted in full, the others not at all: off by what position p is inside of. */
  lemma {:induction false} ClampAgainstTotal(cuts: seq<Cut>, k: nat, n: nat, p: nat)
    requires k <= n <= |cuts| && forall j :: k <= j < n && cuts[j].removed > 0 ==> cuts[j].offset >= p
    requires forall j :: 0 <= j < k && cuts[j].removed > 0 ==> cuts[j].offset < p
    ensures ClampTotal(cuts, n, p) <= Total(cuts, k)
    ensures ClampTotal(cuts, n, p) == Total(cuts, k) <==>
            forall j :: 0 <= j < k ==> cuts[j].removed == 0 || cuts[j].offset + cuts[j].removed <= p
    decreases n
  {
    if k < n {
      ClampAgainstTotal(cuts, k, n - 1, p);
    } else if n > 0 {
      ClampAgainstTotal(cuts, k - 1, n - 1, p);
    }
  }

  /** Position p lies strictly inside a deleted range. */
  ghost predicate StrictlyInside(cuts: seq<Cut>, p: nat) {
    exists i :: 0 <= i < |cuts| && cuts[i].offset < p < cuts[i].offset + cuts[i].removed
  }

  /** What std::lower_bound finds: the number of relocations with a smaller offset. */
  ghost predicate IsLowerBound(cuts: seq<Cut>, p: nat, k: nat) {
    k <= |cuts| && (forall j :: 0 <= j < k ==> cuts[j].offset < p) &&
    (forall j :: k <= j < |cuts| ==> cuts[j].offset >= p)
  }

  /**
   Subtracting the running total at the lower bound moves a symbol to its byte's new position, or to
   the first byte kept after a deletion that starts there, exactly when it is not strictly inside
   a deleted range.
   */
  lemma LowerBoundAdjusts(cuts: seq<Cut>, size: nat, p: nat, k: nat)
    requires Disjoint(cuts, size) && IsLowerBound(cuts, p, k)
    ensures Before(cuts, p) <= Total(cuts, k)
    ensures p - Total(cuts, k) == NewPos(cuts, p) <==> !StrictlyInside(cuts, p)
  {
    BeforeIsClamped(cuts, size, p);
    ClampAgainstTotal(cuts, k, |cuts|, p);
  }

  lemma TotalIsBefore(cuts: seq<Cut>, size: nat, k: nat, p: nat)
    requires Disjoint(cuts, size) && k <= |cuts|
    requires forall j :: 0 <= j < k && cuts[j].removed > 0 ==> cuts[j].offset + cuts[j].removed <= p
    requires forall j :: k <= j < |cuts| && cuts[j].removed > 0 ==> cuts[j].offset >= p
    ensures Total(cuts, k) == Before(cuts, p)
  {
    BeforeIsClamped(cuts, size, p);
    ClampAgainstTotal(cuts, k, |cuts|, p);
  }

  /** Around the bytes p to q, which only the deletion at i touches. */
  ghost predicate OnlyTouchedBy(cuts: seq<Cut>, i: nat, p: int, q: int) {
    i < |cuts| && 0 <= p <= q &&
    (forall j :: 0 <= j < i && cuts[j].removed > 0 ==> cuts[j].offset + cuts[j].removed <= p) &&
    (forall j :: i < j < |cuts| && cuts[j].removed > 0 ==> cuts[j].offset >= q) &&
    (cuts[i].removed > 0 ==> cuts[i].offset == p && p + cuts[i].removed <= q)
  }

  ghost predicate TotalsAt(cuts: seq<Cut>, i: nat, p: int, q: int) {
    i < |cuts| && 0 <= p <= q && Total(cuts, i) == Before(cuts, p) && Total(cuts, i + 1) == Before(cuts, q)
  }

  lemma TotalsAround(cuts: seq<Cut>, size: nat, i: nat, p: nat, q: nat)
    requires Disjoint(cuts, size) && OnlyTouchedBy(cuts, i, p, q)
    ensures TotalsAt(cuts, i, p, q)
  {
    TotalIsBefore(cuts, size, i, p);
    TotalIsBefore(cuts, size, i + 1, q);
  }

  lemma TotalsEverywhere(cuts: seq<Cut>, size: nat)
    requires Disjoint(cuts, size)
    ensures forall i: nat, p: int, q: int :: OnlyTouchedBy(cuts, i, p, q) ==> TotalsAt(cuts, i, p, q)
  {
    forall i: nat, p: int, q: int | OnlyTouchedBy(cuts, i, p, q) ensures TotalsAt(cuts, i, p, q) {
      TotalsAround(cuts, size, i, p, q);
    }
  }

  /** The running total at a deleting relocation is the number of bytes deleted below it. */
  lemma TotalAtCut(cuts: seq<Cut>, size: nat, i: nat)
    requires Disjoint(cuts, size) && i < |cuts| && cuts[i].removed > 0
    ensures Total(cuts, i) == Before(cuts, cuts[i].offset)
    ensures Total(cuts, i + 1) == Before(cuts, cuts[i].offset + cuts[i].removed)
  {
    TotalIsBefore(cuts, size, i, cuts[i].offset);
    TotalIsBefore(cuts, size, i + 1, cuts[i].offset + cuts[i].removed);
  }
}
