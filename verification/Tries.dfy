/**
 Sets of strings closed under prefixes, and the longest suffixes the Aho-Corasick automaton of
 common/multi-glob.cc keeps track of.
 */
module Tries {
  import opened Bits

  type Path = seq<byte>

  predicate IsSuffix(q: Path, p: Path) {
    |q| <= |p| && p[|p| - |q|..] == q
  }

  function Parent(p: Path): Path
    requires p != []
  {
    p[..|p| - 1]
  }

  function Last(p: Path): byte
    requires p != []
  {
    p[|p| - 1]
  }

  ghost predicate PrefixClosed(trie: set<Path>) {
    [] in trie && forall p {:trigger Parent(p)} :: p in trie && p != [] ==> Parent(p) in trie
  }

  /** q is the longest suffix of p in the trie that is shorter than `bound`. */
  ghost predicate LongestBelow(trie: set<Path>, p: Path, bound: int, q: Path) {
    q in trie && IsSuffix(q, p) && |q| < bound &&
    forall r :: r in trie && IsSuffix(r, p) && |r| < bound ==> |r| <= |q|
  }

  /** The node a suffix link must point to: the longest proper suffix in the trie. */
  ghost predicate IsLink(trie: set<Path>, p: Path, q: Path) {
    LongestBelow(trie, p, |p|, q)
  }

  /** Where the automaton must be after reading p. */
  ghost predicate IsState(trie: set<Path>, p: Path, q: Path) {
    LongestBelow(trie, p, |p| + 1, q)
  }

  lemma SuffixOfSuffix(r: Path, q: Path, p: Path)
    requires IsSuffix(q, p) && |r| <= |q|
    ensures IsSuffix(r, p) <==> IsSuffix(r, q)
  {
    assert p[|p| - |q|..][|q| - |r|..] == p[|p| - |r|..];
  }

  lemma Snoc(r: Path)
    ensures r != [] ==> r == Parent(r) + [Last(r)]
  {
  }

  lemma SuffixSnoc(r: Path, p: Path, c: byte)
    ensures IsSuffix(r, p + [c]) <==> r == [] || (Last(r) == c && IsSuffix(Parent(r), p))
  {
    if r != [] && |r| <= |p| + 1 {
      var t := (p + [c])[|p| + 1 - |r|..];
      assert t == p[|p| + 1 - |r|..] + [c];
      assert r == Parent(r) + [Last(r)];
      if t == r {
        assert Parent(r) == Parent(t) == p[|p| - |Parent(r)|..];
      }
    }
  }

  /** A search state: q is a suffix of p in the trie, and every longer one has no c after it. */
  ghost predicate Searching(trie: set<Path>, p: Path, bound: int, c: byte, q: Path) {
    q in trie && IsSuffix(q, p) && |q| < bound &&
    forall r :: r in trie && IsSuffix(r, p) && |r| < bound && |r| > |q| ==> r + [c] !in trie
  }

  /** Following a link keeps the search going. */
  lemma SearchFollows(trie: set<Path>, p: Path, bound: int, c: byte, q: Path, link: Path)
    requires Searching(trie, p, bound, c, q) && q + [c] !in trie && IsLink(trie, q, link)
    ensures Searching(trie, p, bound, c, link)
  {
    SuffixOfSuffix(link, q, p);
    forall r | r in trie && IsSuffix(r, p) && |r| < bound && |r| > |link| ensures r + [c] !in trie {
      if |r| <= |q| {
        SuffixOfSuffix(r, q, p);
        if |r| == |q| {
          assert r == q;
        }
      }
    }
  }

  /** The search ends at the first extendable suffix. */
  lemma SearchSucceeds(trie: set<Path>, p: Path, bound: int, c: byte, q: Path)
    requires PrefixClosed(trie) && Searching(trie, p, bound, c, q) && q + [c] in trie
    ensures LongestBelow(trie, p + [c], bound + 1, q + [c])
  {
    SuffixSnoc(q + [c], p, c);
    assert Parent(q + [c]) == q;
    forall r | r in trie && IsSuffix(r, p + [c]) && |r| < bound + 1 ensures |r| <= |q + [c]| {
      SuffixSnoc(r, p, c);
      if r != [] {
        assert r == Parent(r) + [c];
      }
    }
  }

  /** At the root with no child the answer is the root. */
  lemma SearchFails(trie: set<Path>, p: Path, bound: int, c: byte)
    requires PrefixClosed(trie) && Searching(trie, p, bound, c, []) && [] + [c] !in trie
    ensures LongestBelow(trie, p + [c], bound + 1, [])
  {
    SuffixSnoc([], p, c);
    forall r | r in trie && IsSuffix(r, p + [c]) && |r| < bound + 1 ensures r == [] {
      SuffixSnoc(r, p, c);
      Snoc(r);
    }
  }

  // ---- breadth-first traversal

  /** `order` lists the nodes in the order they were queued; those before `head` have been processed. */
  ghost predicate Queue(trie: set<Path>, order: seq<Path>, head: nat) {
    |order| > 0 && order[0] == [] && head <= |order| &&
    (forall i :: 0 <= i < |order| ==> order[i] in trie) &&
    (forall i, j :: 0 <= i < j < |order| ==> order[i] != order[j] && |order[i]| <= |order[j]|) &&
    (head < |order| ==> forall i :: 0 <= i < |order| ==> |order[i]| <= |order[head]| + 1)
  }

  /** A node has been queued if its parent was processed, or is being processed and has got past it. */
  ghost predicate Visited(done: seq<Path>, cur: Path, c: int, p: Path)
    requires p != []
  {
    Parent(p) in done || (Parent(p) == cur && Last(p) as int < c)
  }

  ghost predicate Covered(trie: set<Path>, order: seq<Path>, done: seq<Path>, cur: Path, c: int) {
    forall p :: p in trie && p != [] ==> (p in order <==> Visited(done, cur, c, p))
  }

  /** The traversal is at the children, from byte c on, of the node at `head`. */
  ghost predicate Bfs(trie: set<Path>, order: seq<Path>, head: nat, c: int) {
    Queue(trie, order, head) &&
    if head < |order| then Covered(trie, order, order[..head], order[head], c)
    else Covered(trie, order, order, [], 0)
  }

  /** Everything as deep as the node being processed has been queued. */
  lemma {:induction false} ShallowIsQueued(trie: set<Path>, order: seq<Path>, head: nat, c: int, p: Path)
    requires PrefixClosed(trie) && Bfs(trie, order, head, c) && head < |order|
    requires p in trie && |p| <= |order[head]|
    ensures p in order
    decreases |p|
  {
    if p != [] {
      ShallowIsQueued(trie, order, head, c, Parent(p));
      var i :| 0 <= i < |order| && order[i] == Parent(p);
      if i < head {
        assert order[..head][i] == Parent(p);
      }
    }
  }

  /** At the end every node has been queued. */
  lemma {:induction false} AllQueued(trie: set<Path>, order: seq<Path>, p: Path)
    requires PrefixClosed(trie) && Bfs(trie, order, |order|, 0) && p in trie
    ensures p in order
    decreases |p|
  {
    if p != [] {
      AllQueued(trie, order, Parent(p));
      assert order[..|order|] == order;
    }
  }

  /** Looking at one more byte, with or without a child. */
  lemma BfsByte(trie: set<Path>, order: seq<Path>, head: nat, c: byte)
    requires PrefixClosed(trie) && Bfs(trie, order, head, c as int) && head < |order|
    ensures order[head] + [c] in trie ==>
              order[head] + [c] !in order && Bfs(trie, order + [order[head] + [c]], head, c as int + 1)
    ensures order[head] + [c] !in trie ==> Bfs(trie, order, head, c as int + 1)
  {
    var cur, done := order[head], order[..head];
    var child := cur + [c];
    assert cur !in done;
    ChildVisited(trie, order, done, cur, c);
    if child in trie {
      assert (order + [child])[..head] == done;
    }
  }

  lemma ChildVisited(trie: set<Path>, order: seq<Path>, done: seq<Path>, cur: Path, c: byte)
    requires Covered(trie, order, done, cur, c as int) && cur !in done
    ensures cur + [c] in trie ==>
              cur + [c] !in order && Covered(trie, order + [cur + [c]], done, cur, c as int + 1)
    ensures cur + [c] !in trie ==> Covered(trie, order, done, cur, c as int + 1)
  {
    var child := cur + [c];
    assert Parent(child) == cur && Last(child) == c;
    forall p | p in trie && p != []
      ensures Visited(done, cur, c as int + 1, p) <==> Visited(done, cur, c as int, p) || p == child
    {
      if Parent(p) == cur && Last(p) == c {
        assert p == Parent(p) + [Last(p)];
      }
    }
  }

  lemma CoveredNext(trie: set<Path>, order: seq<Path>, done: seq<Path>, cur: Path, next: Path)
    requires Covered(trie, order, done, cur, 256)
    ensures Covered(trie, order, done + [cur], next, 0)
  {
    forall p | p in trie && p != [] ensures p in order <==> Visited(done + [cur], next, 0, p) {
      assert Visited(done, cur, 256, p) <==> Parent(p) in done || Parent(p) == cur;
    }
  }

  /** Taking the next node from the queue. */
  lemma {:induction false} BfsNext(trie: set<Path>, order: seq<Path>, head: nat)
    requires PrefixClosed(trie) && Bfs(trie, order, head, 256) && head < |order|
    ensures Bfs(trie, order, head + 1, 0)
  {
    var cur, done := order[head], order[..head];
    assert order[..head + 1] == done + [cur];
    if head + 1 < |order| {
      CoveredNext(trie, order, done, cur, order[head + 1]);
    } else {
      assert order[..head + 1] == order;
      CoveredNext(trie, order, done, cur, []);
    }
  }

  lemma BfsStart(trie: set<Path>)
    requires PrefixClosed(trie)
    ensures Bfs(trie, [[]], 0, 0)
  {
  }

  lemma {:induction false} OrderFits(trie: set<Path>, order: seq<Path>)
    requires forall i :: 0 <= i < |order| ==> order[i] in trie
    requires forall i, j :: 0 <= i < j < |order| ==> order[i] != order[j]
    ensures |order| <= |trie|
    decreases |order|
  {
    if order != [] {
      var last := order[|order| - 1];
      OrderFits(trie - {last}, order[..|order| - 1]);
    }
  }
}
