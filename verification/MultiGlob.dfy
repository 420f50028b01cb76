/**
 The Aho-Corasick automaton of common/multi-glob.cc: many glob patterns at once.
 */
module MultiGlobs {
  import opened Bits
  import opened Wrappers
  import opened Globs
  import opened Tries

  const NO_VALUE: nat := 0xffff_ffff

  // ---- patterns

  predicate StartsWithStar(pat: Path) {
    pat != [] && pat[0] == CHAR_STAR
  }

  predicate EndsWithStar(pat: Path) {
    pat != [] && pat[|pat| - 1] == CHAR_STAR
  }

  predicate Ordinary(c: byte) {
    c != CHAR_STAR && c != CHAR_QUESTION && c != CHAR_OPEN
  }

  /** What is left of a pattern without a star at either end. */
  function Core(pat: Path): Path {
    var p := if StartsWithStar(pat) then pat[1..] else pat;
    if EndsWithStar(p) then p[..|p| - 1] else p
  }

  /** The regular expression \*?[^*[?]+\*? */
  predicate IsSimple(pat: Path) {
    Core(pat) != [] && forall i :: 0 <= i < |Core(pat)| ==> Ordinary(Core(pat)[i])
  }

  /** The string to look for between zero bytes that mark the ends of the text. */
  function HandleStars(pat: Path): Path {
    if |pat| >= 2 && StartsWithStar(pat) && EndsWithStar(pat) then pat[1..|pat| - 1]
    else if StartsWithStar(pat) then pat[1..] + [0]
    else if EndsWithStar(pat) then [0] + pat[..|pat| - 1]
    else [0] + pat + [0]
  }

  /** A core with a zero byte on each side that has no star. */
  function MarkedWord(front: bool, core: Path, back: bool): Path {
    (if front then [] else [0]) + core + (if back then [] else [0])
  }

  lemma SimpleWord(pat: Path)
    requires IsSimple(pat)
    ensures HandleStars(pat) == MarkedWord(StartsWithStar(pat), Core(pat), EndsWithStar(pat))
    ensures HandleStars(pat) != []
  {
    if StartsWithStar(pat) {
      assert pat[1..] != [] && pat[1..][|pat[1..]| - 1] == pat[|pat| - 1];
    }
  }

  type Entries = seq<(Path, nat)>

  /** m is the least value among the selected patterns, or NO_VALUE if there is none. */
  ghost predicate Best(added: Entries, sel: Path -> bool, m: nat) {
    m <= NO_VALUE &&
    (m < NO_VALUE ==> exists i :: 0 <= i < |added| && sel(added[i].0) && added[i].1 == m) &&
    (forall i :: 0 <= i < |added| && sel(added[i].0) ==> m <= added[i].1)
  }

  function Min(a: nat, b: nat): nat {
    if b < a then b else a
  }

  lemma BestOfTwo(added: Entries, a: Path -> bool, m: nat, b: Path -> bool, n: nat, both: Path -> bool)
    requires Best(added, a, m) && Best(added, b, n)
    requires forall i :: 0 <= i < |added| ==> (both(added[i].0) <==> a(added[i].0) || b(added[i].0))
    ensures Best(added, both, Min(m, n))
  {
  }

  lemma BestSnoc(added: Entries, sel: Path -> bool, m: nat, pat: Path, val: nat)
    requires Best(added, sel, m) && val <= NO_VALUE
    ensures Best(added + [(pat, val)], sel, if sel(pat) then Min(m, val) else m)
  {
    var more := added + [(pat, val)];
    assert forall i :: 0 <= i < |added| ==> more[i] == added[i];
    assert more[|added|] == (pat, val);
    var n := if sel(pat) then Min(m, val) else m;
    if n < NO_VALUE && !(sel(pat) && n == val) {
      var i :| 0 <= i < |added| && sel(added[i].0) && added[i].1 == m;
      assert sel(more[i].0);
    }
  }

  ghost function WordIs(p: Path): Path -> bool {
    pat => IsSimple(pat) && HandleStars(pat) == p
  }

  ghost function WordEnds(p: Path): Path -> bool {
    pat => IsSimple(pat) && IsSuffix(HandleStars(pat), p)
  }

  ghost predicate Occurs(w: Path, t: Path) {
    exists k :: 0 <= k <= |t| && IsSuffix(w, t[..k])
  }

  ghost function WordOccurs(t: Path): Path -> bool {
    pat => IsSimple(pat) && Occurs(HandleStars(pat), t)
  }

  /** The verdict of the glob matcher on a pattern. */
  ghost predicate IsGlobMatch(str: Path, pat: Path) {
    Parse(pat, []).Some? && GlobHit(Parse(pat, []).value, str)
  }

  ghost predicate GlobHit(els: seq<Element>, str: Path) {
    AllValid(Effective(els)) && Denotes(Effective(els), str)
  }

  ghost function GlobMatches(str: Path): Path -> bool {
    pat => !IsSimple(pat) && IsGlobMatch(str, pat)
  }

  /** What find looks for: the marked word in the marked text, or the glob matcher's verdict. */
  ghost predicate IsHit(str: Path, pat: Path) {
    if IsSimple(pat) then Occurs(HandleStars(pat), Marked(str)) else IsGlobMatch(str, pat)
  }

  ghost function Hits(str: Path): Path -> bool {
    pat => IsHit(str, pat)
  }

  function Marked(str: Path): Path {
    [0] + str + [0]
  }

  // ---- the trie

  datatype TrieNode = TrieNode(value: nat, suffixLink: Option<nat>, children: map<byte, nat>)

  ghost function PathSet(paths: seq<Path>): set<Path> {
    set p | p in paths
  }

  /** Node i stands for paths[i]; children and nodes correspond one to one. */
  ghost predicate TrieOk(nodes: seq<TrieNode>, paths: seq<Path>) {
    |nodes| == |paths| &&
    (|paths| > 0 ==> paths[0] == [] && PrefixClosed(PathSet(paths))) &&
    (forall i, j :: 0 <= i < j < |paths| ==> paths[i] != paths[j]) &&
    (forall i, c :: 0 <= i < |nodes| && c in nodes[i].children ==>
       0 < nodes[i].children[c] < |nodes| && paths[nodes[i].children[c]] == paths[i] + [c]) &&
    (forall i, c :: 0 <= i < |nodes| && paths[i] + [c] in PathSet(paths) ==> c in nodes[i].children)
  }

  /** The words of all simple patterns are in the trie; values are 32-bit; globs compile. */
  ghost predicate EntriesOk(added: Entries, trie: set<Path>) {
    forall i :: 0 <= i < |added| ==>
      added[i].1 <= NO_VALUE &&
      if IsSimple(added[i].0) then HandleStars(added[i].0) in trie
      else Parse(added[i].0, []).Some?
  }

  /** The value of node i is the least one among the patterns its path selects. */
  ghost predicate ValueOk(nodes: seq<TrieNode>, paths: seq<Path>, added: Entries, ends: bool, i: nat)
    requires i < |nodes| == |paths|
  {
    Best(added, if ends then WordEnds(paths[i]) else WordIs(paths[i]), nodes[i].value)
  }

  ghost predicate ValuesAre(nodes: seq<TrieNode>, paths: seq<Path>, added: Entries, ends: bool) {
    |nodes| == |paths| && forall i: nat :: i < |nodes| ==> ValueOk(nodes, paths, added, ends, i)
  }

  /** The suffix link of node i. */
  ghost predicate LinkOk(nodes: seq<TrieNode>, paths: seq<Path>, i: nat)
    requires i < |nodes| == |paths|
  {
    if i == 0 then nodes[i].suffixLink == None
    else
      nodes[i].suffixLink.Some? && nodes[i].suffixLink.value < |nodes| &&
      IsLink(PathSet(paths), paths[i], paths[nodes[i].suffixLink.value])
  }

  ghost predicate LinksOk(nodes: seq<TrieNode>, paths: seq<Path>) {
    |nodes| == |paths| && forall i :: 0 <= i < |nodes| ==> LinkOk(nodes, paths, i)
  }

  ghost predicate SameShape(a: seq<TrieNode>, b: seq<TrieNode>) {
    |a| == |b| && forall i :: 0 <= i < |a| ==> a[i].children == b[i].children
  }

  ghost predicate OnlyLinksDiffer(a: seq<TrieNode>, b: seq<TrieNode>) {
    SameShape(a, b) && SameValues(a, b)
  }

  ghost predicate SameValues(a: seq<TrieNode>, b: seq<TrieNode>) {
    |a| == |b| && forall i :: 0 <= i < |a| ==> a[i].value == b[i].value
  }

  lemma ShapeKeepsTrie(a: seq<TrieNode>, b: seq<TrieNode>, paths: seq<Path>)
    requires TrieOk(a, paths) && SameShape(a, b)
    ensures TrieOk(b, paths)
  {
  }

  ghost function ComplexOf(added: Entries): seq<(seq<Element>, nat)> {
    if added == [] then []
    else
      var init, last := added[..|added| - 1], added[|added| - 1];
      ComplexOf(init) +
      if !IsSimple(last.0) && Parse(last.0, []).Some? then [(Parse(last.0, []).value, last.1)] else []
  }

  // ---- add

  /** A fresh child of node i. */
  lemma NewChild(nodes: seq<TrieNode>, paths: seq<Path>, i: nat, c: byte, nodes': seq<TrieNode>)
    requires TrieOk(nodes, paths) && i < |nodes| && c !in nodes[i].children
    requires nodes' == nodes[i := nodes[i].(children := nodes[i].children[c := |nodes|])]
                       + [TrieNode(NO_VALUE, None, map[])]
    ensures TrieOk(nodes', paths + [paths[i] + [c]])
    ensures paths[i] + [c] !in PathSet(paths)
  {
    var p := paths[i] + [c];
    var paths' := paths + [p];
    assert p !in PathSet(paths);
    assert PathSet(paths') == PathSet(paths) + {p};
    assert Parent(p) == paths[i];
    forall j, d | 0 <= j < |nodes'| && paths'[j] + [d] in PathSet(paths') ensures d in nodes'[j].children {
      var q := paths'[j] + [d];
      assert Parent(q) == paths'[j] && Last(q) == d;
      if q == p {
        assert paths'[j] == paths[i] && d == c;
        assert j == i;
      } else {
        assert Parent(q) in PathSet(paths);
        assert paths'[j] != p by {
          assert Parent(q) in PathSet(paths);
        }
      }
    }
  }

  /** A trie that is still being built: node values are those of the words that end there. */
  ghost predicate Building(nodes: seq<TrieNode>, paths: seq<Path>, added: Entries) {
    TrieOk(nodes, paths) && EntriesOk(added, PathSet(paths)) && ValuesAre(nodes, paths, added, false) &&
    forall i :: 0 <= i < |nodes| ==> nodes[i].suffixLink == None
  }

  function WithChild(nodes: seq<TrieNode>, i: nat, c: byte): seq<TrieNode>
    requires i < |nodes|
  {
    nodes[i := nodes[i].(children := nodes[i].children[c := |nodes|])] + [TrieNode(NO_VALUE, None, map[])]
  }

  lemma BuildChild(nodes: seq<TrieNode>, paths: seq<Path>, added: Entries, i: nat, c: byte)
    requires Building(nodes, paths, added) && i < |nodes| && c !in nodes[i].children
    ensures Building(WithChild(nodes, i, c), paths + [paths[i] + [c]], added)
  {
    var p := paths[i] + [c];
    NewChild(nodes, paths, i, c, WithChild(nodes, i, c));
    assert PathSet(paths + [p]) == PathSet(paths) + {p};
    forall j: nat | j < |nodes| ensures ValueOk(WithChild(nodes, i, c), paths + [p], added, false, j) {
      assert ValueOk(nodes, paths, added, false, j);
    }
  }

  function WithValue(nodes: seq<TrieNode>, i: nat, val: nat): seq<TrieNode>
    requires i < |nodes|
  {
    nodes[i := nodes[i].(value := Min(nodes[i].value, val))]
  }

  lemma BuildValue(nodes: seq<TrieNode>, paths: seq<Path>, added: Entries, node: nat, pat: Path, val: nat)
    requires Building(nodes, paths, added) && node < |nodes| && val <= NO_VALUE
    requires IsSimple(pat) && paths[node] == HandleStars(pat)
    ensures Building(WithValue(nodes, node, val), paths, added + [(pat, val)])
  {
    var more := added + [(pat, val)];
    ShapeKeepsTrie(nodes, WithValue(nodes, node, val), paths);
    assert paths[node] in paths;
    forall i: nat | i < |nodes| ensures ValueOk(WithValue(nodes, node, val), paths, more, false, i) {
      assert ValueOk(nodes, paths, added, false, i);
      BestSnoc(added, WordIs(paths[i]), nodes[i].value, pat, val);
    }
  }

  lemma BuildComplex(nodes: seq<TrieNode>, paths: seq<Path>, added: Entries, pat: Path, val: nat)
    requires Building(nodes, paths, added) && val <= NO_VALUE && !IsSimple(pat) && Parse(pat, []).Some?
    ensures Building(nodes, paths, added + [(pat, val)])
  {
    var more := added + [(pat, val)];
    forall i: nat | i < |nodes| ensures ValueOk(nodes, paths, more, false, i) {
      assert ValueOk(nodes, paths, added, false, i);
      BestSnoc(added, WordIs(paths[i]), nodes[i].value, pat, val);
    }
  }

  // ---- compile

  /** The queue of the source holds the nodes of order[from..]. */
  ghost predicate QueueIs(queue: seq<nat>, paths: seq<Path>, order: seq<Path>, from: nat) {
    |queue| + from == |order| &&
    forall k :: 0 <= k < |queue| ==> queue[k] < |paths| && paths[queue[k]] == order[from + k]
  }

  /** The suffix links of the queued nodes are right. */
  ghost predicate Linking(nodes: seq<TrieNode>, paths: seq<Path>, order: seq<Path>) {
    TrieOk(nodes, paths) && |nodes| > 0 && nodes[0].suffixLink == None &&
    forall i :: 0 < i < |nodes| && paths[i] in order ==> LinkOk(nodes, paths, i)
  }

  lemma NodeOf(nodes: seq<TrieNode>, paths: seq<Path>, i: nat)
    requires TrieOk(nodes, paths) && i < |nodes|
    ensures paths[i] in PathSet(paths) && (paths[i] == [] <==> i == 0)
  {
  }

  function WithLink(nodes: seq<TrieNode>, child: nat, link: nat): seq<TrieNode>
    requires child < |nodes|
  {
    nodes[child := nodes[child].(suffixLink := Some(link))]
  }

  lemma LinkDiffers(nodes: seq<TrieNode>, child: nat, link: nat)
    requires child < |nodes|
    ensures OnlyLinksDiffer(WithLink(nodes, child, link), nodes)
  {
  }

  lemma LinkStep(nodes: seq<TrieNode>, paths: seq<Path>, order: seq<Path>, child: nat, link: nat)
    requires Linking(nodes, paths, order) && 0 < child < |nodes| && link < |nodes|
    requires IsLink(PathSet(paths), paths[child], paths[link])
    ensures Linking(WithLink(nodes, child, link), paths, order + [paths[child]])
  {
    ShapeKeepsTrie(nodes, WithLink(nodes, child, link), paths);
  }

  /** Where the walk along suffix links is: at a node still searching, or past the root. */
  ghost predicate Walking(trie: set<Path>, paths: seq<Path>, p: Path, c: byte, suffix: Option<nat>) {
    match suffix
    case Some(j) => p != [] && j < |paths| && Searching(trie, p, |p|, c, paths[j])
    case None => p == [] || (Searching(trie, p, |p|, c, []) && [] + [c] !in trie)
  }

  lemma WalkOn(nodes: seq<TrieNode>, paths: seq<Path>, order: seq<Path>, head: nat, p: Path, c: byte, j: nat)
    requires Linking(nodes, paths, order) && Bfs(PathSet(paths), order, head, c as int) && head < |order|
    requires p == order[head] && j < |nodes| && c !in nodes[j].children
    requires Walking(PathSet(paths), paths, p, c, Some(j))
    ensures Walking(PathSet(paths), paths, p, c, nodes[j].suffixLink)
    ensures nodes[j].suffixLink.Some? ==> |paths[nodes[j].suffixLink.value]| < |paths[j]|
  {
    var trie := PathSet(paths);
    NodeOf(nodes, paths, j);
    if j != 0 {
      ShallowIsQueued(trie, order, head, c as int, paths[j]);
      assert LinkOk(nodes, paths, j);
      SearchFollows(trie, p, |p|, c, paths[j], paths[nodes[j].suffixLink.value]);
    }
  }

  lemma WalkStarts(nodes: seq<TrieNode>, paths: seq<Path>, order: seq<Path>, head: nat, c: byte, cur: nat)
    requires Linking(nodes, paths, order) && Bfs(PathSet(paths), order, head, c as int) && head < |order|
    requires cur < |nodes| && paths[cur] == order[head]
    ensures Walking(PathSet(paths), paths, paths[cur], c, nodes[cur].suffixLink)
  {
    NodeOf(nodes, paths, cur);
    assert paths[cur] in order;
    assert cur != 0 ==> LinkOk(nodes, paths, cur);
  }

  lemma WalkEnds(nodes: seq<TrieNode>, paths: seq<Path>, p: Path, c: byte, suffix: Option<nat>)
    requires TrieOk(nodes, paths) && |nodes| > 0 && Walking(PathSet(paths), paths, p, c, suffix)
    requires suffix.Some? ==> c in nodes[suffix.value].children
    ensures
      var link := if suffix.Some? then nodes[suffix.value].children[c] else 0;
      link < |nodes| && IsLink(PathSet(paths), p + [c], paths[link])
  {
    if suffix.Some? {
      SearchSucceeds(PathSet(paths), p, |p|, c, paths[suffix.value]);
    } else if p != [] {
      SearchFails(PathSet(paths), p, |p|, c);
    }
  }

  /** The inner loop of fix_suffix_links: follow suffix links until a node has a child for c. */
  method SuffixFor(nodes: seq<TrieNode>, ghost paths: seq<Path>, ghost order: seq<Path>, ghost head: nat,
                   cur: nat, c: byte)
    returns (link: nat)
    requires Linking(nodes, paths, order) && Bfs(PathSet(paths), order, head, c as int) && head < |order|
    requires cur < |nodes| && paths[cur] == order[head]
    ensures link < |nodes| && IsLink(PathSet(paths), paths[cur] + [c], paths[link])
  {
    var suffix := nodes[cur].suffixLink;
    WalkStarts(nodes, paths, order, head, c, cur);
    while suffix.Some? && c !in nodes[suffix.value].children
      invariant Walking(PathSet(paths), paths, paths[cur], c, suffix)
      decreases if suffix.Some? then |paths[suffix.value]| + 1 else 0
    {
      WalkOn(nodes, paths, order, head, paths[cur], c, suffix.value);
      suffix := nodes[suffix.value].suffixLink;
    }
    WalkEnds(nodes, paths, paths[cur], c, suffix);
    link := if suffix.Some? then nodes[suffix.value].children[c] else 0;
  }

  /** The state of a traversal at the children, from byte c on, of node `cur`. */
  ghost predicate AtChildren(paths: seq<Path>, order: seq<Path>, head: nat, c: int, cur: nat, queue: seq<nat>) {
    cur < |paths| && Bfs(PathSet(paths), order, head, c) && head < |order| && paths[cur] == order[head] &&
    QueueIs(queue, paths, order, head + 1)
  }

  /** Between two nodes of a traversal. */
  ghost predicate Pending(paths: seq<Path>, order: seq<Path>, head: nat, queue: seq<nat>) {
    Bfs(PathSet(paths), order, head, 0) &&
    if queue == [] then head == |order| else AtChildren(paths, order, head, 0, queue[0], queue[1..])
  }

  lemma NextChild(nodes: seq<TrieNode>, paths: seq<Path>, order: seq<Path>, head: nat, c: byte, cur: nat,
                  queue: seq<nat>)
    requires TrieOk(nodes, paths) && AtChildren(paths, order, head, c as int, cur, queue)
    ensures c in nodes[cur].children ==>
              var child := nodes[cur].children[c];
              paths[child] == paths[cur] + [c] && paths[child] !in order &&
              AtChildren(paths, order + [paths[child]], head, c as int + 1, cur, queue + [child])
    ensures c !in nodes[cur].children ==> AtChildren(paths, order, head, c as int + 1, cur, queue)
  {
    BfsByte(PathSet(paths), order, head, c);
  }

  lemma NoMoreChildren(paths: seq<Path>, order: seq<Path>, head: nat, cur: nat, queue: seq<nat>)
    requires |paths| > 0 && PrefixClosed(PathSet(paths)) && AtChildren(paths, order, head, 256, cur, queue)
    ensures Pending(paths, order, head + 1, queue) && head < |PathSet(paths)|
  {
    BfsNext(PathSet(paths), order, head);
    OrderFits(PathSet(paths), order);
  }

  lemma LinkChildStep(nodes: seq<TrieNode>, paths: seq<Path>, order: seq<Path>, head: nat, b: byte, cur: nat,
                      queue: seq<nat>, link: nat)
    requires Linking(nodes, paths, order) && AtChildren(paths, order, head, b as int, cur, queue)
    requires b in nodes[cur].children && link < |nodes| && IsLink(PathSet(paths), paths[cur] + [b], paths[link])
    ensures
      var child := nodes[cur].children[b];
      child < |nodes| && Linking(WithLink(nodes, child, link), paths, order + [paths[child]]) &&
      AtChildren(paths, order + [paths[child]], head, b as int + 1, cur, queue + [child])
  {
    NextChild(nodes, paths, order, head, b, cur, queue);
    LinkStep(nodes, paths, order, nodes[cur].children[b], link);
  }

  /** Values of the queued nodes already take suffixes into account, the others do not yet. */
  ghost predicate Valuing(nodes: seq<TrieNode>, paths: seq<Path>, added: Entries, order: seq<Path>) {
    TrieOk(nodes, paths) && EntriesOk(added, PathSet(paths)) && LinksOk(nodes, paths) && |nodes| > 0 &&
    forall i: nat :: i < |nodes| ==> ValueOk(nodes, paths, added, paths[i] in order, i)
  }

  lemma ValueKeepsLinks(nodes: seq<TrieNode>, paths: seq<Path>, child: nat, val: nat)
    requires LinksOk(nodes, paths) && child < |nodes|
    ensures LinksOk(WithValue(nodes, child, val), paths)
  {
    forall i | 0 <= i < |nodes| ensures LinkOk(WithValue(nodes, child, val), paths, i) {
      assert LinkOk(nodes, paths, i);
    }
  }

  lemma {:induction false} ValueStep(nodes: seq<TrieNode>, paths: seq<Path>, added: Entries, order: seq<Path>,
                                     child: nat, link: nat)
    requires Valuing(nodes, paths, added, order) && 0 < child < |nodes| && paths[child] !in order
    requires nodes[child].suffixLink == Some(link) && link < |nodes| && paths[link] in order
    ensures Valuing(WithValue(nodes, child, nodes[link].value), paths, added, order + [paths[child]])
  {
    var after := WithValue(nodes, child, nodes[link].value);
    ShapeKeepsTrie(nodes, after, paths);
    ValueKeepsLinks(nodes, paths, child, nodes[link].value);
    assert LinkOk(nodes, paths, child);
    assert ValueOk(nodes, paths, added, false, child) && ValueOk(nodes, paths, added, true, link);
    ChildValue(nodes, paths, added, child, link, paths[link]);
    forall i: nat | i < |after| ensures ValueOk(after, paths, added, paths[i] in order + [paths[child]], i) {
      assert ValueOk(nodes, paths, added, paths[i] in order, i);
    }
  }

  /** A word ends a path if it is all of it or ends the path of its suffix link. */
  lemma EndsSplit(added: Entries, trie: set<Path>, p: Path, link: Path)
    requires EntriesOk(added, trie) && IsLink(trie, p, link)
    ensures forall i :: 0 <= i < |added| ==>
              (WordEnds(p)(added[i].0) <==> WordIs(p)(added[i].0) || WordEnds(link)(added[i].0))
  {
    forall i | 0 <= i < |added| && IsSimple(added[i].0)
      ensures WordEnds(p)(added[i].0) <==> WordIs(p)(added[i].0) || WordEnds(link)(added[i].0)
    {
      var w := HandleStars(added[i].0);
      if IsSuffix(w, p) {
        if |w| < |p| {
          SuffixOfSuffix(w, link, p);
        } else {
          assert w == p;
        }
      }
      if IsSuffix(w, link) {
        SuffixOfSuffix(w, link, p);
      }
    }
  }

  lemma ChildValue(nodes: seq<TrieNode>, paths: seq<Path>, added: Entries, child: nat, link: nat, q: Path)
    requires child < |nodes| == |paths| && link < |nodes| && q == paths[link]
    requires EntriesOk(added, PathSet(paths)) && IsLink(PathSet(paths), paths[child], q)
    requires ValueOk(nodes, paths, added, false, child) && ValueOk(nodes, paths, added, true, link)
    ensures ValueOk(WithValue(nodes, child, nodes[link].value), paths, added, true, child)
  {
    var p := paths[child];
    EndsSplit(added, PathSet(paths), p, q);
    BestOfTwo(added, WordIs(p), nodes[child].value, WordEnds(q), nodes[link].value, WordEnds(p));
  }

  /** The node a link leads to has been queued before the children of the node at the head. */
  lemma LinkIsQueued(nodes: seq<TrieNode>, paths: seq<Path>, order: seq<Path>, head: nat, c: int, cur: nat, child: nat)
    requires TrieOk(nodes, paths) && LinksOk(nodes, paths) && Bfs(PathSet(paths), order, head, c) && head < |order|
    requires cur < |nodes| && paths[cur] == order[head]
    requires 0 < child < |nodes| && |paths[child]| == |paths[cur]| + 1
    ensures nodes[child].suffixLink.Some? && nodes[child].suffixLink.value < |nodes|
    ensures paths[nodes[child].suffixLink.value] in order
  {
    assert LinkOk(nodes, paths, child);
    ShallowIsQueued(PathSet(paths), order, head, c, paths[nodes[child].suffixLink.value]);
  }

  lemma FixStep(nodes: seq<TrieNode>, paths: seq<Path>, added: Entries, order: seq<Path>, head: nat, c: byte,
                cur: nat, queue: seq<nat>)
    requires Valuing(nodes, paths, added, order) && AtChildren(paths, order, head, c as int, cur, queue)
    requires c in nodes[cur].children
    ensures
      var child := nodes[cur].children[c];
      var link := nodes[child].suffixLink;
      link.Some? && link.value < |nodes| &&
      Valuing(WithValue(nodes, child, nodes[link.value].value), paths, added, order + [paths[child]])
  {
    NextChild(nodes, paths, order, head, c, cur, queue);
    var child := nodes[cur].children[c];
    LinkIsQueued(nodes, paths, order, head, c as int, cur, child);
    ValueStep(nodes, paths, added, order, child, nodes[child].suffixLink.value);
  }

  lemma LinkingDone(nodes: seq<TrieNode>, paths: seq<Path>, order: seq<Path>)
    requires Linking(nodes, paths, order) && Bfs(PathSet(paths), order, |order|, 0)
    ensures LinksOk(nodes, paths)
  {
    forall i | 0 <= i < |nodes| ensures LinkOk(nodes, paths, i) {
      AllQueued(PathSet(paths), order, paths[i]);
    }
  }

  lemma ValuingStarts(nodes: seq<TrieNode>, paths: seq<Path>, added: Entries)
    requires TrieOk(nodes, paths) && EntriesOk(added, PathSet(paths)) && LinksOk(nodes, paths) && |nodes| > 0
    requires ValuesAre(nodes, paths, added, false)
    ensures Valuing(nodes, paths, added, [[]])
  {
    forall i | 0 <= i < |added| ensures WordIs([])(added[i].0) <==> WordEnds([])(added[i].0) {
      if IsSimple(added[i].0) {
        SimpleWord(added[i].0);
      }
    }
    assert ValueOk(nodes, paths, added, false, 0);
    forall i: nat | i < |nodes| ensures ValueOk(nodes, paths, added, paths[i] in [[]], i) {
      NodeOf(nodes, paths, i);
      assert ValueOk(nodes, paths, added, false, i);
    }
  }

  lemma ValuingDone(nodes: seq<TrieNode>, paths: seq<Path>, added: Entries, order: seq<Path>)
    requires Valuing(nodes, paths, added, order) && Bfs(PathSet(paths), order, |order|, 0)
    ensures ValuesAre(nodes, paths, added, true)
  {
    forall i: nat | i < |nodes| ensures ValueOk(nodes, paths, added, true, i) {
      AllQueued(PathSet(paths), order, paths[i]);
      assert ValueOk(nodes, paths, added, paths[i] in order, i);
    }
  }

  class MultiGlob {
    var nodes: seq<TrieNode>
    var globs: seq<(seq<Element>, nat)>
    var isCompiled: bool
    ghost var paths: seq<Path>
    ghost var added: Entries

    ghost predicate Open()
      reads this
    {
      !isCompiled && globs == ComplexOf(added) && Building(nodes, paths, added)
    }

    ghost predicate Compiled()
      reads this
    {
      isCompiled && globs == ComplexOf(added) &&
      TrieOk(nodes, paths) && EntriesOk(added, PathSet(paths)) &&
      ValuesAre(nodes, paths, added, true) && LinksOk(nodes, paths)
    }

    constructor ()
      ensures Open() && added == []
    {
      nodes, globs, isCompiled := [], [], false;
      paths, added := [], [];
    }

    /** Walk down from the root along `word`, making the nodes that are missing. */
    method Descend(word: Path) returns (node: nat)
      requires Open()
      modifies `nodes, `paths
      ensures Open() && node < |nodes| && paths[node] == word
    {
      if |nodes| == 0 {
        assert PathSet(paths) == {};
        nodes, paths := [TrieNode(NO_VALUE, None, map[])], [[]];
      }
      node := 0;
      for k := 0 to |word|
        invariant Building(nodes, paths, added) && node < |nodes| && paths[node] == word[..k]
      {
        var c := word[k];
        assert word[..k + 1] == word[..k] + [c];
        if c !in nodes[node].children {
          BuildChild(nodes, paths, added, node, c);
          nodes, paths := WithChild(nodes, node, c), paths + [paths[node] + [c]];
        }
        node := nodes[node].children[c];
      }
      assert word[..|word|] == word;
    }

    /** Adds a pattern; fails only on a glob that does not compile. */
    method Add(pat: Path, val: nat) returns (ok: bool)
      requires Open() && pat != [] && val <= NO_VALUE
      modifies this
      ensures Open()
      ensures ok <==> IsSimple(pat) || Parse(pat, []).Some?
      ensures added == if ok then old(added) + [(pat, val)] else old(added)
    {
      ghost var more := added + [(pat, val)];
      assert more[..|added|] == added;
      if !IsSimple(pat) {
        var glob := Globs.Compile(pat);
        if glob.None? {
          return false;
        }
        BuildComplex(nodes, paths, added, pat, val);
        globs := globs + [(glob.value, val)];
      } else {
        var node := Descend(HandleStars(pat));
        BuildValue(nodes, paths, added, node, pat, val);
        nodes := WithValue(nodes, node, val);
      }
      added := more;
      return true;
    }

    /** A child gets its suffix link and is queued. */
    method LinkChild(cur: nat, b: byte, queue: seq<nat>, ghost order: seq<Path>, ghost head: nat)
      returns (queue': seq<nat>, ghost order': seq<Path>)
      requires Linking(nodes, paths, order) && AtChildren(paths, order, head, b as int, cur, queue)
      modifies `nodes
      ensures OnlyLinksDiffer(nodes, old(nodes))
      ensures Linking(nodes, paths, order') && AtChildren(paths, order', head, b as int + 1, cur, queue')
    {
      queue', order' := queue, order;
      if b in nodes[cur].children {
        var child := nodes[cur].children[b];
        var link := SuffixFor(nodes, paths, order, head, cur, b);
        LinkChildStep(nodes, paths, order, head, b, cur, queue, link);
        LinkDiffers(nodes, child, link);
        nodes := WithLink(nodes, child, link);
        queue', order' := queue + [child], order + [paths[child]];
      } else {
        NextChild(nodes, paths, order, head, b, cur, queue);
      }
    }

    method LinkChildren(cur: nat, queue: seq<nat>, ghost order: seq<Path>, ghost head: nat)
      returns (queue': seq<nat>, ghost order': seq<Path>)
      requires Linking(nodes, paths, order) && AtChildren(paths, order, head, 0, cur, queue)
      modifies `nodes
      ensures OnlyLinksDiffer(nodes, old(nodes))
      ensures Linking(nodes, paths, order') && AtChildren(paths, order', head, 256, cur, queue')
    {
      queue', order' := queue, order;
      for c := 0 to 256
        invariant OnlyLinksDiffer(nodes, old(nodes))
        invariant Linking(nodes, paths, order') && AtChildren(paths, order', head, c, cur, queue')
      {
        queue', order' := LinkChild(cur, c as byte, queue', order', head);
      }
    }

    /** The node at the head of the queue. */
    method LinkNext(queue: seq<nat>, ghost order: seq<Path>, ghost head: nat)
      returns (queue': seq<nat>, ghost order': seq<Path>)
      requires queue != [] && Linking(nodes, paths, order) && Pending(paths, order, head, queue)
      modifies `nodes
      ensures OnlyLinksDiffer(nodes, old(nodes))
      ensures Linking(nodes, paths, order') && Pending(paths, order', head + 1, queue') && head < |PathSet(paths)|
    {
      queue', order' := LinkChildren(queue[0], queue[1..], order, head);
      NoMoreChildren(paths, order', head, queue[0], queue');
    }

    /** The source links the children of the root before the loop; the queue starts with the root here. */
    method FixSuffixLinks()
      requires Building(nodes, paths, added) && |nodes| > 0
      modifies `nodes
      ensures OnlyLinksDiffer(nodes, old(nodes)) && LinksOk(nodes, paths)
    {
      ghost var order, head := [[]], 0;
      var queue := [0];
      while queue != []
        invariant OnlyLinksDiffer(nodes, old(nodes)) && Linking(nodes, paths, order)
        invariant Pending(paths, order, head, queue)
        decreases |PathSet(paths)| + 1 - head
      {
        queue, order := LinkNext(queue, order, head);
        head := head + 1;
      }
      LinkingDone(nodes, paths, order);
    }

    /** A child takes the smaller of its own value and that of its suffix link, and is queued. */
    method FixChild(cur: nat, b: byte, queue: seq<nat>, ghost order: seq<Path>, ghost head: nat)
      returns (queue': seq<nat>, ghost order': seq<Path>)
      requires Valuing(nodes, paths, added, order) && AtChildren(paths, order, head, b as int, cur, queue)
      modifies `nodes
      ensures Valuing(nodes, paths, added, order') && AtChildren(paths, order', head, b as int + 1, cur, queue')
    {
      queue', order' := queue, order;
      NextChild(nodes, paths, order, head, b, cur, queue);
      if b in nodes[cur].children {
        FixStep(nodes, paths, added, order, head, b, cur, queue);
        var child := nodes[cur].children[b];
        var link := nodes[child].suffixLink.value;
        nodes := WithValue(nodes, child, nodes[link].value);
        queue', order' := queue + [child], order + [paths[child]];
      }
    }

    method FixChildren(cur: nat, queue: seq<nat>, ghost order: seq<Path>, ghost head: nat)
      returns (queue': seq<nat>, ghost order': seq<Path>)
      requires Valuing(nodes, paths, added, order) && AtChildren(paths, order, head, 0, cur, queue)
      modifies `nodes
      ensures Valuing(nodes, paths, added, order') && AtChildren(paths, order', head, 256, cur, queue')
    {
      queue', order' := queue, order;
      for c := 0 to 256
        invariant Valuing(nodes, paths, added, order') && AtChildren(paths, order', head, c, cur, queue')
      {
        queue', order' := FixChild(cur, c as byte, queue', order', head);
      }
    }

    method FixNext(queue: seq<nat>, ghost order: seq<Path>, ghost head: nat)
      returns (queue': seq<nat>, ghost order': seq<Path>)
      requires queue != [] && Valuing(nodes, paths, added, order) && Pending(paths, order, head, queue)
      modifies `nodes
      ensures Valuing(nodes, paths, added, order') && Pending(paths, order', head + 1, queue')
      ensures head < |PathSet(paths)|
    {
      queue', order' := FixChildren(queue[0], queue[1..], order, head);
      NoMoreChildren(paths, order', head, queue[0], queue');
    }

    method FixValues()
      requires TrieOk(nodes, paths) && EntriesOk(added, PathSet(paths)) && |nodes| > 0
      requires ValuesAre(nodes, paths, added, false) && LinksOk(nodes, paths)
      modifies `nodes
      ensures TrieOk(nodes, paths) && LinksOk(nodes, paths) && ValuesAre(nodes, paths, added, true)
    {
      ghost var order, head := [[]], 0;
      BfsStart(PathSet(paths));
      ValuingStarts(nodes, paths, added);
      var queue := [0];
      while queue != []
        invariant Valuing(nodes, paths, added, order) && Pending(paths, order, head, queue)
        decreases |PathSet(paths)| + 1 - head
      {
        queue, order := FixNext(queue, order, head);
        head := head + 1;
      }
      ValuingDone(nodes, paths, added, order);
    }

    method Compile()
      requires Open()
      modifies `nodes, `isCompiled
      ensures Compiled()
    {
      isCompiled := true;
      if |nodes| > 0 {
        ghost var before := nodes;
        FixSuffixLinks();
        ShapeKeepsTrie(before, nodes, paths);
        forall i: nat | i < |nodes| ensures ValueOk(nodes, paths, added, false, i) {
          assert ValueOk(before, paths, added, false, i);
        }
        FixValues();
      }
    }

    /** One step of the walk in find. */
    method Walk(node: nat, val: nat, c: byte, ghost text: Path) returns (node': nat, val': nat)
      requires Compiled() && node < |nodes| && At(paths, added, text, node, val)
      ensures node' < |nodes| && At(paths, added, text + [c], node', val')
    {
      node', val' := node, val;
      ghost var trie := PathSet(paths);
      while true
        invariant node' < |nodes| && Searching(trie, text, |text| + 1, c, paths[node'])
        decreases |paths[node']|
      {
        if c in nodes[node'].children {
          SearchSucceeds(trie, text, |text| + 1, c, paths[node']);
          node' := nodes[node'].children[c];
          assert ValueOk(nodes, paths, added, true, node');
          StepHits(added, trie, text, c, paths[node'], val, nodes[node'].value);
          val' := Min(val, nodes[node'].value);
          return;
        }
        assert LinkOk(nodes, paths, node');
        if nodes[node'].suffixLink.None? {
          SearchFails(trie, text, |text| + 1, c);
          StepMisses(added, trie, text, c, val);
          return;
        }
        SearchFollows(trie, text, |text| + 1, c, paths[node'], paths[nodes[node'].suffixLink.value]);
        node' := nodes[node'].suffixLink.value;
      }
    }

    /** The walk over the text with a zero byte before and after it. */
    method WalkText(str: Path) returns (val: nat)
      requires Compiled()
      ensures Best(added, WordOccurs(Marked(str)), val)
    {
      val := NO_VALUE;
      if |nodes| == 0 {
        assert PathSet(paths) == {};
        return;
      }
      var node: nat, text := 0, Marked(str);
      NothingYet(nodes, paths, added);
      for k := 0 to |text|
        invariant node < |nodes| && At(paths, added, text[..k], node, val)
      {
        TakeSnoc(text, k);
        node, val := Walk(node, val, text[k], text[..k]);
      }
      TakeAll(text);
    }

    /** The least value among the complex globs that match. */
    method MatchGlobs(str: Path) returns (val: nat)
      requires globs == ComplexOf(added)
      ensures val <= NO_VALUE && BestGlob(globs, str, val)
    {
      val := NO_VALUE;
      for k := 0 to |globs|
        invariant val <= NO_VALUE && BestGlob(globs[..k], str, val)
      {
        ghost var source := ComplexSource(added, k);
        var ok := DoMatch(str, globs[k].0);
        TakeSnoc(globs, k);
        BestGlobSnoc(globs[..k], str, val, globs[k]);
        if ok {
          val := Min(val, globs[k].1);
        }
      }
      TakeAll(globs);
    }

    /** The least value among the patterns that match, compiling first if that has not been done. */
    method Find(str: Path) returns (r: Option<nat>)
      requires Open() || Compiled()
      modifies `nodes, `isCompiled
      ensures Compiled()
      ensures exists m: nat :: Best(added, Hits(str), m) && r == if m == NO_VALUE then None else Some(m)
    {
      if !isCompiled {
        Compile();
      }
      var simple := WalkText(str);
      var matched := MatchGlobs(str);
      FindResult(added, PathSet(paths), str, simple, matched);
      var val := Min(simple, matched);
      r := if val == NO_VALUE then None else Some(val);
    }
  }

  lemma TakeSnoc<T>(t: seq<T>, k: nat)
    requires k < |t|
    ensures t[..k + 1] == t[..k] + [t[k]]
  {
  }

  lemma TakeAll<T>(t: seq<T>)
    ensures t[..|t|] == t
  {
  }

  // ---- what find computes

  /** The walk after reading `text`. */
  ghost predicate At(paths: seq<Path>, added: Entries, text: Path, node: nat, val: nat) {
    node < |paths| && IsState(PathSet(paths), text, paths[node]) && Best(added, WordOccurs(text), val)
  }

  lemma OccursSnoc(w: Path, t: Path, c: byte)
    ensures Occurs(w, t + [c]) <==> Occurs(w, t) || IsSuffix(w, t + [c])
  {
    var u := t + [c];
    assert u[..|u|] == u;
    assert forall k :: 0 <= k <= |t| ==> u[..k] == t[..k];
  }

  lemma StepHits(added: Entries, trie: set<Path>, text: Path, c: byte, q: Path, val: nat, value: nat)
    requires EntriesOk(added, trie) && IsState(trie, text + [c], q)
    requires Best(added, WordOccurs(text), val) && Best(added, WordEnds(q), value)
    ensures Best(added, WordOccurs(text + [c]), Min(val, value))
  {
    forall i | 0 <= i < |added| && IsSimple(added[i].0)
      ensures Occurs(HandleStars(added[i].0), text + [c]) <==>
              Occurs(HandleStars(added[i].0), text) || IsSuffix(HandleStars(added[i].0), q)
    {
      OccursSnoc(HandleStars(added[i].0), text, c);
    }
    BestOfTwo(added, WordOccurs(text), val, WordEnds(q), value, WordOccurs(text + [c]));
  }

  lemma StepMisses(added: Entries, trie: set<Path>, text: Path, c: byte, val: nat)
    requires EntriesOk(added, trie) && IsState(trie, text + [c], []) && Best(added, WordOccurs(text), val)
    ensures Best(added, WordOccurs(text + [c]), val)
  {
    forall i | 0 <= i < |added| && IsSimple(added[i].0)
      ensures Occurs(HandleStars(added[i].0), text + [c]) <==> Occurs(HandleStars(added[i].0), text)
    {
      OccursSnoc(HandleStars(added[i].0), text, c);
      SimpleWord(added[i].0);
    }
  }

  lemma NothingYet(nodes: seq<TrieNode>, paths: seq<Path>, added: Entries)
    requires TrieOk(nodes, paths) && |nodes| > 0
    ensures At(paths, added, [], 0, NO_VALUE)
  {
    assert paths[0] in paths;
    forall i | 0 <= i < |added| && IsSimple(added[i].0) ensures !Occurs(HandleStars(added[i].0), []) {
      SimpleWord(added[i].0);
    }
  }

  /** The least value among compiled globs that match. */
  ghost predicate BestGlob(globs: seq<(seq<Element>, nat)>, str: Path, m: nat) {
    (m < NO_VALUE ==> exists i :: 0 <= i < |globs| && GlobHit(globs[i].0, str) && globs[i].1 == m) &&
    (forall i :: 0 <= i < |globs| && GlobHit(globs[i].0, str) ==> m <= globs[i].1)
  }

  lemma BestGlobSnoc(globs: seq<(seq<Element>, nat)>, str: Path, m: nat, g: (seq<Element>, nat))
    requires BestGlob(globs, str, m)
    ensures BestGlob(globs + [g], str, if GlobHit(g.0, str) then Min(m, g.1) else m)
  {
    var more := globs + [g];
    assert more[|globs|] == g && forall i :: 0 <= i < |globs| ==> more[i] == globs[i];
  }

  lemma {:induction false} ComplexMember(added: Entries, i: nat) returns (j: nat)
    requires i < |added| && !IsSimple(added[i].0) && Parse(added[i].0, []).Some?
    ensures j < |ComplexOf(added)| && ComplexOf(added)[j] == (Parse(added[i].0, []).value, added[i].1)
    decreases |added|
  {
    if i == |added| - 1 {
      j := |ComplexOf(added)| - 1;
    } else {
      j := ComplexMember(added[..|added| - 1], i);
    }
  }

  lemma {:induction false} ComplexSource(added: Entries, j: nat) returns (i: nat)
    requires j < |ComplexOf(added)|
    ensures i < |added| && !IsSimple(added[i].0) && Parse(added[i].0, []).Some?
    ensures ComplexOf(added)[j] == (Parse(added[i].0, []).value, added[i].1)
    ensures AllValid(ComplexOf(added)[j].0)
    decreases |added|
  {
    var init := added[..|added| - 1];
    if j < |ComplexOf(init)| {
      i := ComplexSource(init, j);
    } else {
      i := |added| - 1;
      ParseIsValid(added[i].0, []);
    }
  }

  lemma ComplexBest(added: Entries, trie: set<Path>, str: Path, m: nat)
    requires EntriesOk(added, trie) && m <= NO_VALUE && BestGlob(ComplexOf(added), str, m)
    ensures Best(added, GlobMatches(str), m)
  {
    if m < NO_VALUE {
      var j :| 0 <= j < |ComplexOf(added)| && GlobHit(ComplexOf(added)[j].0, str) && ComplexOf(added)[j].1 == m;
      var i := ComplexSource(added, j);
      assert GlobMatches(str)(added[i].0);
    }
    forall i | 0 <= i < |added| && GlobMatches(str)(added[i].0) ensures m <= added[i].1 {
      var j := ComplexMember(added, i);
      assert GlobHit(ComplexOf(added)[j].0, str);
    }
  }

  lemma FindResult(added: Entries, trie: set<Path>, str: Path, simple: nat, matched: nat)
    requires EntriesOk(added, trie) && matched <= NO_VALUE && BestGlob(ComplexOf(added), str, matched)
    requires Best(added, WordOccurs(Marked(str)), simple)
    ensures Best(added, Hits(str), Min(simple, matched))
  {
    ComplexBest(added, trie, str, matched);
    BestOfTwo(added, WordOccurs(Marked(str)), simple, GlobMatches(str), matched, Hits(str));
  }

  // ---- what a simple pattern means

  predicate NulFree(s: Path) {
    forall i :: 0 <= i < |s| ==> s[i] != 0
  }

  function Literals(s: Path): seq<Piece> {
    seq(|s|, i requires 0 <= i < |s| => Literal(s[i]))
  }

  function StarIf(star: bool): seq<Piece> {
    if star then [AnyText] else []
  }

  function Pieces(pat: Path): seq<Piece> {
    StarIf(StartsWithStar(pat)) + Literals(Core(pat)) + StarIf(EndsWithStar(pat))
  }

  lemma {:induction false} PrintAppend(a: seq<Piece>, b: seq<Piece>)
    ensures Print(a + b) == Print(a) + Print(b)
  {
    if a == [] {
      assert a + b == b;
    } else {
      assert (a + b)[1..] == a[1..] + b;
      PrintAppend(a[1..], b);
    }
  }

  lemma {:induction false} PrintLiterals(s: Path)
    ensures Print(Literals(s)) == s
  {
    if s != [] {
      assert Literals(s)[1..] == Literals(s[1..]);
      PrintLiterals(s[1..]);
      assert s == [s[0]] + s[1..];
    }
  }

  lemma PrintStar(star: bool)
    ensures Print(StarIf(star)) == if star then [CHAR_STAR] else []
  {
    assert Print([]) == [] && Print([AnyText]) == [CHAR_STAR] + Print([AnyText][1..]);
  }

  lemma CoreWithStars(pat: Path)
    requires Core(pat) != []
    ensures (if StartsWithStar(pat) then [CHAR_STAR] else []) + Core(pat) +
            (if EndsWithStar(pat) then [CHAR_STAR] else []) == pat
  {
    var p := if StartsWithStar(pat) then pat[1..] else pat;
    assert EndsWithStar(p) <==> EndsWithStar(pat);
    assert p == Core(pat) + if EndsWithStar(pat) then [CHAR_STAR] else [];
  }

  lemma PiecesValid(front: bool, core: Path, back: bool)
    requires forall i :: 0 <= i < |core| ==> Ordinary(core[i])
    ensures ValidPieces(StarIf(front) + Literals(core) + StarIf(back))
  {
  }

  lemma PiecesPrint(pat: Path)
    requires IsSimple(pat)
    ensures ValidPieces(Pieces(pat)) && Print(Pieces(pat)) == pat
  {
    var front, core, back := StartsWithStar(pat), Core(pat), EndsWithStar(pat);
    PrintParts(StarIf(front), Literals(core), StarIf(back));
    PrintLiterals(core);
    PrintStar(front);
    PrintStar(back);
    CoreWithStars(pat);
    PiecesValid(front, core, back);
  }

  lemma PrintParts(a: seq<Piece>, l: seq<Piece>, b: seq<Piece>)
    ensures Print(a + l + b) == Print(a) + Print(l) + Print(b)
  {
    PrintAppend(a + l, b);
    PrintAppend(a, l);
  }

  lemma {:induction false} LiteralsMean(l: Path, tail: seq<Piece>, s: Path)
    ensures Means(Literals(l) + tail, s) <==> l <= s && Means(tail, s[|l|..])
    decreases |l|
  {
    if l == [] {
      assert Literals(l) + tail == tail && s[0..] == s;
    } else {
      var ps := Literals(l) + tail;
      assert ps[0] == Literal(l[0]) && ps[1..] == Literals(l[1..]) + tail;
      assert Means(ps, s) <==> s != [] && s[0] == l[0] && Means(ps[1..], s[1..]) by {
        if s != [] {
          assert s[..1] == [s[0]];
          assert ps[0].Matches(s[..1]) <==> s[0] == l[0];
        }
        assert forall k :: 0 <= k <= |s| && ps[0].Matches(s[..k]) ==> k == 1;
      }
      if s != [] {
        LiteralsMean(l[1..], tail, s[1..]);
        assert |l| <= |s| ==> s[1..][|l| - 1..] == s[|l|..];
        assert l <= s <==> l[0] == s[0] && l[1..] <= s[1..];
      }
    }
  }

  lemma StarMeans(star: bool, s: Path)
    ensures Means(StarIf(star), s) <==> star || s == []
  {
    if star {
      assert s[|s|..] == [] && Means([AnyText][1..], s[|s|..]) && AnyText.Matches(s[..|s|]);
    }
  }

  /** A simple pattern asks for its core somewhere, at the start, at the end, or as the whole text. */
  ghost predicate Embedded(core: Path, s: Path, k: nat, front: bool, back: bool) {
    k + |core| <= |s| && s[k..k + |core|] == core && (front || k == 0) && (back || k + |core| == |s|)
  }

  /** The literals of a core, and a star after it, from position k on. */
  lemma RestMeans(core: Path, back: bool, s: Path, k: nat)
    requires k <= |s|
    ensures Means(Literals(core) + StarIf(back), s[k..]) <==> Embedded(core, s, k, true, back)
  {
    LiteralsMean(core, StarIf(back), s[k..]);
    if k + |core| <= |s| {
      StarMeans(back, s[k..][|core|..]);
      assert core <= s[k..] <==> s[k..k + |core|] == core;
    }
  }

  lemma PiecesMean(pat: Path, s: Path)
    requires IsSimple(pat)
    ensures Means(Pieces(pat), s) <==>
            exists k: nat :: Embedded(Core(pat), s, k, StartsWithStar(pat), EndsWithStar(pat))
  {
    var core, back := Core(pat), EndsWithStar(pat);
    var rest := Literals(core) + StarIf(back);
    if StartsWithStar(pat) {
      assert Pieces(pat) == [AnyText] + rest;
      StarThenMeans(rest, core, back, s);
    } else {
      assert Pieces(pat) == rest && s[0..] == s;
      RestMeans(core, back, s, 0);
      assert Embedded(core, s, 0, true, back) <==> Embedded(core, s, 0, false, back);
    }
  }

  lemma StarThenMeans(rest: seq<Piece>, core: Path, back: bool, s: Path)
    requires rest == Literals(core) + StarIf(back)
    ensures Means([AnyText] + rest, s) <==> exists k: nat :: Embedded(core, s, k, true, back)
  {
    var ps := [AnyText] + rest;
    assert ps[1..] == rest;
    if k :| 0 <= k <= |s| && ps[0].Matches(s[..k]) && Means(ps[1..], s[k..]) {
      RestMeans(core, back, s, k);
    }
    if k: nat :| Embedded(core, s, k, true, back) {
      RestMeans(core, back, s, k);
      assert ps[0].Matches(s[..k]) && Means(ps[1..], s[k..]);
    }
  }

  function Lead(front: bool): nat {
    if front then 0 else 1
  }

  /** The marked word at position i of a text. */
  lemma WordAt(front: bool, core: Path, back: bool, t: Path, i: nat)
    requires i + Lead(front) + |core| + Lead(back) <= |t|
    ensures |MarkedWord(front, core, back)| == Lead(front) + |core| + Lead(back)
    ensures
      var w := MarkedWord(front, core, back);
      var k := i + Lead(front);
      t[i..i + |w|] == w <==>
      (front || t[i] == 0) && t[k..k + |core|] == core && (back || t[k + |core|] == 0)
  {
    var k := i + Lead(front);
    var j := k + |core|;
    var n := j + Lead(back);
    var a, b: Path := if front then [] else [0], if back then [] else [0];
    ThreeParts(t, i, k, j, n);
    Apart(t[i..k], t[k..j], t[j..n], a, core, b);
    MarkAt(t, i, front);
    MarkAt(t, j, back);
  }

  lemma ThreeParts(t: Path, i: nat, k: nat, j: nat, n: nat)
    requires i <= k <= j <= n <= |t|
    ensures t[i..n] == t[i..k] + t[k..j] + t[j..n]
  {
  }

  lemma MarkAt(t: Path, i: nat, star: bool)
    requires i + Lead(star) <= |t|
    ensures t[i..i + Lead(star)] == (if star then [] else [0]) <==> star || t[i] == 0
  {
  }

  lemma Apart(a: Path, b: Path, c: Path, x: Path, y: Path, z: Path)
    requires |a| == |x| && |b| == |y| && |c| == |z|
    ensures a + b + c == x + y + z <==> a == x && b == y && c == z
  {
    var u, v := a + b + c, x + y + z;
    assert u[..|a|] == a && v[..|a|] == x;
    assert u[|a|..|a| + |b|] == b && v[|a|..|a| + |b|] == y;
    assert u[|a| + |b|..] == c && v[|a| + |b|..] == z;
  }

  /**
   Where a zero byte in the text would also do for an end: the core is somewhere, with an end of the text or a
   zero byte on each side that has no star.
   */
  ghost predicate Delimited(core: Path, s: Path, k: nat, front: bool, back: bool) {
    k + |core| <= |s| && s[k..k + |core|] == core && (front || k == 0 || s[k - 1] == 0) &&
    (back || k + |core| == |s| || s[k + |core|] == 0)
  }

  /** The exact law: where the marked word occurs in the marked text. */
  lemma WordMeans(pat: Path, s: Path)
    requires IsSimple(pat) && NulFree(pat)
    ensures Occurs(HandleStars(pat), Marked(s)) <==>
            exists k: nat :: Delimited(Core(pat), s, k, StartsWithStar(pat), EndsWithStar(pat))
  {
    var front, core, back := StartsWithStar(pat), Core(pat), EndsWithStar(pat);
    SimpleWord(pat);
    if n :| 0 <= n <= |Marked(s)| && IsSuffix(HandleStars(pat), Marked(s)[..n]) {
      WordIsDelimited(pat, s, n);
    }
    if k: nat :| Delimited(core, s, k, front, back) {
      WordInside(front, core, back, s, k);
    }
  }

  lemma WordIsDelimited(pat: Path, s: Path, n: nat)
    requires IsSimple(pat) && NulFree(Core(pat)) && n <= |Marked(s)|
    requires IsSuffix(HandleStars(pat), Marked(s)[..n])
    ensures exists k: nat :: Delimited(Core(pat), s, k, StartsWithStar(pat), EndsWithStar(pat))
  {
    var front, core, back := StartsWithStar(pat), Core(pat), EndsWithStar(pat);
    var t, w := Marked(s), HandleStars(pat);
    SimpleWord(pat);
    var i := n - |w|;
    assert t[..n][i..] == t[i..i + |w|];
    WordAt(front, core, back, t, i);
    var k := i + Lead(front);
    CoreIsInside(core, s, k);
    assert Delimited(core, s, k - 1, front, back);
  }

  lemma MarkedSlice(s: Path, k: nat, n: nat)
    requires k + n <= |s|
    ensures Marked(s)[k + 1..k + 1 + n] == s[k..k + n]
  {
  }

  /** The bytes before and at a position, with the marks. */
  lemma MarkedEnds(s: Path, k: nat)
    requires k <= |s|
    ensures Marked(s)[k] == if k == 0 then 0 else s[k - 1]
    ensures Marked(s)[k + 1] == if k == |s| then 0 else s[k]
  {
  }

  lemma SliceOccurs(w: Path, t: Path, i: nat)
    requires i + |w| <= |t| && t[i..i + |w|] == w
    ensures Occurs(w, t)
  {
    var n := i + |w|;
    assert t[..n][i..] == t[i..n];
    assert IsSuffix(w, t[..n]);
  }

  lemma {:induction false} WordInside(front: bool, core: Path, back: bool, s: Path, k: nat)
    requires Delimited(core, s, k, front, back)
    ensures Occurs(MarkedWord(front, core, back), Marked(s))
  {
    MarkedSlice(s, k, |core|);
    MarkedEnds(s, k);
    MarkedEnds(s, k + |core|);
    var i := k + 1 - Lead(front);
    WordAt(front, core, back, Marked(s), i);
    SliceOccurs(MarkedWord(front, core, back), Marked(s), i);
  }

  /** Text without zero bytes that occurs in the marked text occurs in the text. */
  lemma CoreIsInside(core: Path, s: Path, i: nat)
    requires core != [] && NulFree(core) && i + |core| <= |s| + 2
    requires Marked(s)[i..i + |core|] == core
    ensures 0 < i && i + |core| <= |s| + 1 && s[i - 1..i - 1 + |core|] == core
    ensures Marked(s)[i - 1] == 0 <==> i == 1 || s[i - 2] == 0
    ensures i + |core| < |s| + 2
    ensures Marked(s)[i + |core|] == 0 <==> i + |core| == |s| + 1 || s[i + |core| - 1] == 0
  {
    var t := Marked(s);
    assert forall j :: 0 <= j < |core| ==> core[j] == t[i..i + |core|][j] == t[i + j];
    assert t[0] == 0 && t[|s| + 1] == 0;
    assert core[0] == t[i] && core[|core| - 1] == t[i + (|core| - 1)];
    assert i + (|core| - 1) != |s| + 1 && i != 0;
    assert forall j :: 0 <= j < |core| ==> core[j] == s[i - 1 + j];
    assert i > 1 ==> t[i - 1] == s[i - 2];
    assert i + |core| <= |s| ==> t[i + |core|] == s[i + |core| - 1];
  }

  /** A part of a text between two zero bytes, or ends of the text. */
  ghost predicate Segment(s: Path, a: nat, b: nat) {
    a <= b <= |s| && (a == 0 || s[a - 1] == 0) && (b == |s| || s[b] == 0) && NulFree(s[a..b])
  }

  /** The segment around a piece of text without zero bytes. */
  lemma SegmentAround(s: Path, k: nat, n: nat) returns (a: nat, b: nat)
    requires k + n <= |s| && NulFree(s[k..k + n])
    ensures Segment(s, a, b) && a <= k && k + n <= b
  {
    a, b := k, k + n;
    while a > 0 && s[a - 1] != 0
      invariant a <= k && NulFree(s[a..b])
    {
      assert s[a - 1..b] == [s[a - 1]] + s[a..b];
      a := a - 1;
    }
    while b < |s| && s[b] != 0
      invariant k + n <= b <= |s| && NulFree(s[a..b])
      decreases |s| - b
    {
      assert s[a..b + 1] == s[a..b] + [s[b]];
      b := b + 1;
    }
  }

  lemma SliceOfSlice(s: Path, a: nat, b: nat, i: nat, j: nat)
    requires a <= b <= |s| && i <= j <= b - a
    ensures s[a..b][i..j] == s[a + i..a + j]
  {
    assert s[a..b] == s[a..][..b - a];
    assert forall k :: i <= k < j ==> s[a..b][k] == s[a + k];
  }

  lemma DelimitedIsInSegment(core: Path, s: Path, k: nat, front: bool, back: bool) returns (a: nat, b: nat)
    requires NulFree(core) && Delimited(core, s, k, front, back)
    ensures Segment(s, a, b) && a <= k && Embedded(core, s[a..b], k - a, front, back)
  {
    a, b := SegmentAround(s, k, |core|);
    SliceOfSlice(s, a, b, k - a, k - a + |core|);
    assert k > a ==> s[a..b][k - 1 - a] == s[k - 1];
    assert k + |core| < b ==> s[a..b][k + |core| - a] == s[k + |core|];
  }

  lemma SegmentIsDelimited(core: Path, s: Path, k: nat, front: bool, back: bool, a: nat, b: nat)
    requires Segment(s, a, b) && Embedded(core, s[a..b], k, front, back)
    ensures Delimited(core, s, a + k, front, back)
  {
    SliceOfSlice(s, a, b, k, k + |core|);
  }

  lemma {:induction false} LiteralsParse(l: Path, rest: Path, acc: seq<Element>) returns (acc': seq<Element>)
    requires l != [] && forall i :: 0 <= i < |l| ==> Ordinary(l[i])
    ensures Parse(l + rest, acc) == Parse(rest, acc') && acc' != [] && acc'[|acc'| - 1].STRING?
    decreases |l|
  {
    acc' := PushLiteral(acc, l[0]);
    assert (l + rest)[1..] == l[1..] + rest;
    if |l| > 1 {
      acc' := LiteralsParse(l[1..], rest, acc');
    } else {
      assert l[1..] + rest == rest;
    }
  }

  /** A simple pattern never ends in two stars, so the glob matcher would agree with it as well. */
  lemma SimpleIsEffective(pat: Path)
    requires IsSimple(pat)
    ensures Parse(pat, []).Some? && !EndsInTwoStars(Parse(pat, []).value)
  {
    var p := if StartsWithStar(pat) then pat[1..] else pat;
    var acc := if StartsWithStar(pat) then [STAR] else [];
    assert Parse(pat, []) == Parse(p, acc) by {
      assert [] + [STAR] == [STAR];
    }
    var tail: Path := if EndsWithStar(p) then [CHAR_STAR] else [];
    assert p == Core(pat) + tail;
    var acc' := LiteralsParse(Core(pat), tail, acc);
    TailParses(acc', EndsWithStar(p));
  }

  lemma TailParses(acc: seq<Element>, star: bool)
    requires acc != [] && acc[|acc| - 1].STRING?
    ensures
      var r := Parse(if star then [CHAR_STAR] else [], acc);
      r.Some? && !EndsInTwoStars(r.value)
  {
    if star {
      assert Parse([CHAR_STAR], acc) == Parse([CHAR_STAR][1..], acc + [STAR]) == Some(acc + [STAR]);
    }
  }

  lemma SimpleMatch(pat: Path, str: Path)
    requires IsSimple(pat)
    ensures IsGlobMatch(str, pat) <==>
            exists k: nat :: Embedded(Core(pat), str, k, StartsWithStar(pat), EndsWithStar(pat))
  {
    SimpleIsEffective(pat);
    PiecesPrint(pat);
    CompileIsFaithful(Pieces(pat), str);
    PiecesMean(pat, str);
  }

  /** The glob matches some segment of the text. */
  ghost predicate MatchesSegment(s: Path, pat: Path) {
    exists a: nat, b: nat :: Segment(s, a, b) && IsGlobMatch(s[a..b], pat)
  }

  /** Whatever the text, a simple pattern is hit exactly if it matches one of the segments of the text. */
  lemma HitsAreBySegment(pat: Path, s: Path)
    requires IsSimple(pat) && NulFree(pat)
    ensures IsHit(s, pat) <==> MatchesSegment(s, pat)
  {
    var front, core, back := StartsWithStar(pat), Core(pat), EndsWithStar(pat);
    WordMeans(pat, s);
    if k: nat :| Delimited(core, s, k, front, back) {
      var a, b := DelimitedIsInSegment(core, s, k, front, back);
      SimpleMatch(pat, s[a..b]);
    }
    if a: nat, b: nat :| Segment(s, a, b) && IsGlobMatch(s[a..b], pat) {
      SimpleMatch(pat, s[a..b]);
      var k: nat :| Embedded(core, s[a..b], k, front, back);
      SegmentIsDelimited(core, s, k, front, back, a, b);
    }
  }

  /** A text without zero bytes is its only segment. */
  lemma OneSegment(s: Path, a: nat, b: nat)
    requires NulFree(s)
    ensures Segment(s, a, b) <==> a == 0 && b == |s|
  {
    assert s[0..|s|] == s;
  }

  /** For text and patterns without zero bytes, finding the marked word is the meaning of the glob. */
  lemma HitsMeanGlobs(pat: Path, str: Path)
    requires NulFree(pat) && NulFree(str)
    ensures IsHit(str, pat) <==> IsGlobMatch(str, pat)
  {
    if IsSimple(pat) {
      HitsAreBySegment(pat, str);
      OneSegment(str, 0, |str|);
      assert str[0..|str|] == str;
      if a: nat, b: nat :| Segment(str, a, b) && IsGlobMatch(str[a..b], pat) {
        OneSegment(str, a, b);
      }
    }
  }

  /**
   Zero bytes in the text never hide a match, and they make one up exactly if the glob matches a segment
   of the text but not the text.
   */
  lemma ZeroBytesMislead(pat: Path, str: Path)
    requires NulFree(pat)
    ensures IsGlobMatch(str, pat) ==> IsHit(str, pat)
    ensures IsHit(str, pat) != IsGlobMatch(str, pat) <==>
            IsSimple(pat) && MatchesSegment(str, pat) && !IsGlobMatch(str, pat)
  {
    if IsSimple(pat) {
      var front, core, back := StartsWithStar(pat), Core(pat), EndsWithStar(pat);
      HitsAreBySegment(pat, str);
      SimpleMatch(pat, str);
      WordMeans(pat, str);
      if k: nat :| Embedded(core, str, k, front, back) {
        assert Delimited(core, str, k, front, back);
      }
    }
  }

  /**
   find against brute force: for text and patterns without zero bytes the result of find is the least
   value among all added patterns, simple or not, that the glob matcher accepts.
   */
  lemma FindIsBruteForce(added: Entries, str: Path, m: nat)
    requires NulFree(str) && forall i :: 0 <= i < |added| ==> NulFree(added[i].0)
    ensures Best(added, Hits(str), m) <==> Best(added, pat => IsGlobMatch(str, pat), m)
  {
    forall i | 0 <= i < |added| ensures IsHit(str, added[i].0) <==> IsGlobMatch(str, added[i].0) {
      HitsMeanGlobs(added[i].0, str);
    }
  }

  /** What find looks for in any text: a simple pattern in its segments, any other in the whole. */
  ghost predicate MatchesPart(str: Path, pat: Path) {
    if IsSimple(pat) then MatchesSegment(str, pat) else IsGlobMatch(str, pat)
  }

  /** The same for texts with zero bytes in them. */
  lemma FindIsBySegment(added: Entries, str: Path, m: nat)
    requires forall i :: 0 <= i < |added| ==> NulFree(added[i].0)
    ensures Best(added, Hits(str), m) <==> Best(added, pat => MatchesPart(str, pat), m)
  {
    forall i | 0 <= i < |added| ensures IsHit(str, added[i].0) <==> MatchesPart(str, added[i].0) {
      if IsSimple(added[i].0) {
        HitsAreBySegment(added[i].0, str);
      }
    }
  }

  /** For example the pattern "b" in the text "a\0b". */
  lemma ZeroByteExample()
    ensures IsHit([97, 0, 98], [98]) && !IsGlobMatch([97, 0, 98], [98])
  {
    var str: Path, pat: Path := [97, 0, 98], [98];
    assert Core(pat) == pat && IsSimple(pat) && NulFree(pat);
    assert !StartsWithStar(pat) && !EndsWithStar(pat);
    assert str[2..3] == pat && str[1] == 0;
    assert Delimited(pat, str, 2, false, false);
    WordMeans(pat, str);
    SimpleMatch(pat, str);
    forall k: nat ensures !Embedded(pat, str, k, false, false) {
      assert |pat| == 1 && |str| == 3;
    }
  }
}
