/**
 Glob patterns (common/glob.cc): what a pattern means, and the backtracking matcher.
 */
module Globs {
  import opened Bits
  import opened Wrappers

  /** A compiled pattern is a list of elements; a bracket holds a bit for each of the 256 bytes. */
  datatype Element = STRING(str: seq<byte>) | STAR | QUESTION | BRACKET(bits: seq<bool>) {
    ghost predicate Valid() {
      match this
      case STRING(str) => str != []
      case BRACKET(bits) => |bits| == 256
      case _ => true
    }

    /** The shortest text an element can match. */
    ghost function MinLength(): nat {
      match this
      case STRING(str) => |str|
      case STAR => 0
      case _ => 1
    }
  }

  ghost predicate AllValid(els: seq<Element>) {
    forall i :: 0 <= i < |els| ==> els[i].Valid()
  }

  /** One element matches exactly this text. */
  ghost predicate Matches(e: Element, s: seq<byte>)
    requires e.Valid()
  {
    match e
    case STRING(str) => s == str
    case STAR => true
    case QUESTION => |s| == 1
    case BRACKET(bits) => |s| == 1 && bits[s[0]]
  }

  /** The meaning of a pattern: the text splits into pieces matched by the elements in turn. */
  ghost predicate Denotes(els: seq<Element>, s: seq<byte>)
    requires AllValid(els)
  {
    if els == [] then s == []
    else exists k :: 0 <= k <= |s| && Matches(els[0], s[..k]) && Denotes(els[1..], s[k..])
  }

  // ---- the matcher

  predicate OccursAt(s: seq<byte>, pat: seq<byte>, i: nat) {
    i + |pat| <= |s| && s[i..][..|pat|] == pat
  }

  /** Leftmost occurrence, as std::string_view::find. */
  method Find(s: seq<byte>, pat: seq<byte>) returns (pos: Option<nat>)
    ensures pos.Some? ==> OccursAt(s, pat, pos.value)
    ensures forall k: nat :: OccursAt(s, pat, k) ==> pos.Some? && pos.value <= k
  {
    var i := 0;
    while i + |pat| <= |s|
      invariant forall k: nat :: OccursAt(s, pat, k) ==> i <= k
    {
      if s[i..][..|pat|] == pat {
        return Some(i);
      }
      i := i + 1;
    }
    return None;
  }

  /** Does the pattern end in two stars? */
  predicate EndsInTwoStars(els: seq<Element>) {
    |els| >= 2 && els[|els| - 1].STAR? && els[|els| - 2].STAR?
  }

  /**
   What the matcher really implements: after a star that another element follows it never tries
   to match the rest against the empty text, so a trailing pair of stars wants at least one byte.
   */
  function Effective(els: seq<Element>): seq<Element> {
    if EndsInTwoStars(els) then els[..|els| - 1] + [QUESTION] else els
  }

  lemma EffectiveTail(e: Element, rest: seq<Element>)
    requires e.Valid() && AllValid(rest)
    ensures AllValid(Effective([e] + rest)) && AllValid(Effective(rest))
    ensures Effective([e] + rest) == if e.STAR? && rest == [STAR] then [STAR, QUESTION] else [e] + Effective(rest)
  {
    var els := [e] + rest;
    assert els[1..] == rest;
    if |rest| >= 2 {
      assert els[|els| - 1] == rest[|rest| - 1] && els[|els| - 2] == rest[|rest| - 2];
      assert els[..|els| - 1] == [e] + rest[..|rest| - 1];
    } else if |rest| == 1 {
      assert rest == [rest[0]] && els == [e, rest[0]] && els[..1] == [e];
    }
  }

  /** An element other than a star consumes a fixed number of bytes. */
  lemma DenotesFixed(e: Element, rest: seq<Element>, s: seq<byte>)
    requires e.Valid() && AllValid(rest) && !e.STAR?
    ensures AllValid([e] + rest)
    ensures Denotes([e] + rest, s) <==>
            e.MinLength() <= |s| && Matches(e, s[..e.MinLength()]) && Denotes(rest, s[e.MinLength()..])
  {
  }

  ghost function MinLength(els: seq<Element>): nat {
    if els == [] then 0 else els[0].MinLength() + MinLength(els[1..])
  }

  lemma {:induction false} NeverShorter(els: seq<Element>, s: seq<byte>)
    requires AllValid(els) && Denotes(els, s)
    ensures |s| >= MinLength(els)
  {
    if els != [] {
      var k :| 0 <= k <= |s| && Matches(els[0], s[..k]) && Denotes(els[1..], s[k..]);
      NeverShorter(els[1..], s[k..]);
    }
  }

  lemma {:induction false} MinLengthLast(els: seq<Element>, e: Element)
    ensures MinLength(els + [e]) == MinLength(els) + e.MinLength()
  {
    if els == [] {
      assert MinLength([e][1..]) == 0;
    } else {
      assert (els + [e])[1..] == els[1..] + [e];
      MinLengthLast(els[1..], e);
    }
  }

  /** After two stars nothing but a trailing star goes without a byte, so skipping the empty text is harmless. */
  lemma {:induction false} EffectiveNeedsAByte(rest: seq<Element>)
    requires AllValid(rest) && |rest| > 0 && rest != [STAR]
    ensures AllValid(Effective(rest)) && !Denotes(Effective(rest), [])
  {
    EffectiveTail(rest[0], rest[1..]);
    assert rest == [rest[0]] + rest[1..];
    if Denotes(Effective(rest), []) {
      NeverShorter(Effective(rest), []);
      PositiveMinLength(rest);
    }
  }

  lemma {:induction false} PositiveMinLength(rest: seq<Element>)
    requires AllValid(rest) && |rest| > 0 && rest != [STAR]
    ensures MinLength(Effective(rest)) > 0
  {
    var e, tail := rest[0], rest[1..];
    assert rest == [e] + tail;
    EffectiveTail(e, tail);
    if e.STAR? && tail == [STAR] {
      assert MinLength([STAR, QUESTION]) == MinLength([STAR]) + 1 by {
        MinLengthLast([STAR], QUESTION);
        assert [STAR] + [QUESTION] == [STAR, QUESTION];
      }
    } else {
      assert ([e] + Effective(tail))[1..] == Effective(tail);
      if e.STAR? {
        PositiveMinLength(tail);
      }
    }
  }

  ghost predicate DenotesFrom(els: seq<Element>, s: seq<byte>, k: nat) {
    AllValid(els) && k < |s| && Denotes(els, s[k..])
  }

  /** The effective meaning of a pattern that starts with a star, the way the matcher explores it. */
  lemma StarMeaning(rest: seq<Element>, s: seq<byte>)
    requires AllValid(rest)
    ensures AllValid(Effective(rest)) && AllValid(Effective([STAR] + rest))
    ensures rest == [] ==> Denotes(Effective([STAR] + rest), s)
    ensures rest != [] ==>
      (Denotes(Effective([STAR] + rest), s) <==> exists k: nat :: DenotesFrom(Effective(rest), s, k))
  {
    EffectiveTail(STAR, rest);
    if rest == [] {
      assert s[|s|..] == [];
    } else if rest == [STAR] {
      assert [STAR] + [QUESTION] == [STAR, QUESTION];
      forall k | 0 <= k <= |s| ensures Denotes([QUESTION], s[k..]) <==> |s[k..]| == 1 {
        DenotesFixed(QUESTION, [], s[k..]);
        assert [QUESTION] + [] == [QUESTION];
      }
      if |s| > 0 {
        assert Denotes([QUESTION], s[|s| - 1..]);
        assert s[0..] == s;
        assert s[|s|..] == [];
        assert [STAR] + [] == [STAR];
        assert DenotesFrom(Effective(rest), s, 0);
      }
    } else {
      assert AllValid([STAR] + Effective(rest));
      EffectiveNeedsAByte(rest);
      assert s[|s|..] == [];
      assert forall k :: 0 <= k <= |s| ==> Matches(STAR, s[..k]);
      if k :| 0 <= k < |s| && Denotes(Effective(rest), s[k..]) {
        assert DenotesFrom(Effective(rest), s, k);
      }
    }
  }

  /** Backtracking match; true exactly on the effective meaning. */
  method DoMatch(str: seq<byte>, elements: seq<Element>) returns (r: bool)
    requires AllValid(elements)
    ensures AllValid(Effective(elements)) && (r <==> Denotes(Effective(elements), str))
    decreases |elements|, 0
  {
    var s, els := str, elements;
    if els == [] {
      return s == [];
    }
    while els != []
      invariant |els| <= |elements| && AllValid(els) && AllValid(Effective(els)) && AllValid(Effective(elements))
      invariant Denotes(Effective(elements), str) <==> Denotes(Effective(els), s)
      decreases |els|
    {
      var e := els[0];
      assert els == [e] + els[1..];
      EffectiveTail(e, els[1..]);
      els := els[1..];
      match e
      case STRING(lit) =>
        DenotesFixed(e, Effective(els), s);
        if |s| == 0 || |lit| > |s| || s[..|lit|] != lit {
          return false;
        }
        s := s[|lit|..];
      case STAR =>
        StarMeaning(els, s);
        if els == [] {
          return true;
        }
        if els[0].STRING? {
          r := MatchAfterLiteral(s, els);
          return;
        }
        r := MatchSomewhere(s, els);
        return;
      case QUESTION =>
        DenotesFixed(e, Effective(els), s);
        if |s| == 0 {
          return false;
        }
        s := s[1..];
      case BRACKET(bits) =>
        DenotesFixed(e, Effective(els), s);
        if |s| == 0 || !bits[s[0]] {
          return false;
        }
        s := s[1..];
    }
    return s == [];
  }

  /** A pattern that starts with a literal only matches where that occurs, and then what follows decides. */
  lemma LiteralDecides(lit: seq<byte>, rest: seq<Element>, s: seq<byte>, base: nat, i: nat)
    requires lit != [] && AllValid(rest) && base + i < |s|
    ensures DenotesFrom([STRING(lit)] + rest, s, base + i) <==>
            OccursAt(s[base..], lit, i) && Denotes(rest, s[base..][i + |lit|..])
  {
    DenotesFixed(STRING(lit), rest, s[base + i..]);
  }

  /** The slow path for a star: try the rest of the pattern at every byte. */
  method MatchSomewhere(s: seq<byte>, els: seq<Element>) returns (r: bool)
    requires AllValid(els) && AllValid(Effective(els))
    ensures r <==> exists k: nat :: DenotesFrom(Effective(els), s, k)
    decreases |els|, 1
  {
    var j := 0;
    while j < |s|
      invariant 0 <= j <= |s|
      invariant forall k: nat :: k < j ==> !DenotesFrom(Effective(els), s, k)
    {
      var ok := DoMatch(s[j..], els);
      assert ok <==> DenotesFrom(Effective(els), s, j);
      if ok {
        return true;
      }
      j := j + 1;
    }
    return false;
  }

  /** The fast path for a star before a literal: try the literal's occurrences from left to right. */
  method MatchAfterLiteral(str: seq<byte>, els: seq<Element>) returns (r: bool)
    requires AllValid(els) && els != [] && els[0].STRING?
    ensures AllValid(Effective(els))
    ensures r <==> exists k: nat :: DenotesFrom(Effective(els), str, k)
    decreases |els|, 0
  {
    var lit, rest := els[0].str, els[1..];
    assert els == [els[0]] + rest;
    EffectiveTail(els[0], rest);
    ghost var base: nat := 0;
    var s := str;
    while true
      invariant base <= |str| && s == str[base..]
      invariant forall k: nat :: k < base ==> !DenotesFrom(Effective(els), str, k)
      decreases |s|
    {
      var pos := Find(s, lit);
      forall k: nat | base <= k && (pos.Some? ==> k < base + pos.value)
        ensures !DenotesFrom(Effective(els), str, k)
      {
        if k < |str| {
          LiteralDecides(lit, Effective(rest), str, base, k - base);
        }
      }
      if pos.None? {
        return false;
      }
      LiteralDecides(lit, Effective(rest), str, base, pos.value);
      var ok := DoMatch(s[pos.value + |lit|..], rest);
      if ok {
        return true;
      }
      base := base + pos.value + 1;
      s := s[pos.value + 1..];
    }
  }

  // ---- when the matcher implements the meaning of the pattern

  lemma {:induction false} EffectiveImplies(els: seq<Element>, s: seq<byte>)
    requires AllValid(els) && AllValid(Effective(els)) && Denotes(Effective(els), s)
    ensures Denotes(els, s)
  {
    if EndsInTwoStars(els) {
      assert els == els[..|els| - 1] + [STAR];
      LastWeaker(els[..|els| - 1], s);
    }
  }

  lemma {:induction false} LastWeaker(els: seq<Element>, s: seq<byte>)
    requires AllValid(els) && Denotes(els + [QUESTION], s)
    ensures Denotes(els + [STAR], s)
  {
    if els == [] {
      assert [] + [QUESTION] == [QUESTION] + [] && [] + [STAR] == [STAR] + [];
      assert s[..|s|] == s && s[|s|..] == [];
    } else {
      var e, rest := els[0], els[1..];
      assert els + [QUESTION] == [e] + (rest + [QUESTION]) && els + [STAR] == [e] + (rest + [STAR]);
      var k :| 0 <= k <= |s| && Matches(e, s[..k]) && Denotes(rest + [QUESTION], s[k..]);
      LastWeaker(rest, s[k..]);
    }
  }

  /** No bracket of the pattern is empty. */
  predicate CanMatch(els: seq<Element>) {
    forall i :: 0 <= i < |els| && els[i].BRACKET? ==> true in els[i].bits
  }

  /** A text that matches, and none is shorter. */
  lemma {:induction false} ShortestMatch(els: seq<Element>) returns (s: seq<byte>)
    requires AllValid(els) && CanMatch(els)
    ensures Denotes(els, s) && |s| == MinLength(els)
  {
    if els == [] {
      s := [];
    } else {
      var tail := ShortestMatch(els[1..]);
      var head: seq<byte>;
      match els[0] {
        case STRING(str) => head := str;
        case STAR => head := [];
        case QUESTION => head := [0];
        case BRACKET(bits) =>
          var b :| 0 <= b < |bits| && bits[b];
          head := [b as byte];
      }
      s := head + tail;
      assert s[..|head|] == head && s[|head|..] == tail;
    }
  }

  lemma {:induction false} EmptyBracketNeverMatches(els: seq<Element>, s: seq<byte>)
    requires AllValid(els) && !CanMatch(els)
    ensures !Denotes(els, s)
  {
    assert forall i :: 0 < i < |els| ==> els[1..][i - 1] == els[i];
    if !CanMatch(els[1..]) {
      forall k | 0 <= k <= |s| ensures !Denotes(els[1..], s[k..]) {
        EmptyBracketNeverMatches(els[1..], s[k..]);
      }
    }
  }

  /** The matcher never accepts a text the pattern does not mean. */
  lemma MatcherIsSound(els: seq<Element>, s: seq<byte>)
    requires AllValid(els)
    ensures AllValid(Effective(els)) && (Denotes(Effective(els), s) ==> Denotes(els, s))
  {
    if Denotes(Effective(els), s) {
      EffectiveImplies(els, s);
    }
  }

  /**
   The matcher decides the meaning of a pattern on every text unless the pattern ends in two stars
   and has no empty bracket, and then there is a text on which it does not.
   */
  lemma MatcherIsExactUnlessTwoStars(els: seq<Element>)
    requires AllValid(els)
    ensures AllValid(Effective(els))
    ensures (forall s :: Denotes(Effective(els), s) <==> Denotes(els, s)) <==>
            !(EndsInTwoStars(els) && CanMatch(els))
  {
    var eff := Effective(els);
    if EndsInTwoStars(els) && CanMatch(els) {
      var s := ShortestMatch(els);
      var init := els[..|els| - 1];
      assert els == init + [STAR];
      MinLengthLast(init, STAR);
      MinLengthLast(init, QUESTION);
      if Denotes(eff, s) {
        NeverShorter(eff, s);
      }
      assert Denotes(els, s) && !Denotes(eff, s);
    } else if EndsInTwoStars(els) {
      forall s ensures !Denotes(els, s) && !Denotes(eff, s) {
        EmptyBracketNeverMatches(els, s);
        MatcherIsSound(els, s);
      }
    }
  }

  // ---- compiling a pattern string

  const CHAR_STAR: byte := 42
  const CHAR_DASH: byte := 45
  const CHAR_QUESTION: byte := 63
  const CHAR_OPEN: byte := 91
  const CHAR_BACKSLASH: byte := 92
  const CHAR_CLOSE: byte := 93
  const CHAR_CARET: byte := 94

  type Bits256 = b: seq<bool> | |b| == 256 witness seq(256, _ => false)

  function NoBits(): Bits256 {
    seq(256, _ => false)
  }

  function SetRange(bits: Bits256, lo: byte, hi: byte): Bits256 {
    seq(256, i requires 0 <= i < 256 => bits[i] || lo as int <= i <= hi as int)
  }

  function Flip(bits: Bits256): Bits256 {
    seq(256, i requires 0 <= i < 256 => !bits[i])
  }

  /** The rest of a bracket: the bits it adds and what follows the closing bracket. */
  function ParseBracket(pat: seq<byte>, bits: Bits256): (r: Option<(Bits256, seq<byte>)>)
    ensures r.Some? ==> |r.value.1| < |pat|
    decreases |pat|
  {
    if pat == [] then None
    else if pat[0] == CHAR_CLOSE then Some((bits, pat[1..]))
    else
      var p := if pat[0] == CHAR_BACKSLASH then pat[1..] else pat;
      if p == [] then None
      else if |p| >= 3 && p[1] == CHAR_DASH then
        if p[2] == CHAR_BACKSLASH && |p| == 3 then None
        else
          var (hi, rest) := if p[2] == CHAR_BACKSLASH then (p[3], p[4..]) else (p[2], p[3..]);
          if hi < p[0] then None else ParseBracket(rest, SetRange(bits, p[0], hi))
      else ParseBracket(p[1..], bits[p[0] := true])
  }

  /** Literal bytes that follow one another share an element. */
  function PushLiteral(acc: seq<Element>, c: byte): seq<Element> {
    if acc != [] && acc[|acc| - 1].STRING? then
      acc[..|acc| - 1] + [STRING(acc[|acc| - 1].str + [c])]
    else acc + [STRING([c])]
  }

  function Parse(pat: seq<byte>, acc: seq<Element>): Option<seq<Element>>
    decreases |pat|
  {
    if pat == [] then Some(acc)
    else
      var c, p := pat[0], pat[1..];
      if c == CHAR_OPEN then
        var negate := p != [] && p[0] == CHAR_CARET;
        match ParseBracket(if negate then p[1..] else p, NoBits())
        case None => None
        case Some((bits, rest)) => Parse(rest, acc + [BRACKET(if negate then Flip(bits) else bits)])
      else if c == CHAR_QUESTION then Parse(p, acc + [QUESTION])
      else if c == CHAR_STAR then Parse(p, acc + [STAR])
      else Parse(p, PushLiteral(acc, c))
  }

  method CompileBracket(pat: seq<byte>) returns (r: Option<(Bits256, seq<byte>)>)
    ensures r == ParseBracket(pat, NoBits())
  {
    var p, bits := pat, NoBits();
    while p != []
      invariant |p| <= |pat| && ParseBracket(p, bits) == ParseBracket(pat, NoBits())
      decreases |p|
    {
      if p[0] == CHAR_CLOSE {
        return Some((bits, p[1..]));
      }
      if p[0] == CHAR_BACKSLASH {
        p := p[1..];
        if p == [] {
          return None;
        }
      }
      if |p| >= 3 && p[1] == CHAR_DASH {
        var start, end := p[0], p[2];
        p := p[3..];
        if end == CHAR_BACKSLASH {
          if p == [] {
            return None;
          }
          end, p := p[0], p[1..];
        }
        if end < start {
          return None;
        }
        bits := SetRange(bits, start, end);
      } else {
        bits := bits[p[0] := true];
        p := p[1..];
      }
    }
    return None;
  }

  method Compile(pat: seq<byte>) returns (r: Option<seq<Element>>)
    ensures r == Parse(pat, [])
  {
    var p, vec := pat, [];
    while p != []
      invariant Parse(p, vec) == Parse(pat, [])
      decreases |p|
    {
      var c := p[0];
      p := p[1..];
      if c == CHAR_OPEN {
        var negate := false;
        if p != [] && p[0] == CHAR_CARET {
          negate, p := true, p[1..];
        }
        var b := CompileBracket(p);
        if b.None? {
          return None;
        }
        p := b.value.1;
        vec := vec + [BRACKET(if negate then Flip(b.value.0) else b.value.0)];
      } else if c == CHAR_QUESTION {
        vec := vec + [QUESTION];
      } else if c == CHAR_STAR {
        vec := vec + [STAR];
      } else {
        vec := PushLiteral(vec, c);
      }
    }
    return Some(vec);
  }

  lemma {:induction false} ParseIsValid(pat: seq<byte>, acc: seq<Element>)
    requires AllValid(acc)
    ensures Parse(pat, acc).Some? ==> AllValid(Parse(pat, acc).value)
    decreases |pat|
  {
    if pat != [] {
      var c, p := pat[0], pat[1..];
      if c == CHAR_OPEN {
        var negate := p != [] && p[0] == CHAR_CARET;
        match ParseBracket(if negate then p[1..] else p, NoBits())
        case None =>
        case Some((bits, rest)) =>
          ParseIsValid(rest, acc + [BRACKET(if negate then Flip(bits) else bits)]);
      } else if c == CHAR_QUESTION {
        ParseIsValid(p, acc + [QUESTION]);
      } else if c == CHAR_STAR {
        ParseIsValid(p, acc + [STAR]);
      } else {
        ParseIsValid(p, PushLiteral(acc, c));
      }
    }
  }

  // ---- what pattern strings mean: an independent syntax, printed and read back

  datatype Item = Single(c: byte) | Range(lo: byte, hi: byte) {
    predicate Covers(b: byte) {
      match this
      case Single(c) => b == c
      case Range(lo, hi) => lo <= b <= hi
    }
  }

  datatype Piece = Literal(c: byte) | AnyText | AnyByte | Class(negate: bool, items: seq<Item>) {
    ghost predicate Valid() {
      match this
      case Literal(c) => c != CHAR_STAR && c != CHAR_QUESTION && c != CHAR_OPEN
      case Class(_, items) => forall i :: 0 <= i < |items| && items[i].Range? ==> items[i].lo <= items[i].hi
      case _ => true
    }

    ghost predicate Matches(s: seq<byte>) {
      match this
      case Literal(c) => s == [c]
      case AnyText => true
      case AnyByte => |s| == 1
      case Class(negate, items) =>
        |s| == 1 && (negate <==> !exists i :: 0 <= i < |items| && items[i].Covers(s[0]))
    }
  }

  ghost predicate ValidPieces(ps: seq<Piece>) {
    forall i :: 0 <= i < |ps| ==> ps[i].Valid()
  }

  ghost predicate Means(ps: seq<Piece>, s: seq<byte>) {
    if ps == [] then s == []
    else exists k :: 0 <= k <= |s| && ps[0].Matches(s[..k]) && Means(ps[1..], s[k..])
  }

  /** Inside brackets every byte is written with a backslash. */
  function PrintItems(items: seq<Item>): seq<byte> {
    if items == [] then []
    else
      (match items[0]
       case Single(c) => [CHAR_BACKSLASH, c]
       case Range(lo, hi) => [CHAR_BACKSLASH, lo, CHAR_DASH, CHAR_BACKSLASH, hi])
      + PrintItems(items[1..])
  }

  function PrintPiece(p: Piece): seq<byte> {
    match p
    case Literal(c) => [c]
    case AnyText => [CHAR_STAR]
    case AnyByte => [CHAR_QUESTION]
    case Class(negate, items) =>
      [CHAR_OPEN] + (if negate then [CHAR_CARET] else []) + PrintItems(items) + [CHAR_CLOSE]
  }

  function Print(ps: seq<Piece>): seq<byte> {
    if ps == [] then [] else PrintPiece(ps[0]) + Print(ps[1..])
  }

  function AddItems(bits: Bits256, items: seq<Item>): Bits256
    decreases |items|
  {
    if items == [] then bits
    else
      AddItems(
        match items[0]
        case Single(c) => bits[c := true]
        case Range(lo, hi) => SetRange(bits, lo, hi),
        items[1..])
  }

  lemma {:induction false} AddItemsMeaning(bits: Bits256, items: seq<Item>, b: byte)
    ensures AddItems(bits, items)[b] <==> bits[b] || exists i :: 0 <= i < |items| && items[i].Covers(b)
    decreases |items|
  {
    if items != [] {
      var next := match items[0]
        case Single(c) => bits[c := true]
        case Range(lo, hi) => SetRange(bits, lo, hi);
      AddItemsMeaning(next, items[1..], b);
      assert next[b] <==> bits[b] || items[0].Covers(b);
      assert forall i :: 0 <= i < |items[1..]| ==> items[1..][i] == items[i + 1];
      if i :| 0 < i < |items| && items[i].Covers(b) {
        assert items[1..][i - 1].Covers(b);
      }
    }
  }

  lemma {:induction false} ItemsReadBack(items: seq<Item>, rest: seq<byte>, bits: Bits256)
    requires Class(false, items).Valid()
    ensures ParseBracket(PrintItems(items) + [CHAR_CLOSE] + rest, bits) == Some((AddItems(bits, items), rest))
    decreases |items|
  {
    if items == [] {
      assert (PrintItems(items) + [CHAR_CLOSE] + rest)[1..] == rest;
    } else {
      var more := PrintItems(items[1..]) + [CHAR_CLOSE] + rest;
      match items[0]
      case Single(c) =>
        assert PrintItems(items) + [CHAR_CLOSE] + rest == [CHAR_BACKSLASH, c] + more;
        ItemsReadBack(items[1..], rest, bits[c := true]);
      case Range(lo, hi) =>
        assert PrintItems(items) + [CHAR_CLOSE] + rest == [CHAR_BACKSLASH, lo, CHAR_DASH, CHAR_BACKSLASH, hi] + more;
        ItemsReadBack(items[1..], rest, SetRange(bits, lo, hi));
    }
  }

  /** The element list after reading one more piece. */
  function Push(acc: seq<Element>, p: Piece): seq<Element> {
    match p
    case Literal(c) => PushLiteral(acc, c)
    case AnyText => acc + [STAR]
    case AnyByte => acc + [QUESTION]
    case Class(negate, items) =>
      acc + [BRACKET(if negate then Flip(AddItems(NoBits(), items)) else AddItems(NoBits(), items))]
  }

  lemma PrintedClass(negate: bool, items: seq<Item>, rest: seq<byte>)
    ensures
      var body := PrintItems(items) + [CHAR_CLOSE] + rest;
      PrintPiece(Class(negate, items)) + rest == [CHAR_OPEN] + (if negate then [CHAR_CARET] + body else body)
  {
  }

  lemma PieceReadBack(p: Piece, rest: seq<byte>, acc: seq<Element>)
    requires p.Valid()
    ensures Parse(PrintPiece(p) + rest, acc) == Parse(rest, Push(acc, p))
  {
    var pat := PrintPiece(p) + rest;
    if p.Class? {
      ItemsReadBack(p.items, rest, NoBits());
      PrintedClass(p.negate, p.items, rest);
      var body := PrintItems(p.items) + [CHAR_CLOSE] + rest;
      var inner := if p.negate then [CHAR_CARET] + body else body;
      assert pat[1..] == inner;
      assert p.negate ==> inner[1..] == body;
    } else {
      assert pat[1..] == rest;
    }
  }

  /** Slices of slices. */
  lemma Slices<T>(s: seq<T>, j: nat, k: nat)
    requires j <= k <= |s|
    ensures s[..k][..j] == s[..j] && s[..k][j..] == s[j..][..k - j] && s[j..][k - j..] == s[k..]
  {
  }

  lemma {:induction false} DenotesAppend(a: seq<Element>, b: seq<Element>, s: seq<byte>)
    requires AllValid(a) && AllValid(b)
    ensures AllValid(a + b)
    ensures Denotes(a + b, s) <==> exists k :: 0 <= k <= |s| && Denotes(a, s[..k]) && Denotes(b, s[k..])
    decreases |a|
  {
    if Denotes(a + b, s) {
      var k := DenotesSplit(a, b, s);
    }
    if k :| 0 <= k <= |s| && Denotes(a, s[..k]) && Denotes(b, s[k..]) {
      DenotesJoin(a, b, s, k);
    }
  }

  lemma HeadOf(els: seq<Element>, s: seq<byte>) returns (j: nat)
    requires AllValid(els) && els != [] && Denotes(els, s)
    ensures j <= |s| && Matches(els[0], s[..j]) && Denotes(els[1..], s[j..])
  {
    j :| 0 <= j <= |s| && Matches(els[0], s[..j]) && Denotes(els[1..], s[j..]);
  }

  lemma {:induction false} DenotesSplit(a: seq<Element>, b: seq<Element>, s: seq<byte>) returns (k: nat)
    requires AllValid(a) && AllValid(b) && AllValid(a + b) && Denotes(a + b, s)
    ensures k <= |s| && Denotes(a, s[..k]) && Denotes(b, s[k..])
    decreases |a|
  {
    if a == [] {
      k := 0;
      assert a + b == b && s[0..] == s;
    } else {
      assert (a + b)[1..] == a[1..] + b;
      var j := HeadOf(a + b, s);
      var m := DenotesSplit(a[1..], b, s[j..]);
      k := j + m;
      Slices(s, j, k);
    }
  }

  lemma {:induction false} DenotesJoin(a: seq<Element>, b: seq<Element>, s: seq<byte>, k: nat)
    requires AllValid(a) && AllValid(b) && k <= |s| && Denotes(a, s[..k]) && Denotes(b, s[k..])
    ensures AllValid(a + b) && Denotes(a + b, s)
    decreases |a|
  {
    if a == [] {
      assert a + b == b && s[k..] == s;
    } else {
      var j := HeadOf(a, s[..k]);
      Slices(s, j, k);
      DenotesJoin(a[1..], b, s[j..], k - j);
      assert (a + b)[1..] == a[1..] + b;
    }
  }

  lemma DenotesOne(e: Element, s: seq<byte>)
    requires e.Valid()
    ensures Denotes([e], s) <==> Matches(e, s)
  {
    assert [e] + [] == [e] && s[..|s|] == s;
    assert forall k :: 0 <= k <= |s| && s[k..] == [] ==> s[..k] == s;
    assert s[|s|..] == [];
  }

  lemma PushMeaning(acc: seq<Element>, p: Piece, s: seq<byte>)
    requires AllValid(acc) && p.Valid()
    ensures AllValid(Push(acc, p))
    ensures Denotes(Push(acc, p), s) <==>
            exists k :: 0 <= k <= |s| && Denotes(acc, s[..k]) && p.Matches(s[k..])
  {
    match p
    case Literal(c) =>
      if acc != [] && acc[|acc| - 1].STRING? {
        LiteralJoins(acc, c, s);
      } else {
        PushOne(acc, STRING([c]), p, s);
      }
    case AnyText => PushOne(acc, STAR, p, s);
    case AnyByte => PushOne(acc, QUESTION, p, s);
    case Class(negate, items) =>
      var e := BRACKET(if negate then Flip(AddItems(NoBits(), items)) else AddItems(NoBits(), items));
      forall t: seq<byte> ensures Matches(e, t) <==> p.Matches(t) {
        if |t| == 1 {
          AddItemsMeaning(NoBits(), items, t[0]);
        }
      }
      PushOne(acc, e, p, s);
  }

  lemma PushOne(acc: seq<Element>, e: Element, p: Piece, s: seq<byte>)
    requires AllValid(acc) && e.Valid() && forall t :: Matches(e, t) <==> p.Matches(t)
    ensures AllValid(acc + [e])
    ensures Denotes(acc + [e], s) <==> exists k :: 0 <= k <= |s| && Denotes(acc, s[..k]) && p.Matches(s[k..])
  {
    DenotesAppend(acc, [e], s);
    forall k | 0 <= k <= |s| ensures Denotes([e], s[k..]) <==> p.Matches(s[k..]) {
      DenotesOne(e, s[k..]);
    }
  }

  lemma EndsWithLiteral(init: seq<Element>, str: seq<byte>, s: seq<byte>)
    requires AllValid(init) && str != []
    ensures AllValid(init + [STRING(str)])
    ensures Denotes(init + [STRING(str)], s) <==>
            |s| >= |str| && s[|s| - |str|..] == str && Denotes(init, s[..|s| - |str|])
  {
    DenotesAppend(init, [STRING(str)], s);
    forall j | 0 <= j <= |s| ensures Denotes([STRING(str)], s[j..]) <==> s[j..] == str {
      DenotesOne(STRING(str), s[j..]);
    }
  }

  lemma LiteralJoins(acc: seq<Element>, c: byte, s: seq<byte>)
    requires AllValid(acc) && acc != [] && acc[|acc| - 1].STRING?
    ensures AllValid(PushLiteral(acc, c))
    ensures Denotes(PushLiteral(acc, c), s) <==>
            exists k :: 0 <= k <= |s| && Denotes(acc, s[..k]) && s[k..] == [c]
  {
    var init, str := acc[..|acc| - 1], acc[|acc| - 1].str;
    assert acc == init + [STRING(str)];
    EndsWithLiteral(init, str + [c], s);
    if |s| > 0 {
      LiteralLonger(init, str, c, s);
    }
    assert forall k :: 0 <= k <= |s| && s[k..] == [c] ==> k == |s| - 1;
  }

  lemma LiteralLonger(init: seq<Element>, str: seq<byte>, c: byte, s: seq<byte>)
    requires AllValid(init) && str != [] && s != []
    ensures AllValid(init + [STRING(str)])
    ensures (|s| > |str| && s[|s| - |str| - 1..] == str + [c] && Denotes(init, s[..|s| - |str| - 1])) <==>
            (Denotes(init + [STRING(str)], s[..|s| - 1]) && s[|s| - 1..] == [c])
  {
    var k := |s| - 1;
    EndsWithLiteral(init, str, s[..k]);
    if |str| <= k {
      var j := k - |str|;
      Slices(s, j, k);
      LastByte(s[j..], str, c);
    }
  }

  lemma LastByte(t: seq<byte>, str: seq<byte>, c: byte)
    requires |t| == |str| + 1
    ensures t == str + [c] <==> t[..|str|] == str && t[|str|..] == [c]
  {
    if t[..|str|] == str && t[|str|..] == [c] {
      assert t == t[..|str|] + t[|str|..];
    }
  }

  /** Reading a printed pattern back gives elements with the meaning of the pattern. */
  lemma {:induction false} PiecesReadBack(ps: seq<Piece>, acc: seq<Element>)
    returns (els: seq<Element>)
    requires AllValid(acc) && ValidPieces(ps)
    ensures Parse(Print(ps), acc) == Some(els) && AllValid(els)
    ensures forall s :: Denotes(els, s) <==>
              exists k :: 0 <= k <= |s| && Denotes(acc, s[..k]) && Means(ps, s[k..])
    decreases |ps|
  {
    if ps == [] {
      els := acc;
      forall s: seq<byte>
        ensures Denotes(els, s) <==> exists k :: 0 <= k <= |s| && Denotes(acc, s[..k]) && Means(ps, s[k..])
      {
        assert s[..|s|] == s && s[|s|..] == [];
        assert forall k :: 0 <= k <= |s| && s[k..] == [] ==> s[..k] == s;
      }
    } else {
      PieceReadBack(ps[0], Print(ps[1..]), acc);
      var s0: seq<byte> := [];
      PushMeaning(acc, ps[0], s0);
      els := PiecesReadBack(ps[1..], Push(acc, ps[0]));
      forall s: seq<byte>
        ensures Denotes(els, s) <==> exists k :: 0 <= k <= |s| && Denotes(acc, s[..k]) && Means(ps, s[k..])
      {
        PieceMoves(acc, ps, s);
      }
    }
  }

  /** A piece may be read as the end of what precedes it or as the start of what follows. */
  lemma {:induction false} PieceMoves(acc: seq<Element>, ps: seq<Piece>, s: seq<byte>)
    requires AllValid(acc) && ValidPieces(ps) && ps != []
    ensures AllValid(Push(acc, ps[0]))
    ensures (exists m :: 0 <= m <= |s| && Denotes(Push(acc, ps[0]), s[..m]) && Means(ps[1..], s[m..])) <==>
            (exists k :: 0 <= k <= |s| && Denotes(acc, s[..k]) && Means(ps, s[k..]))
  {
    PushMeaning(acc, ps[0], s);
    if m :| 0 <= m <= |s| && Denotes(Push(acc, ps[0]), s[..m]) && Means(ps[1..], s[m..]) {
      var k := PieceMovesRight(acc, ps, s, m);
    }
    if k :| 0 <= k <= |s| && Denotes(acc, s[..k]) && Means(ps, s[k..]) {
      var m := PieceMovesLeft(acc, ps, s, k);
    }
  }

  lemma PieceMovesRight(acc: seq<Element>, ps: seq<Piece>, s: seq<byte>, m: nat) returns (k: nat)
    requires AllValid(acc) && ValidPieces(ps) && ps != [] && m <= |s| && AllValid(Push(acc, ps[0]))
    requires Denotes(Push(acc, ps[0]), s[..m]) && Means(ps[1..], s[m..])
    ensures k <= |s| && Denotes(acc, s[..k]) && Means(ps, s[k..])
  {
    PushMeaning(acc, ps[0], s[..m]);
    k :| 0 <= k <= m && Denotes(acc, s[..m][..k]) && ps[0].Matches(s[..m][k..]);
    Slices(s, k, m);
  }

  lemma PieceMovesLeft(acc: seq<Element>, ps: seq<Piece>, s: seq<byte>, k: nat) returns (m: nat)
    requires AllValid(acc) && ValidPieces(ps) && ps != [] && k <= |s| && AllValid(Push(acc, ps[0]))
    requires Denotes(acc, s[..k]) && Means(ps, s[k..])
    ensures m <= |s| && Denotes(Push(acc, ps[0]), s[..m]) && Means(ps[1..], s[m..])
  {
    var j :| 0 <= j <= |s[k..]| && ps[0].Matches(s[k..][..j]) && Means(ps[1..], s[k..][j..]);
    m := k + j;
    Slices(s, k, m);
    PushMeaning(acc, ps[0], s[..m]);
  }

  /** Compile gives every printed pattern its meaning. */
  lemma CompileIsFaithful(ps: seq<Piece>, s: seq<byte>)
    requires ValidPieces(ps)
    ensures Parse(Print(ps), []).Some? && AllValid(Parse(Print(ps), []).value)
    ensures Denotes(Parse(Print(ps), []).value, s) <==> Means(ps, s)
  {
    var els := PiecesReadBack(ps, []);
    assert s[..0] == [] && s[0..] == s;
  }
}
