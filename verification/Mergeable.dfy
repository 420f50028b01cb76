/**
 Mergeable sections: splitting them into pieces, finding the piece at an offset, and redirecting
 relocations to pieces (find_null, split_section and resolve_section_pieces in elf/input-files.cc,
 MergeableSection::get_fragment in elf/mold.h).
 */
module Mergeable {
  import opened Bits
  import opened Wrappers

  type Bytes = seq<byte>

  // ---- pieces

  /** The pieces put together again. */
  function Join(ss: seq<Bytes>): Bytes {
    if ss == [] then [] else Join(ss[..|ss| - 1]) + ss[|ss| - 1]
  }

  /** The offset of piece k within the section. */
  function Start(ss: seq<Bytes>, k: nat): nat
    requires k <= |ss|
  {
    if k == 0 then 0 else Start(ss, k - 1) + |ss[k - 1]|
  }

  lemma {:induction false} StartOfPrefix(ss: seq<Bytes>, n: nat, k: nat)
    requires k <= n <= |ss|
    ensures Start(ss[..n], k) == Start(ss, k)
    decreases k
  {
    if k > 0 {
      StartOfPrefix(ss, n, k - 1);
    }
  }

  lemma {:induction false} StartsRise(ss: seq<Bytes>, j: nat, k: nat)
    requires j <= k <= |ss|
    ensures Start(ss, j) <= Start(ss, k)
    ensures j < k && (forall i :: 0 <= i < |ss| ==> ss[i] != []) ==> Start(ss, j) < Start(ss, k)
    decreases k
  {
    if j < k {
      StartsRise(ss, j, k - 1);
    }
  }

  /** Piece k is the part of the whole that begins at its offset. */
  lemma {:induction false} JoinSlice(ss: seq<Bytes>, k: nat)
    requires k < |ss|
    ensures Start(ss, |ss|) == |Join(ss)| && Start(ss, k + 1) <= |Join(ss)|
    ensures Join(ss)[Start(ss, k)..Start(ss, k + 1)] == ss[k]
    decreases |ss|
  {
    var n := |ss| - 1;
    var init := ss[..n];
    StartOfPrefix(ss, n, n);
    JoinLength(init);
    StartsRise(ss, k + 1, |ss|);
    if k < n {
      JoinSlice(init, k);
      StartOfPrefix(ss, n, k);
      StartOfPrefix(ss, n, k + 1);
      StartsRise(ss, k + 1, n);
      assert Join(ss)[..|Join(init)|] == Join(init);
    }
  }

  lemma {:induction false} JoinLength(ss: seq<Bytes>)
    ensures Start(ss, |ss|) == |Join(ss)|
    decreases |ss|
  {
    if ss != [] {
      JoinLength(ss[..|ss| - 1]);
      StartOfPrefix(ss, |ss| - 1, |ss| - 1);
    }
  }

  // ---- find_null

  predicate IsNull(data: Bytes, i: nat, entsize: nat) {
    i + entsize <= |data| && forall k :: i <= k < i + entsize ==> data[k] == 0
  }

  /** An entry of zeros at a multiple of the entry size. */
  predicate NullAt(data: Bytes, q: nat, entsize: nat) {
    IsNull(data, q * entsize, entsize)
  }

  ghost predicate FirstNull(data: Bytes, q: nat, entsize: nat) {
    NullAt(data, q, entsize) && forall p :: 0 <= p < q ==> !NullAt(data, p, entsize)
  }

  method IsZero(data: Bytes) returns (zero: bool)
    ensures zero <==> forall k :: 0 <= k < |data| ==> data[k] == 0
  {
    for k := 0 to |data|
      invariant forall j :: 0 <= j < k ==> data[j] == 0
    {
      if data[k] != 0 {
        return false;
      }
    }
    return true;
  }

  lemma EntryAfter(p: nat, q: nat, entsize: nat)
    requires p >= q
    ensures p * entsize >= q * entsize
  {
  }

  lemma NoNullBehind(data: Bytes, q: nat, entsize: nat)
    requires q * entsize + entsize > |data|
    ensures forall p: nat :: p >= q ==> !NullAt(data, p, entsize)
  {
    forall p: nat | p >= q ensures !NullAt(data, p, entsize) {
      EntryAfter(p, q, entsize);
    }
  }

  lemma SliceIsNull(data: Bytes, i: nat, entsize: nat)
    requires i + entsize <= |data|
    ensures var d := data[i..i + entsize]; IsNull(data, i, entsize) <==> forall k :: 0 <= k < |d| ==> d[k] == 0
  {
    var d := data[i..i + entsize];
    forall k | i <= k < i + entsize ensures data[k] == d[k - i] {
    }
  }

  /** The offset of the first entry of zeros; for single bytes this is an ordinary search for NUL. */
  method FindNull(data: Bytes, entsize: nat) returns (end: Option<nat>, ghost q: nat)
    requires entsize > 0
    ensures end.Some? ==> end.value == q * entsize && FirstNull(data, q, entsize)
    ensures end.None? ==> forall p :: 0 <= p ==> !NullAt(data, p, entsize)
  {
    q := 0;
    var i: nat := 0;
    while i + entsize <= |data|
      invariant i == q * entsize
      invariant forall p :: 0 <= p < q ==> !NullAt(data, p, entsize)
      decreases |data| - i
    {
      var zero := IsZero(data[i..i + entsize]);
      SliceIsNull(data, i, entsize);
      if zero {
        return Some(i), q;
      }
      NextEntry(q, entsize);
      i := i + entsize;
      q := q + 1;
    }
    NoNullBehind(data, q, entsize);
    return None, q;
  }

  // ---- split_section

  datatype Header = Header(alive: bool, hasRelocs: bool, merge: bool, strings: bool, entsize: nat)

  datatype Split =
    | NotMergeable
    | Fatal
    | Pieces(strings: seq<Bytes>, offsets: seq<nat>)

  /** A terminated string: its only entry of zeros is the last one. */
  ghost predicate IsString(s: Bytes, entsize: nat) {
    exists q: nat :: |s| == (q + 1) * entsize && FirstNull(s, q, entsize)
  }

  predicate Record(s: Bytes, entsize: nat) {
    |s| == entsize
  }

  ghost predicate IsPiece(h: Header, s: Bytes) {
    s != [] && if h.strings then IsString(s, EntrySize(h)) else Record(s, h.entsize)
  }

  /** Some compilers write string sections with entries of size 0. */
  function EntrySize(h: Header): nat {
    if h.strings && h.entsize == 0 then 1 else h.entsize
  }

  /** Offsets are stored in 32 bits. */
  ghost predicate IsSplit(h: Header, contents: Bytes, ss: seq<Bytes>, offsets: seq<nat>) {
    Join(ss) == contents && |offsets| == |ss| && (forall k :: 0 <= k < |ss| ==> IsPiece(h, ss[k])) &&
    forall k :: 0 <= k < |ss| ==> offsets[k] == Start(ss, k) % 0x1_0000_0000
  }

  lemma SplitStep(h: Header, done: Bytes, ss: seq<Bytes>, offsets: seq<nat>, s: Bytes)
    requires IsSplit(h, done, ss, offsets) && IsPiece(h, s)
    ensures IsSplit(h, done + s, ss + [s], offsets + [|done| % 0x1_0000_0000])
  {
    JoinLength(ss);
    var ss' := ss + [s];
    assert ss'[..|ss|] == ss;
    forall k | 0 <= k <= |ss| ensures Start(ss', k) == Start(ss, k) {
      StartOfPrefix(ss', |ss|, k);
    }
  }

  /** The string up to and including the first entry of zeros. */
  lemma TakeString(data: Bytes, q: nat, entsize: nat)
    requires entsize > 0 && FirstNull(data, q, entsize)
    ensures q * entsize + entsize <= |data| && IsString(data[..q * entsize + entsize], entsize)
  {
    var s := data[..q * entsize + entsize];
    forall p: nat | p < q ensures !NullAt(s, p, entsize) {
      assert !NullAt(data, p, entsize);
      EntryAfter(q, p + 1, entsize);
    }
    assert NullAt(s, q, entsize);
    assert |s| == (q + 1) * entsize && FirstNull(s, q, entsize);
  }

  method SplitStrings(h: Header, contents: Bytes) returns (r: Split)
    requires h.strings
    ensures r.Pieces? ==> IsSplit(h, contents, r.strings, r.offsets)
    ensures !r.NotMergeable?
    ensures r.Pieces? <==> Terminated(contents, EntrySize(h))
  {
    var entsize := EntrySize(h);
    var data, ss := contents, [];
    var offsets: seq<nat> := [];
    ghost var done: Bytes := [];
    while data != []
      invariant contents == done + data && IsSplit(h, done, ss, offsets)
      invariant |done| % entsize == 0
      decreases |data|
    {
      var end, q := FindNull(data, entsize);
      if end.None? {
        Unterminated(done, data, entsize);
        return Fatal;
      }
      TakeString(data, q, entsize);
      var substr := data[..end.value + entsize];
      SplitStep(h, done, ss, offsets, substr);
      ss := ss + [substr];
      offsets := offsets + [(|contents| - |data|) % 0x1_0000_0000];
      AddString(done, data, q, entsize);
      done := done + substr;
      data := data[end.value + entsize..];
      assert done + data == contents;
    }
    assert done == contents;
    if ss == [] {
      assert contents == [];
    } else {
      LastString(h, ss);
    }
    return Pieces(ss, offsets);
  }

  /** Whole entries, the last of which is zero. */
  predicate Terminated(contents: Bytes, entsize: nat)
    requires entsize > 0
  {
    contents == [] ||
    (|contents| % entsize == 0 && entsize <= |contents| && IsNull(contents, |contents| - entsize, entsize))
  }

  lemma AddString(done: Bytes, data: Bytes, q: nat, entsize: nat)
    requires entsize > 0 && |done| % entsize == 0 && q * entsize + entsize <= |data|
    ensures |done + data[..q * entsize + entsize]| % entsize == 0
  {
    var d := |done| / entsize;
    assert |done| == d * entsize;
    assert |done| + q * entsize + entsize == entsize * (d + q + 1);
    ModUnique(|done| + q * entsize + entsize, entsize, d + q + 1, 0);
  }

  /** If no string can be taken from the rest, the section was not terminated. */
  lemma Unterminated(done: Bytes, data: Bytes, entsize: nat)
    requires entsize > 0 && data != [] && |done| % entsize == 0
    requires forall p :: 0 <= p ==> !NullAt(data, p, entsize)
    ensures !Terminated(done + data, entsize)
  {
    var all := done + data;
    var d, n := |done| / entsize, |all| / entsize;
    assert |done| == d * entsize;
    if |all| % entsize == 0 && entsize <= |all| {
      assert |all| == n * entsize;
      if n <= d {
        EntryAfter(d, n, entsize);
      }
      var p := n - d - 1;
      assert p * entsize == |all| - entsize - |done|;
      assert !NullAt(data, p, entsize);
      assert forall k :: p * entsize <= k < p * entsize + entsize ==> data[k] == all[k + |done|];
    }
  }

  lemma {:induction false} LastString(h: Header, ss: seq<Bytes>)
    requires h.strings && ss != [] && forall k :: 0 <= k < |ss| ==> IsPiece(h, ss[k])
    requires |Join(ss)| % EntrySize(h) == 0
    ensures Terminated(Join(ss), EntrySize(h))
  {
    var entsize, s := EntrySize(h), ss[|ss| - 1];
    assert IsPiece(h, s);
    var q: nat :| |s| == (q + 1) * entsize && FirstNull(s, q, entsize);
    assert NullAt(s, q, entsize);
    NextEntry(q, entsize);
    EndsInZeros(Join(ss[..|ss| - 1]), s, entsize);
  }

  lemma NextEntry(q: nat, entsize: nat)
    ensures (q + 1) * entsize == q * entsize + entsize
  {
  }

  lemma EndsInZeros(before: Bytes, s: Bytes, entsize: nat)
    requires entsize <= |s| && IsNull(s, |s| - entsize, entsize)
    ensures IsNull(before + s, |before + s| - entsize, entsize)
  {
    var all := before + s;
    assert forall k :: |all| - entsize <= k < |all| ==> all[k] == s[k - |before|];
  }

  method SplitRecords(h: Header, contents: Bytes) returns (r: Split)
    requires !h.strings
    ensures r.Pieces? ==> IsSplit(h, contents, r.strings, r.offsets)
    ensures r.NotMergeable? <==> h.entsize == 0
    ensures r.Fatal? <==> h.entsize > 0 && |contents| % h.entsize != 0
  {
    if h.entsize == 0 {
      return NotMergeable;
    }
    if |contents| % h.entsize != 0 {
      return Fatal;
    }
    var data, ss := contents, [];
    var offsets: seq<nat> := [];
    ghost var done: Bytes := [];
    while data != []
      invariant contents == done + data && IsSplit(h, done, ss, offsets)
      invariant |data| % h.entsize == 0
      decreases |data|
    {
      DropRecord(|data|, h.entsize);
      var substr := data[..h.entsize];
      SplitStep(h, done, ss, offsets, substr);
      ss := ss + [substr];
      offsets := offsets + [(|contents| - |data|) % 0x1_0000_0000];
      done := done + substr;
      data := data[h.entsize..];
    }
    assert done == contents;
    return Pieces(ss, offsets);
  }

  lemma DropRecord(n: nat, entsize: nat)
    requires entsize > 0 && n > 0 && n % entsize == 0
    ensures n >= entsize && (n - entsize) % entsize == 0
  {
    var q := n / entsize;
    assert n == q * entsize;
    assert q > 0;
    EntryAfter(q, 1, entsize);
    ModUnique(n - entsize, entsize, q - 1, 0);
  }

  /**
   split_section.  A mergeable section is divided without gap or overlap into terminated strings or
   records; the errors are exactly a string section that does not end with an entry of zeros and a record
   section that is not a whole number of records.
   */
  method SplitSection(h: Header, contents: Bytes) returns (r: Split)
    ensures r.Pieces? ==> IsSplit(h, contents, r.strings, r.offsets)
    ensures r.NotMergeable? <==> !h.alive || h.hasRelocs || !h.merge || (contents != [] && !h.strings && h.entsize == 0)
    ensures r.Fatal? <==> h.alive && !h.hasRelocs && h.merge && contents != [] &&
                          if h.strings then !Terminated(contents, EntrySize(h))
                          else h.entsize > 0 && |contents| % h.entsize != 0
  {
    if !h.alive || h.hasRelocs || !h.merge {
      return NotMergeable;
    }
    if contents == [] {
      return Pieces([], []);
    }
    if h.strings {
      r := SplitStrings(h, contents);
    } else {
      r := SplitRecords(h, contents);
    }
  }

  // ---- get_fragment

  /** Every piece starts where its stored offset says. */
  ghost predicate Exact(ss: seq<Bytes>, offsets: seq<nat>) {
    |offsets| == |ss| && (forall k :: 0 <= k < |ss| ==> ss[k] != []) &&
    forall k :: 0 <= k < |ss| ==> offsets[k] == Start(ss, k)
  }

  /** 32 bits are enough exactly when the last piece starts below 4 GiB. */
  lemma {:induction false} OffsetsAreExact(h: Header, contents: Bytes, ss: seq<Bytes>, offsets: seq<nat>)
    requires IsSplit(h, contents, ss, offsets) && ss != []
    ensures Exact(ss, offsets) <==> Start(ss, |ss| - 1) < 0x1_0000_0000
  {
    var last := |ss| - 1;
    if Start(ss, last) < 0x1_0000_0000 {
      forall k | 0 <= k < |ss| ensures offsets[k] == Start(ss, k) && ss[k] != [] {
        StartsRise(ss, k, last);
        assert IsPiece(h, ss[k]);
      }
      assert Exact(ss, offsets);
    } else {
      assert offsets[last] == Start(ss, last) % 0x1_0000_0000;
      assert offsets[last] != Start(ss, last);
      assert !Exact(ss, offsets);
    }
  }

  /** The number of offsets that are not above the given one. */
  method UpperBound(offsets: seq<nat>, offset: int) returns (k: nat)
    requires forall i, j :: 0 <= i < j < |offsets| ==> offsets[i] < offsets[j]
    ensures k <= |offsets|
    ensures forall i :: 0 <= i < k ==> offsets[i] <= offset
    ensures forall i :: k <= i < |offsets| ==> offset < offsets[i]
  {
    var lo, hi := 0, |offsets|;
    while lo < hi
      invariant 0 <= lo <= hi <= |offsets|
      invariant forall i :: 0 <= i < lo ==> offsets[i] <= offset
      invariant forall i :: hi <= i < |offsets| ==> offset < offsets[i]
    {
      var mid := (lo + hi) / 2;
      if offset < offsets[mid] {
        hi := mid;
      } else {
        lo := mid + 1;
      }
    }
    k := lo;
  }

  /** Byte `at` of piece `idx` is byte `offset` of the section. */
  predicate Locates(ss: seq<Bytes>, offset: int, idx: int, at: int) {
    0 <= idx < |ss| && 0 <= at < |ss[idx]| && offset == Start(ss, idx) + at
  }

  /** A section that has been divided has pieces exactly when it has contents. */
  lemma PiecesIfNotEmpty(h: Header, contents: Bytes, ss: seq<Bytes>, offsets: seq<nat>)
    requires IsSplit(h, contents, ss, offsets)
    ensures ss == [] <==> contents == []
  {
    if ss != [] {
      assert IsPiece(h, ss[|ss| - 1]);
    }
  }

  /**
   The piece and the offset within it; past the end, the last piece.  None stands for the index -1, which the
   code does not test for: it has no piece to take before the first one or in a section without any.
   */
  method GetFragment(ghost ss: seq<Bytes>, offsets: seq<nat>, offset: int) returns (place: Option<(nat, nat)>)
    requires Exact(ss, offsets)
    ensures place.None? <==> ss == [] || offset < 0
    ensures place.Some? ==> place.value.0 < |ss| && offset == Start(ss, place.value.0) + place.value.1
    ensures place.Some? ==> (offset < |Join(ss)| <==> Locates(ss, offset, place.value.0, place.value.1))
    ensures place.Some? && offset >= |Join(ss)| ==> place.value.0 == |ss| - 1
  {
    forall i, j | 0 <= i < j < |offsets| ensures offsets[i] < offsets[j] {
      StartsRise(ss, i, j);
    }
    var k := UpperBound(offsets, offset);
    assert ss != [] ==> Start(ss, 0) == 0 == offsets[0];
    if k == 0 {
      return None;
    }
    var idx := k - 1;
    var at := offset - offsets[idx];
    place := Some((idx, at));
    JoinLength(ss);
    StartsRise(ss, idx + 1, |ss|);
    if idx < |ss| - 1 {
      assert offsets[idx + 1] == Start(ss, idx + 1);
    }
  }

  /** There is no other piece with that byte, and it is the byte of the section. */
  lemma {:induction false} LocatesOneByte(ss: seq<Bytes>, offset: int, idx: int, at: int, idx': int, at': int)
    requires Locates(ss, offset, idx, at) && Locates(ss, offset, idx', at')
    ensures idx == idx' && at == at'
    ensures 0 <= offset < |Join(ss)| && Join(ss)[offset] == ss[idx][at]
  {
    JoinAt(ss, idx, at);
    if idx < idx' {
      StartsRise(ss, idx + 1, idx');
    } else if idx' < idx {
      StartsRise(ss, idx' + 1, idx);
    }
  }

  lemma {:induction false} JoinAt(ss: seq<Bytes>, idx: nat, at: nat)
    requires idx < |ss| && at < |ss[idx]|
    ensures Start(ss, idx) + at < |Join(ss)| && Join(ss)[Start(ss, idx) + at] == ss[idx][at]
  {
    JoinSlice(ss, idx);
    var a, b := Start(ss, idx), Start(ss, idx + 1);
    assert b == a + |ss[idx]|;
    assert Join(ss)[a..b][at] == Join(ss)[a + at];
  }

  /** With wrapped offsets the start of the last piece is not found, whatever piece is looked at. */
  lemma WrappedOffsetsMiss(h: Header, contents: Bytes, ss: seq<Bytes>, offsets: seq<nat>, idx: nat)
    requires IsSplit(h, contents, ss, offsets) && idx < |ss| && Start(ss, |ss| - 1) >= 0x1_0000_0000
    ensures !Locates(ss, Start(ss, |ss| - 1), idx, Start(ss, |ss| - 1) - offsets[idx])
  {
    var last := |ss| - 1;
    if idx < last {
      StartsRise(ss, idx + 1, last);
    }
  }
}
