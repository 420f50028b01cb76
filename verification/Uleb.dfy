/**
 Unsigned LEB128 numbers (encode_uleb, the bounded read_uleb and uleb_size of common/common.h;
 section 7.6 of DWARF 5).
 */
module Uleb {
  import opened Bits

  class Vector {
    var data: seq<byte>

    method PushBack(x: byte)
      modifies this
      ensures data == old(data) + [x]
    {
      data := data + [x];
    }
  }

  predicate Continues(x: byte) {
    x >= 128
  }

  /** The digits of a number in base 128, least significant first. */
  function Value(b: seq<byte>): nat {
    if b == [] then 0 else b[0] as int % 128 + 128 * Value(b[1..])
  }

  /** At most ten bytes that end with the first one that is not continued; the tenth holds a single bit. */
  predicate IsNumber(b: seq<byte>) {
    0 < |b| <= 10 && !Continues(b[|b| - 1]) && (|b| == 10 ==> b[9] < 2) &&
    forall i :: 0 <= i < |b| - 1 ==> Continues(b[i])
  }

  function Encoded(val: nat): (b: seq<byte>)
    ensures b != []
  {
    if val < 128 then [val as byte] else [(val % 128 + 128) as byte] + Encoded(val / 128)
  }

  /** encode_uleb */
  method EncodeUleb(vec: Vector, val: nat)
    modifies vec
    ensures vec.data == old(vec.data) + Encoded(val)
  {
    var rest: nat := val;
    var more := true;
    while more
      invariant !more ==> rest == 0
      invariant vec.data + Left(rest, more) == old(vec.data) + Encoded(val)
      decreases rest, more
    {
      var x := rest % 128;
      EncodeStep(vec.data, rest);
      rest := rest / 128;
      more := rest != 0;
      vec.PushBack((if more then x + 128 else x) as byte);
    }
    assert vec.data + [] == vec.data;
  }

  ghost function Left(rest: nat, more: bool): seq<byte> {
    if more then Encoded(rest) else []
  }

  lemma EncodeStep(done: seq<byte>, rest: nat)
    ensures
      var x := rest % 128;
      var more := rest / 128 != 0;
      done + [(if more then x + 128 else x) as byte] + Left(rest / 128, more) == done + Encoded(rest)
  {
  }

  lemma {:induction false} Pow2Sum(a: nat, b: nat)
    ensures Pow2(a + b) == Pow2(a) * Pow2(b)
  {
    if a > 0 {
      Pow2Sum(a - 1, b);
    }
  }

  lemma SevenMore(k: nat)
    ensures Pow2(7 * (k + 1)) == 128 * Pow2(7 * k)
  {
    Pow2Sum(7, 7 * k);
    assert Pow2(7) == 128;
  }

  lemma Widths()
    ensures Pow2(63) == 0x8000_0000_0000_0000 && Pow2(70) == 64 * TWO_64
  {
    PowersOf16();
    Pow2Sum(31, 32);
    assert Pow2(7) == 128;
    Pow2Sum(7, 63);
  }

  lemma PowersOf16()
    ensures Pow2(31) == 0x8000_0000 && Pow2(32) == 0x1_0000_0000
  {
    assert Pow2(8) == 256;
    Pow2Sum(8, 8);
    Pow2Sum(16, 16);
    assert Pow2(32) == 2 * Pow2(31);
  }

  /** How many bytes a number takes. */
  lemma {:induction false} EncodedLength(val: nat, k: nat)
    ensures |Encoded(val)| <= k <==> k > 0 && val < Pow2(7 * k)
    decreases k
  {
    if k == 1 {
      assert Pow2(7) == 128;
    } else if k > 1 {
      SevenMore(k - 1);
      if val < 128 {
        SevenMore(k - 2);
      } else {
        EncodedLength(val / 128, k - 1);
      }
    }
  }

  lemma {:induction false} EncodedBytes(val: nat)
    ensures var b := Encoded(val);
            Value(b) == val && !Continues(b[|b| - 1]) && forall i :: 0 <= i < |b| - 1 ==> Continues(b[i])
  {
    if val >= 128 {
      EncodedBytes(val / 128);
      assert Encoded(val)[1..] == Encoded(val / 128);
    } else {
      assert Value(Encoded(val)[1..]) == 0;
    }
  }

  lemma TimesMore(p: nat, q: nat, v: nat)
    requires p == 128 * q
    ensures p * v == 128 * (q * v)
  {
  }

  lemma {:induction false} ValueOfSum(a: seq<byte>, b: seq<byte>)
    ensures Value(a + b) == Value(a) + Pow2(7 * |a|) * Value(b)
    ensures Value(a) < Pow2(7 * |a|)
  {
    if a == [] {
      assert a + b == b;
    } else {
      ValueOfSum(a[1..], b);
      assert (a + b)[1..] == a[1..] + b;
      SevenMore(|a| - 1);
      TimesMore(Pow2(7 * |a|), Pow2(7 * (|a| - 1)), Value(b));
    }
  }

  /** Every 64-bit number is written as a number, which denotes it. */
  lemma EncodedIsNumber(val: nat)
    requires val < TWO_64
    ensures IsNumber(Encoded(val)) && Value(Encoded(val)) == val
  {
    var b := Encoded(val);
    EncodedBytes(val);
    Widths();
    EncodedLength(val, 10);
    if |b| == 10 {
      LastDigit(b);
    }
  }

  /** The tenth byte of a number below 2^64 is its top bit. */
  lemma LastDigit(b: seq<byte>)
    requires |b| == 10 && Value(b) < TWO_64 && !Continues(b[9])
    ensures b[9] <= 1
  {
    var p: int := Pow2(63);
    Widths();
    ValueOfSum(b[..9], b[9..]);
    assert b == b[..9] + b[9..] && b[9..] == [b[9]];
    SingleDigit(b[9]);
    assert p * (b[9] as int) <= Value(b) < 2 * p;
    DigitBelow(p, b[9] as int);
  }

  lemma DigitBelow(p: int, d: int)
    requires p > 0 && d >= 0 && p * d < 2 * p
    ensures d <= 1
  {
    if d >= 2 {
      TwiceOrMore(p, d);
    }
  }

  lemma TwiceOrMore(p: int, d: int)
    requires p > 0 && d >= 2
    ensures p * d >= 2 * p
  {
    assert p * d == p * (d - 2) + 2 * p;
  }

  /** No number is a proper prefix of another. */
  lemma NumbersEnd(b: seq<byte>, c: seq<byte>)
    requires IsNumber(b) && IsNumber(c) && b <= c
    ensures b == c
  {
    assert c[|b| - 1] == b[|b| - 1];
  }

  ghost predicate NoNumberAt(buf: seq<byte>, pos: nat) {
    forall n :: pos <= n <= |buf| ==> !IsNumber(buf[pos..n])
  }

  /**
   The bounded read_uleb.  It accepts exactly the numbers, reads no further than their end, and
   returns what was encoded whatever follows.  The bits or-ed in are above those already read, so
   they are added here.
   */
  method ReadUleb(buf: seq<byte>, pos: nat) returns (ok: bool, val: nat, pos': nat)
    requires pos <= |buf|
    ensures pos <= pos' <= |buf| && pos' - pos <= 10 && val < TWO_64
    ensures ok ==> IsNumber(buf[pos..pos']) && val == Value(buf[pos..pos'])
    ensures !ok ==> NoNumberAt(buf, pos)
    ensures forall v :: 0 <= v < TWO_64 && Encoded(v) <= buf[pos..] ==>
              ok && val == v && pos' == pos + |Encoded(v)|
  {
    ok, val, pos' := false, 0, pos;
    var i: nat := 0;
    while pos' < |buf| && i < 10
      invariant pos <= pos' == pos + i <= |buf| && i <= 10
      invariant val == Value(buf[pos..pos']) && val < TWO_64
      invariant forall j :: pos <= j < pos' ==> Continues(buf[j])
      invariant i < 10
    {
      var x := buf[pos'];
      pos' := pos' + 1;
      if i == 9 && x > 1 {
        break;
      }
      ghost var was := val;
      val := val + (x as int % 128) * Pow2(7 * i);
      ReadDigit(buf, pos, i, was);
      if !Continues(x) {
        ok := true;
        assert IsNumber(buf[pos..pos']);
        Recognised(buf, pos, pos');
        return;
      }
      i := i + 1;
    }
    if pos' == |buf| && i < 10 {
      forall n | pos <= n <= |buf| ensures !IsNumber(buf[pos..n]) {
        assert n > pos ==> buf[pos..n][n - pos - 1] == buf[n - 1];
      }
    }
    NothingEncoded(buf, pos);
  }

  /** One more digit, and still a 64-bit word. */
  lemma ReadDigit(buf: seq<byte>, pos: nat, i: nat, val: nat)
    requires pos + i < |buf| && i < 10 && val == Value(buf[pos..pos + i])
    requires i == 9 ==> buf[pos + i] < 2
    ensures val + (buf[pos + i] as int % 128) * Pow2(7 * i) == Value(buf[pos..pos + i + 1])
    ensures Value(buf[pos..pos + i + 1]) < TWO_64
  {
    var a, x := buf[pos..pos + i], buf[pos + i];
    assert buf[pos..pos + i + 1] == a + [x];
    OneDigit(a, x);
    ValueOfSum(a, []);
    Widths();
    if i < 9 {
      ValueOfSum(a + [x], []);
      Pow2Divides(7 * (i + 1), 63);
    }
  }

  lemma OneDigit(a: seq<byte>, x: byte)
    ensures Value(a + [x]) == Value(a) + (x as int % 128) * Pow2(7 * |a|)
  {
    ValueOfSum(a, [x]);
    SingleDigit(x);
  }

  lemma SingleDigit(x: byte)
    ensures Value([x]) == x as int % 128
  {
    assert [x][1..] == [];
  }

  lemma Recognised(buf: seq<byte>, pos: nat, end: nat)
    requires pos <= end <= |buf| && IsNumber(buf[pos..end])
    ensures forall v :: 0 <= v < TWO_64 && Encoded(v) <= buf[pos..] ==>
              v == Value(buf[pos..end]) && end == pos + |Encoded(v)|
  {
    forall v | 0 <= v < TWO_64 && Encoded(v) <= buf[pos..]
      ensures v == Value(buf[pos..end]) && end == pos + |Encoded(v)|
    {
      var b, c := Encoded(v), buf[pos..end];
      EncodedIsNumber(v);
      assert c == buf[pos..][..|c|] && b == buf[pos..][..|b|];
      if |b| <= |c| {
        NumbersEnd(b, c);
      } else {
        NumbersEnd(c, b);
      }
    }
  }

  lemma NothingEncoded(buf: seq<byte>, pos: nat)
    requires pos <= |buf| && NoNumberAt(buf, pos)
    ensures forall v :: 0 <= v < TWO_64 ==> !(Encoded(v) <= buf[pos..])
  {
    forall v | 0 <= v < TWO_64 ensures !(Encoded(v) <= buf[pos..]) {
      EncodedIsNumber(v);
      var end := pos + |Encoded(v)|;
      if end <= |buf| {
        assert buf[pos..end] != Encoded(v) && buf[pos..end] == buf[pos..][..end - pos];
      }
    }
  }

  /** uleb_size is the encoded length exactly below 2^63; it never says 10. */
  method UlebSize(val: nat) returns (size: nat)
    requires val < TWO_64
    ensures 1 <= size <= 9
    ensures size == |Encoded(val)| <==> val < Pow2(63)
  {
    EncodedLength(val, 9);
    for i := 1 to 9
      invariant |Encoded(val)| >= i
    {
      EncodedLength(val, i);
      if val < Pow2(7 * i) {
        Pow2Divides(7 * i, 63);
        return i;
      }
    }
    return 9;
  }
}
