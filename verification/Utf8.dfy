/** The strict UTF-8 validator of the ticket payload parser
    (src/attach_ticket.cpp), against section 4 of RFC 3629. */
module Utf8 {
  import opened Basics

  /** A Unicode scalar value: any code point but a surrogate. */
  predicate IsScalar(v: int) {
    0 <= v <= 0x10FFFF && !(0xD800 <= v <= 0xDFFF)
  }

  /** The one encoding section 4 of RFC 3629 gives a scalar value. */
  function EncodeScalar(v: int): (b: Bytes)
    requires IsScalar(v)
    ensures 1 <= |b| <= 4
  {
    if v < 0x80 then [v]
    else if v < 0x800 then [0xC0 + v / 64, 0x80 + v % 64]
    else if v < 0x1_0000 then [0xE0 + v / 4096, 0x80 + v / 64 % 64, 0x80 + v % 64]
    else [0xF0 + v / 262144, 0x80 + v / 4096 % 64, 0x80 + v / 64 % 64, 0x80 + v % 64]
  }

  predicate AllScalars(vs: seq<int>) {
    forall i :: 0 <= i < |vs| ==> IsScalar(vs[i])
  }

  function EncodeText(vs: seq<int>): Bytes
    requires AllScalars(vs)
  {
    if vs == [] then [] else EncodeScalar(vs[0]) + EncodeText(vs[1..])
  }

  /** `s` is UTF-8: it encodes some sequence of scalar values. */
  ghost predicate IsUtf8(s: Bytes) {
    exists vs :: AllScalars(vs) && EncodeText(vs) == s
  }

  /** `t` begins with the encoding of `v`. */
  ghost predicate Begins(t: Bytes, v: int) {
    IsScalar(v) && EncodeScalar(v) <= t
  }

  /** Each mask test of the validator is a range test, and in that range its
      payload mask is a subtraction. */
  lemma MasksAreRanges(c: bv8)
    ensures (c & 0xE0) == 0xC0 <==> 0xC0 <= c < 0xE0
    ensures (c & 0xF0) == 0xE0 <==> 0xE0 <= c < 0xF0
    ensures (c & 0xF8) == 0xF0 <==> 0xF0 <= c < 0xF8
    ensures (c & 0xC0) == 0x80 <==> 0x80 <= c < 0xC0
    ensures 0xC0 <= c < 0xE0 ==> c & 0x1F == c - 0xC0
    ensures 0xE0 <= c < 0xF0 ==> c & 0x0F == c - 0xE0
    ensures 0xF0 <= c < 0xF8 ==> c & 0x07 == c - 0xF0
    ensures 0x80 <= c < 0xC0 ==> c & 0x3F == c - 0x80
  {
  }

  /** Shifting in six bits is multiplying by 64 and adding them. */
  lemma ShiftIsTimes(cp: bv32, low: bv32)
    requires low < 0x40
    ensures (cp << 6) | low == cp * 64 + low
  {
  }

  /** The number of bytes after the lead byte `c`; none for an invalid lead. */
  function Extra(c: byte): Option<nat> {
    if c < 0x80 then Some(0)
    else if 0xC0 <= c < 0xE0 then Some(1)
    else if 0xE0 <= c < 0xF0 then Some(2)
    else if 0xF0 <= c < 0xF8 then Some(3)
    else None
  }

  /** The payload bits of the lead byte. */
  function LeadBits(c: byte, extra: nat): int {
    if extra == 1 then c - 0xC0 else if extra == 2 then c - 0xE0 else c - 0xF0
  }

  predicate IsContinuation(c: byte) { 0x80 <= c < 0xC0 }

  function LowBits(c: byte): int { c as int - 0x80 }

  /** Shift in the six bits of each continuation byte. */
  function Accumulate(cp: int, tail: Bytes): int {
    if tail == [] then cp
    else Accumulate(cp, tail[..|tail| - 1]) * 64 + LowBits(tail[|tail| - 1])
  }

  /** The range check after the continuation bytes. */
  predicate InRange(cp: int, extra: nat) {
    && !(extra == 1 && cp < 0x80) && !(extra == 2 && cp < 0x800) && !(extra == 3 && cp < 0x1_0000)
    && cp <= 0x10FFFF && !(0xD800 <= cp <= 0xDFFF)
  }

  /** The base-64 digits of `v` put back together. */
  lemma Digits(v: nat)
    ensures v == v / 64 * 64 + v % 64
    ensures v == (v / 4096 * 64 + v / 64 % 64) * 64 + v % 64
    ensures v == ((v / 262144 * 64 + v / 4096 % 64) * 64 + v / 64 % 64) * 64 + v % 64
  {
    assert v / 64 / 64 == v / 4096;
    assert v / 4096 / 64 == v / 262144;
  }

  /** What the validator sees at the start of an encoded scalar value. */
  lemma EncodedShape(v: int)
    requires IsScalar(v)
    ensures var b := EncodeScalar(v);
      && Extra(b[0]) == Some(|b| - 1)
      && (forall k :: 1 <= k < |b| ==> IsContinuation(b[k]))
      && (|b| > 1 ==> Accumulate(LeadBits(b[0], |b| - 1), b[1..]) == v && InRange(v, |b| - 1))
  {
    var b := EncodeScalar(v);
    if |b| > 1 {
      AccumulateUnfold(LeadBits(b[0], |b| - 1), b[1..]);
      Digits(v);
    }
  }

  lemma AccumulateUnfold(cp: int, tail: Bytes)
    ensures |tail| == 1 ==> Accumulate(cp, tail) == cp * 64 + LowBits(tail[0])
    ensures |tail| == 2 ==> Accumulate(cp, tail) == (cp * 64 + LowBits(tail[0])) * 64 + LowBits(tail[1])
    ensures |tail| == 3 ==>
      Accumulate(cp, tail) == ((cp * 64 + LowBits(tail[0])) * 64 + LowBits(tail[1])) * 64 + LowBits(tail[2])
  {
    if |tail| == 1 {
      assert tail[..0] == [];
    } else if |tail| == 2 {
      AccumulateUnfold(cp, tail[..1]);
    } else if |tail| == 3 {
      AccumulateUnfold(cp, tail[..2]);
    }
  }

  /** The converse, for each length: bytes that pass every check are the
      encoding of the value the validator accumulated. */
  lemma Checked2(b: Bytes, cp: int)
    requires |b| == 2 && Extra(b[0]) == Some(1) && IsContinuation(b[1])
    requires cp == LeadBits(b[0], 1) * 64 + LowBits(b[1]) && InRange(cp, 1)
    ensures IsScalar(cp) && EncodeScalar(cp) == b
  {
    assert cp / 64 == LeadBits(b[0], 1) && cp % 64 == LowBits(b[1]);
  }

  lemma Checked3(b: Bytes, cp: int)
    requires |b| == 3 && Extra(b[0]) == Some(2) && IsContinuation(b[1]) && IsContinuation(b[2])
    requires cp == (LeadBits(b[0], 2) * 64 + LowBits(b[1])) * 64 + LowBits(b[2]) && InRange(cp, 2)
    ensures IsScalar(cp) && EncodeScalar(cp) == b
  {
    var high := LeadBits(b[0], 2) * 64 + LowBits(b[1]);
    assert cp / 64 == high && cp % 64 == LowBits(b[2]);
    assert high / 64 == LeadBits(b[0], 2) && high % 64 == LowBits(b[1]);
    assert cp / 4096 == high / 64;
  }

  lemma Checked4(b: Bytes, cp: int)
    requires |b| == 4 && Extra(b[0]) == Some(3)
    requires IsContinuation(b[1]) && IsContinuation(b[2]) && IsContinuation(b[3])
    requires cp == ((LeadBits(b[0], 3) * 64 + LowBits(b[1])) * 64 + LowBits(b[2])) * 64 + LowBits(b[3])
    requires InRange(cp, 3)
    ensures IsScalar(cp) && EncodeScalar(cp) == b
  {
    var top := LeadBits(b[0], 3) * 64 + LowBits(b[1]);
    var high := top * 64 + LowBits(b[2]);
    assert cp / 64 == high && cp % 64 == LowBits(b[3]);
    assert high / 64 == top && high % 64 == LowBits(b[2]);
    assert top / 64 == LeadBits(b[0], 3) && top % 64 == LowBits(b[1]);
    assert cp / 4096 == top && cp / 262144 == top / 64;
  }

  /** Every check the validator makes on the first character of `t`. */
  predicate GoodFirst(t: Bytes)
    requires t != []
  {
    match Extra(t[0])
    case None => false
    case Some(extra) =>
      && extra < |t|
      && (forall k :: 1 <= k <= extra ==> IsContinuation(t[k]))
      && (extra > 0 ==> InRange(Accumulate(LeadBits(t[0], extra), t[1..extra + 1]), extra))
  }

  /** A first character that passes is an encoded scalar value. */
  lemma GoodFirstBegins(t: Bytes) returns (v: int)
    requires t != [] && GoodFirst(t)
    ensures Begins(t, v) && |EncodeScalar(v)| == Extra(t[0]).value + 1
  {
    var extra := Extra(t[0]).value;
    var b := t[..extra + 1];
    assert b[1..] == t[1..extra + 1];
    v := if extra == 0 then t[0] else Accumulate(LeadBits(t[0], extra), b[1..]);
    AccumulateUnfold(LeadBits(t[0], extra), b[1..]);
    if extra == 1 {
      Checked2(b, v);
    } else if extra == 2 {
      Checked3(b, v);
    } else if extra == 3 {
      Checked4(b, v);
    }
  }

  /** The character an encoded scalar value makes passes every check. */
  lemma BeginsGoodFirst(t: Bytes, v: int)
    requires Begins(t, v)
    ensures GoodFirst(t) && Extra(t[0]) == Some(|EncodeScalar(v)| - 1)
  {
    EncodedShape(v);
    var b := EncodeScalar(v);
    assert b[1..] == t[1..|b|];
  }

  /** Encodings are prefix-free: at most one scalar value starts a text. */
  lemma BeginsUnique(t: Bytes, v: int, w: int)
    requires Begins(t, v) && Begins(t, w)
    ensures v == w
  {
    EncodedShape(v);
    EncodedShape(w);
    assert EncodeScalar(v) == t[..|EncodeScalar(v)|];
    assert EncodeScalar(w) == t[..|EncodeScalar(w)|];
  }

  /** Nonempty UTF-8 starts with a scalar value and continues as UTF-8. */
  lemma Utf8Uncons(t: Bytes) returns (v: int)
    requires IsUtf8(t) && t != []
    ensures Begins(t, v) && IsUtf8(t[|EncodeScalar(v)|..])
  {
    var vs :| AllScalars(vs) && EncodeText(vs) == t;
    v := vs[0];
    assert t[|EncodeScalar(v)|..] == EncodeText(vs[1..]);
  }

  lemma Utf8Cons(t: Bytes, v: int)
    requires Begins(t, v) && IsUtf8(t[|EncodeScalar(v)|..])
    ensures IsUtf8(t)
  {
    var rest :| AllScalars(rest) && EncodeText(rest) == t[|EncodeScalar(v)|..];
    var vs := [v] + rest;
    assert AllScalars(vs) && vs[1..] == rest;
    assert EncodeText(vs) == t;
  }

  /** Skipping one encoded scalar value changes nothing about validity. */
  lemma Utf8Skip(t: Bytes, v: int)
    requires Begins(t, v)
    ensures IsUtf8(t) <==> IsUtf8(t[|EncodeScalar(v)|..])
  {
    if IsUtf8(t) {
      var w := Utf8Uncons(t);
      BeginsUnique(t, v, w);
    }
    if IsUtf8(t[|EncodeScalar(v)|..]) { Utf8Cons(t, v); }
  }

  /** One turn of the validator's loop is exact. */
  lemma FirstCharacter(t: Bytes)
    requires t != []
    ensures IsUtf8(t) <==> GoodFirst(t) && IsUtf8(t[Extra(t[0]).value + 1..])
  {
    if IsUtf8(t) {
      var v := Utf8Uncons(t);
      BeginsGoodFirst(t, v);
    }
    if GoodFirst(t) {
      var v := GoodFirstBegins(t);
      Utf8Skip(t, v);
    }
  }

  lemma AccumulateNext(cp: int, t: Bytes, k: nat)
    requires 1 <= k < |t|
    ensures Accumulate(cp, t[1..k + 1]) == Accumulate(cp, t[1..k]) * 64 + LowBits(t[k])
  {
    assert t[1..k + 1][..k - 1] == t[1..k];
  }

  /** The checks on the character at `i`, in the validator's order. */
  method CheckCharacter(s: Bytes, i: nat) returns (ok: bool, width: nat)
    requires i < |s|
    ensures ok <==> GoodFirst(s[i..])
    ensures ok ==> width == Extra(s[i]).value + 1
  {
    var c := s[i];
    var extra: nat := 0;
    var cp: int := 0;
    if c < 0x80 {
      return true, 1;
    } else if 0xC0 <= c < 0xE0 {
      extra := 1;
      cp := c - 0xC0;
    } else if 0xE0 <= c < 0xF0 {
      extra := 2;
      cp := c - 0xE0;
    } else if 0xF0 <= c < 0xF8 {
      extra := 3;
      cp := c - 0xF0;
    } else {
      return false, 0;
    }
    if i + extra >= |s| { return false, 0; }
    ghost var t := s[i..];
    var k := 1;
    while k <= extra
      invariant 1 <= k <= extra + 1
      invariant forall j :: 1 <= j < k ==> IsContinuation(t[j])
      invariant cp == Accumulate(LeadBits(c, extra), t[1..k])
    {
      var cc := s[i + k];
      assert t[k] == cc;
      if !(0x80 <= cc < 0xC0) { return false, 0; }
      AccumulateNext(LeadBits(c, extra), t, k);
      cp := cp * 64 + (cc - 0x80);
      k := k + 1;
    }
    if (extra == 1 && cp < 0x80) || (extra == 2 && cp < 0x800) || (extra == 3 && cp < 0x1_0000)
       || cp > 0x10FFFF || (cp >= 0xD800 && cp <= 0xDFFF)
    {
      return false, 0;
    }
    return true, extra + 1;
  }

  /** `valid_utf8`: accepts exactly the encodings of scalar value sequences,
      at every length; so no overlong form, no surrogate, nothing past
      U+10FFFF and nothing cut short. */
  method ValidUtf8(s: Bytes) returns (ok: bool)
    ensures ok <==> IsUtf8(s)
  {
    var i := 0;
    while i < |s|
      invariant 0 <= i <= |s|
      invariant IsUtf8(s) <==> IsUtf8(s[i..])
    {
      FirstCharacter(s[i..]);
      var good, width := CheckCharacter(s, i);
      if !good { return false; }
      assert s[i..][width..] == s[i + width..];
      i := i + width;
    }
    assert s[i..] == [];
    assert EncodeText([]) == [];
    return true;
  }
}
