/** Values shared by every component: optional and fallible results, byte
    strings, machine integers and their little-endian spelling. */
module Basics {
  datatype Option<+T> = None | Some(value: T) {
    predicate IsFailure() { None? }
    function PropagateFailure<U>(): Option<U> requires None? { None }
    function Extract(): T requires Some? { value }
  }

  datatype Result<+T, +E> = Ok(value: T) | Err(error: E) {
    predicate IsFailure() { Err? }
    function PropagateFailure<U>(): Result<U, E> requires Err? { Err(error) }
    function Extract(): T requires Ok? { value }
  }

  /** A C++ `std::string` is a byte string; text is bytes too. */
  type byte = b: int | 0 <= b < 256
  type Bytes = seq<byte>

  /** The components of a schema's or a column's name. */
  type Path = seq<Bytes>

  function OrEmpty(b: Option<Bytes>): Bytes { if b.Some? then b.value else [] }

  const TWO63: int := 0x8000_0000_0000_0000
  const TWO64: int := 0x1_0000_0000_0000_0000

  type int64 = i: int | -TWO63 <= i < TWO63

  /** The bytes of an ASCII literal. */
  function Ascii(s: string): (b: Bytes)
    ensures |b| == |s|
  {
    seq(|s|, i requires 0 <= i < |s| => if s[i] < 128 as char then s[i] as int else 0)
  }

  function Pow256(k: nat): (p: nat)
    ensures p > 0
  {
    if k == 0 then 1 else 256 * Pow256(k - 1)
  }

  /** The `k` low bytes of `v`, least significant first. */
  function LittleEndian(v: nat, k: nat): (b: Bytes)
    ensures |b| == k
  {
    if k == 0 then [] else [v % 256] + LittleEndian(v / 256, k - 1)
  }

  function FromLittleEndian(b: Bytes): nat {
    if b == [] then 0 else b[0] + 256 * FromLittleEndian(b[1..])
  }

  lemma {:induction false} FromLittleEndianBound(b: Bytes)
    ensures FromLittleEndian(b) < Pow256(|b|)
  {
    if b != [] { FromLittleEndianBound(b[1..]); }
  }

  /** Decoding an encoding gives the value back, whenever it fits. */
  lemma {:induction false} LittleEndianRoundTrip(v: nat, k: nat)
    requires v < Pow256(k)
    ensures FromLittleEndian(LittleEndian(v, k)) == v
  {
    if k > 0 {
      var b := LittleEndian(v, k);
      assert b[1..] == LittleEndian(v / 256, k - 1);
      LittleEndianRoundTrip(v / 256, k - 1);
    }
  }

  /** Every byte string is the encoding of the value it decodes to. */
  lemma {:induction false} LittleEndianOnto(b: Bytes)
    ensures LittleEndian(FromLittleEndian(b), |b|) == b
  {
    if b != [] {
      LittleEndianOnto(b[1..]);
      var low: int, high := b[0] as int, FromLittleEndian(b[1..]);
      assert (low + 256 * high) % 256 == low && (low + 256 * high) / 256 == high;
      assert [b[0]] + b[1..] == b;
    }
  }

  /** What one more high-order byte adds: the loop step of a decoder. */
  lemma {:induction false} FromLittleEndianSnoc(b: Bytes, x: byte)
    ensures FromLittleEndian(b + [x]) == FromLittleEndian(b) + x * Pow256(|b|)
  {
    if b == [] {
      assert [] + [x] == [x];
    } else {
      FromLittleEndianSnoc(b[1..], x);
      assert (b + [x])[1..] == b[1..] + [x];
      assert 256 * (x * Pow256(|b| - 1)) == x * Pow256(|b|);
    }
  }

  lemma Pow256Values()
    ensures Pow256(1) == 256 && Pow256(2) == 0x1_0000
    ensures Pow256(4) == 0x1_0000_0000 && Pow256(8) == TWO64
  {
    assert Pow256(3) == 0x100_0000;
    assert Pow256(5) == 0x100_0000_0000;
    assert Pow256(6) == 0x1_0000_0000_0000;
    assert Pow256(7) == 0x100_0000_0000_0000;
  }

  /** A function on every element, failing as it first fails. */
  function TryMap<S, T, E>(s: seq<S>, f: S -> Result<T, E>): Result<seq<T>, E> {
    if s == [] then Ok([])
    else
      var init :- TryMap(s[..|s| - 1], f);
      var last :- f(s[|s| - 1]);
      Ok(init + [last])
  }

  lemma {:induction false} TryMapFails<S, T, E>(s: seq<S>, n: nat, f: S -> Result<T, E>)
    requires n <= |s| && TryMap(s[..n], f).Err?
    ensures TryMap(s, f) == TryMap(s[..n], f)
    decreases |s|
  {
    if n < |s| {
      assert s[..|s| - 1][..n] == s[..n];
      TryMapFails(s[..|s| - 1], n, f);
    } else {
      assert s[..n] == s;
    }
  }

  lemma TryMapOne<S, T, E>(x: S, f: S -> Result<T, E>)
    ensures TryMap([x], f) == if f(x).Ok? then Ok([f(x).value]) else Err(f(x).error)
  {
    var s := [x];
    var none: seq<T> := [];
    assert s[..|s| - 1] == [];
    assert TryMap(s[..|s| - 1], f) == Ok(none);
    if f(x).Ok? { assert none + [f(x).value] == [f(x).value]; }
  }

  /** One turn of a loop that applies the function element by element. */
  lemma TryMapNext<S, T, E>(s: seq<S>, n: nat, f: S -> Result<T, E>, done: seq<T>)
    requires n < |s| && TryMap(s[..n], f) == Ok(done)
    ensures if f(s[n]).Err? then TryMap(s, f) == Err(f(s[n]).error)
            else TryMap(s[..n + 1], f) == Ok(done + [f(s[n]).value])
  {
    assert s[..n + 1][..n] == s[..n];
    if f(s[n]).Err? { TryMapFails(s, n + 1, f); }
  }

  lemma {:induction false} TryMapAt<S, T, E>(s: seq<S>, f: S -> Result<T, E>, i: nat)
    requires i < |s| && TryMap(s, f).Ok?
    ensures |TryMap(s, f).value| == |s| && f(s[i]) == Ok(TryMap(s, f).value[i])
  {
    var init := s[..|s| - 1];
    if i < |init| {
      TryMapAt(init, f, i);
      assert init[i] == s[i];
    } else if init != [] {
      TryMapAt(init, f, 0);
    }
  }

  lemma {:induction false} TryMapAll<S, T, E>(s: seq<S>, f: S -> Result<T, E>, t: seq<T>)
    requires |s| == |t| && forall i :: 0 <= i < |s| ==> f(s[i]) == Ok(t[i])
    ensures TryMap(s, f) == Ok(t)
  {
    if s != [] {
      var n := |s| - 1;
      TryMapAll(s[..n], f, t[..n]);
      assert t == t[..n] + [t[n]];
    }
  }

  /** A list with no value twice. */
  ghost predicate NoDuplicates<T(!new)>(s: seq<T>) {
    forall i, j :: 0 <= i < j < |s| ==> s[i] != s[j]
  }

  /** `tolower` in the C locale, byte by byte. */
  function LowerByte(b: byte): byte { if 65 <= b <= 90 then b + 32 else b }

  function Lower(s: Bytes): (r: Bytes)
    ensures |r| == |s|
  {
    seq(|s|, i requires 0 <= i < |s| => LowerByte(s[i]))
  }

  /** The same letter, in whatever case: an ASCII capital is 32 below its small
      letter. */
  predicate SameLetter(a: byte, b: byte) {
    || a == b
    || (65 <= a <= 90 && b as int == a as int + 32)
    || (65 <= b <= 90 && a as int == b as int + 32)
  }

  /** The same text, in whatever letter case. */
  predicate SameLetters(a: Bytes, b: Bytes) {
    |a| == |b| && forall i :: 0 <= i < |a| ==> SameLetter(a[i], b[i])
  }

  /** Lower case decides exactly that. */
  lemma LowerExact(a: Bytes, b: Bytes)
    ensures Lower(a) == Lower(b) <==> SameLetters(a, b)
  {
    if Lower(a) == Lower(b) {
      forall i | 0 <= i < |a| ensures SameLetter(a[i], b[i]) { assert Lower(a)[i] == Lower(b)[i]; }
    }
    if SameLetters(a, b) {
      forall i | 0 <= i < |a| ensures Lower(a)[i] == Lower(b)[i] { assert SameLetter(a[i], b[i]); }
    }
  }

  /** Lists end to end. */
  function Flat<T>(lists: seq<seq<T>>): seq<T> {
    if lists == [] then [] else Flat(lists[..|lists| - 1]) + lists[|lists| - 1]
  }

  lemma {:induction false} FlatHolds<T>(lists: seq<seq<T>>, x: T)
    ensures x in Flat(lists) <==> exists i :: 0 <= i < |lists| && x in lists[i]
  {
    if lists != [] {
      var init := lists[..|lists| - 1];
      FlatHolds(init, x);
      assert forall i :: 0 <= i < |init| ==> init[i] == lists[i];
    }
  }
}
