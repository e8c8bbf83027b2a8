/** Resolving a version request against the versions a catalog serves
    (src/catalog.cpp, `parse_semver`, `resolve_version_npm`). */
module Versions {
  import opened Basics
  import opened Decimals

  const TWO32: int := 0x1_0000_0000
  const DOT: byte := 46

  /** `major.minor.patch`. */
  datatype Version = Version(major: nat, minor: nat, patch: nat)

  /** Reading a version: `stoul` raises for a number past 64 bits, and nothing
      catches it. */
  datatype Read = Read(version: Version) | NotVersion | OutOfRange

  /** The order of `std::array`, lexicographic. */
  predicate Leq(a: Version, b: Version) {
    a.major < b.major
    || (a.major == b.major && (a.minor < b.minor || (a.minor == b.minor && a.patch <= b.patch)))
  }

  // ---- Reading ----

  /** Numbers of a dotted text. */
  datatype Numbers = Numbers(values: seq<nat>) | Malformed | TooLarge

  /** Exactly `n` numbers, with a dot between two. */
  function ReadNumbers(text: Bytes, n: nat): Numbers
    requires n > 0
  {
    var run := DigitRun(text);
    if run == 0 then Malformed
    else
      var value := LeadingValue(text);
      if value >= TWO64 then TooLarge
      else if n == 1 then (if run == |text| then Numbers([value]) else Malformed)
      else if run == |text| || text[run] != DOT then Malformed
      else
        match ReadNumbers(text[run + 1..], n - 1)
        case Numbers(rest) => Numbers([value] + rest)
        case Malformed => Malformed
        case TooLarge => TooLarge
  }

  lemma {:induction false} ReadCount(text: Bytes, n: nat)
    requires n > 0 && ReadNumbers(text, n).Numbers?
    ensures |ReadNumbers(text, n).values| == n
    ensures forall i :: 0 <= i < n ==> ReadNumbers(text, n).values[i] < TWO64
  {
    if n > 1 { ReadCount(text[DigitRun(text) + 1..], n - 1); }
  }

  /** Each part is kept in 32 bits. */
  function Truncated(values: seq<nat>): Version
    requires |values| == 3
  {
    Version(values[0] % TWO32, values[1] % TWO32, values[2] % TWO32)
  }

  function ReadVersion(text: Bytes): Read {
    match ReadNumbers(text, 3)
    case Numbers(values) => ReadCount(text, 3); Read(Truncated(values))
    case Malformed => NotVersion
    case TooLarge => OutOfRange
  }

  /** Digits and nothing else, at least one. */
  predicate Numeral(s: Bytes) { s != [] && forall i :: 0 <= i < |s| ==> IsDigit(s[i]) }

  predicate Fits(s: Bytes) { Numeral(s) && DigitValue(s) < TWO64 }

  function Dotted(a: Bytes, rest: Bytes): Bytes { a + [DOT] + rest }

  /** Three numerals of at most 64 bits, with a dot between two. */
  predicate Spells(text: Bytes, a: Bytes, b: Bytes, c: Bytes) {
    Fits(a) && Fits(b) && Fits(c) && text == Dotted(a, Dotted(b, c))
  }

  lemma {:induction false} RunOfNumeral(s: Bytes, rest: Bytes)
    requires Numeral(s) && (rest == [] || !IsDigit(rest[0]))
    ensures DigitRun(s + rest) == |s| && LeadingValue(s + rest) == DigitValue(s)
  {
    RunOver(s, rest);
    assert (s + rest)[..|s|] == s;
  }

  lemma {:induction false} RunOver(s: Bytes, rest: Bytes)
    requires (forall i :: 0 <= i < |s| ==> IsDigit(s[i])) && (rest == [] || !IsDigit(rest[0]))
    ensures DigitRun(s + rest) == |s|
  {
    if s == [] {
      assert s + rest == rest;
    } else {
      assert (s + rest)[1..] == s[1..] + rest;
      RunOver(s[1..], rest);
    }
  }

  lemma ReadLast(a: Bytes)
    requires Fits(a)
    ensures ReadNumbers(a, 1) == Numbers([DigitValue(a)])
  {
    assert a + [] == a;
    RunOfNumeral(a, []);
  }

  lemma ReadDotted(a: Bytes, rest: Bytes, n: nat)
    requires Fits(a) && n > 1
    ensures ReadNumbers(Dotted(a, rest), n) == Prepended([DigitValue(a)], ReadNumbers(rest, n - 1))
  {
    var text := Dotted(a, rest);
    assert text == a + ([DOT] + rest);
    RunOfNumeral(a, [DOT] + rest);
    assert text[|a| + 1..] == rest;
  }

  /** What a text that reads as numbers is made of. */
  lemma ReadSplits(text: Bytes, n: nat) returns (a: Bytes, rest: Bytes)
    requires n > 0 && ReadNumbers(text, n).Numbers?
    ensures Fits(a)
    ensures if n == 1 then text == a else text == Dotted(a, rest) && ReadNumbers(rest, n - 1).Numbers?
  {
    var run := DigitRun(text);
    DigitRunDigits(text);
    a, rest := text[..run], if run < |text| then text[run + 1..] else [];
  }

  /** `parse_semver` accepts a text exactly when it is three numerals of at
      most 64 bits with a dot between two, and reads their low 32 bits. */
  lemma ReadVersionExact(text: Bytes)
    ensures ReadVersion(text).Read? <==> exists a, b, c :: Spells(text, a, b, c)
    ensures forall a, b, c :: Spells(text, a, b, c) ==>
      ReadVersion(text) == Read(Truncated([DigitValue(a), DigitValue(b), DigitValue(c)]))
  {
    if ReadVersion(text).Read? {
      var a, bc := ReadSplits(text, 3);
      var b, c := ReadSplits(bc, 2);
      var _, _ := ReadSplits(c, 1);
      assert Spells(text, a, b, c);
    }
    forall a, b, c | Spells(text, a, b, c)
      ensures ReadVersion(text) == Read(Truncated([DigitValue(a), DigitValue(b), DigitValue(c)]))
    {
      ReadSpelled(text, a, b, c);
    }
  }

  lemma ReadSpelled(text: Bytes, a: Bytes, b: Bytes, c: Bytes)
    requires Spells(text, a, b, c)
    ensures ReadNumbers(text, 3) == Numbers([DigitValue(a), DigitValue(b), DigitValue(c)])
  {
    ReadLast(c);
    ReadDotted(b, c, 2);
    ReadDotted(a, Dotted(b, c), 3);
  }

  function Render(v: Version): Bytes { Dotted(Digits(v.major), Dotted(Digits(v.minor), Digits(v.patch))) }

  /** A version of 32-bit parts, printed, reads back as itself. */
  lemma ReadOfRender(v: Version)
    requires v.major < TWO32 && v.minor < TWO32 && v.patch < TWO32
    ensures ReadVersion(Render(v)) == Read(v)
  {
    DigitsValue(v.major);
    DigitsValue(v.minor);
    DigitsValue(v.patch);
    ReadSpelled(Render(v), Digits(v.major), Digits(v.minor), Digits(v.patch));
  }

  /** One turn of the reading loop. */
  lemma NextNumber(done: seq<nat>, rest: Bytes, n: nat)
    requires n > 1 && ReadsOn(rest)
    ensures Prepended(done, ReadNumbers(rest, n)) ==
      Prepended(done + [LeadingValue(rest)], ReadNumbers(rest[DigitRun(rest) + 1..], n - 1))
  {
    var r := ReadNumbers(rest[DigitRun(rest) + 1..], n - 1);
    if r.Numbers? { assert done + ([LeadingValue(rest)] + r.values) == (done + [LeadingValue(rest)]) + r.values; }
  }

  predicate ReadsOn(rest: Bytes) {
    var run := DigitRun(rest);
    0 < run < |rest| && rest[run] == DOT && LeadingValue(rest) < TWO64
  }

  /** The reading loop. */
  method ParseSemver(text: Bytes) returns (r: Read)
    ensures r == ReadVersion(text)
  {
    var parts: seq<nat> := [];
    var offset: nat := 0;
    assert text[0..] == text;
    for i := 0 to 2
      invariant offset <= |text| && |parts| == i
      invariant ReadNumbers(text, 3) == Prepended(parts, ReadNumbers(text[offset..], 3 - i))
    {
      var rest := text[offset..];
      if offset >= |text| || !IsDigit(text[offset]) { return NotVersion; }
      var consumed := DigitRun(rest);
      var value := LeadingValue(rest);
      if value >= TWO64 { return OutOfRange; }
      if offset + consumed >= |text| || text[offset + consumed] != DOT { return NotVersion; }
      NextNumber(parts, rest, 3 - i);
      parts, offset := parts + [value], offset + consumed + 1;
      assert rest[consumed + 1..] == text[offset..];
    }
    var rest := text[offset..];
    if offset >= |text| || !IsDigit(text[offset]) { return NotVersion; }
    var value := LeadingValue(rest);
    if value >= TWO64 { return OutOfRange; }
    if offset + DigitRun(rest) != |text| { return NotVersion; }
    return Read(Truncated(parts + [value]));
  }

  function Prepended(done: seq<nat>, rest: Numbers): Numbers {
    if rest.Numbers? then Numbers(done + rest.values) else rest
  }
}
