/** What version requests and versions mean as they are written, and when the
    worker's answer is right in that sense (src/catalog.cpp,
    `resolve_version_npm`). */
module VersionMeaning {
  import opened Basics
  import opened Decimals
  import opened Versions
  import opened VersionRanges

  // ---- Requests as written ----

  /** A request of one of the five forms, by its numerals. */
  datatype Written =
    | Exact(a: Bytes, b: Bytes, c: Bytes)
    | FromCaret(a: Bytes, b: Bytes, c: Bytes)
    | FromTilde(a: Bytes, b: Bytes, c: Bytes)
    | OnlyMajor(a: Bytes)
    | MajorMinor(a: Bytes, b: Bytes)

  function Spelled(w: Written): Bytes {
    match w
    case Exact(a, b, c) => Dotted(a, Dotted(b, c))
    case FromCaret(a, b, c) => [CARET] + Dotted(a, Dotted(b, c))
    case FromTilde(a, b, c) => [TILDE] + Dotted(a, Dotted(b, c))
    case OnlyMajor(a) => a
    case MajorMinor(a, b) => Dotted(a, b)
  }

  function Numerals(w: Written): seq<Bytes> {
    match w
    case Exact(a, b, c) => [a, b, c]
    case FromCaret(a, b, c) => [a, b, c]
    case FromTilde(a, b, c) => [a, b, c]
    case OnlyMajor(a) => [a]
    case MajorMinor(a, b) => [a, b]
  }

  predicate AllNumerals(w: Written) { forall i :: 0 <= i < |Numerals(w)| ==> Numeral(Numerals(w)[i]) }

  /** Every numeral fits the 64 bits that are read. */
  predicate AllFit(w: Written) { forall i :: 0 <= i < |Numerals(w)| ==> Fits(Numerals(w)[i]) }

  /** Every numeral fits the 32 bits that are kept. */
  predicate NarrowRequest(w: Written)
    requires AllFit(w)
  {
    forall i :: 0 <= i < |Numerals(w)| ==> DigitValue(Numerals(w)[i]) < TWO32
  }

  predicate IsRange(w: Written) { w.FromCaret? || w.FromTilde? || w.OnlyMajor? }

  function Numbered(a: Bytes, b: Bytes, c: Bytes): Version
    requires Fits(a) && Fits(b) && Fits(c)
  {
    Version(DigitValue(a), DigitValue(b), DigitValue(c))
  }

  lemma FitEach(w: Written)
    requires AllFit(w)
    ensures Fits(w.a) && (!w.OnlyMajor? ==> Fits(w.b)) && (!w.OnlyMajor? && !w.MajorMinor? ==> Fits(w.c))
  {
    assert Numerals(w)[0] == w.a;
    if !w.OnlyMajor? { assert Numerals(w)[1] == w.b; }
    if !w.OnlyMajor? && !w.MajorMinor? { assert Numerals(w)[2] == w.c; }
  }

  /** The range a request writes, its numbers in full. */
  function AsWritten(w: Written): (r: Range)
    requires IsRange(w) && AllFit(w)
    ensures !r.Literally?
  {
    FitEach(w);
    match w
    case FromCaret(a, b, c) => Caret(Numbered(a, b, c))
    case FromTilde(a, b, c) => Tilde(Numbered(a, b, c))
    case OnlyMajor(a) => Major(DigitValue(a))
  }

  /** Each number kept in 32 bits. */
  function Kept(v: Version): Version { Version(v.major % TWO32, v.minor % TWO32, v.patch % TWO32) }

  function KeptRange(r: Range): Range
    requires !r.Literally?
  {
    match r
    case Caret(base) => Caret(Kept(base))
    case Tilde(base) => Tilde(Kept(base))
    case Major(m) => Major(m % TWO32)
  }

  /** What is made of a range: each of its numbers modulo 2^32. */
  lemma RangeIsKept(w: Written)
    requires IsRange(w) && AllFit(w)
    ensures Spelled(w) != [] && ReadRange(Spelled(w)) == Ok(KeptRange(AsWritten(w)))
  {
    FitEach(w);
    if w.OnlyMajor? { MajorForm(w.a); } else { RangedForms(w.a, w.b, w.c); }
  }

  lemma NarrowIsKept(w: Written)
    requires IsRange(w) && AllFit(w) && NarrowRequest(w)
    ensures KeptRange(AsWritten(w)) == AsWritten(w)
  {
    assert DigitValue(Numerals(w)[0]) < TWO32;
    if !w.OnlyMajor? { assert DigitValue(Numerals(w)[1]) < TWO32 && DigitValue(Numerals(w)[2]) < TWO32; }
  }

  // ---- Supported texts in full ----

  /** Each part of a text, untruncated, fits 32 bits. */
  ghost predicate Narrow(text: Bytes) {
    ReadNumbers(text, 3).Numbers? ==>
      forall i :: 0 <= i < |ReadNumbers(text, 3).values| ==> ReadNumbers(text, 3).values[i] < TWO32
  }

  ghost predicate AllNarrow(supported: seq<Bytes>) {
    forall t :: t in supported ==> Narrow(t) && !ReadVersion(t).OutOfRange?
  }

  /** The version a text names, in full. */
  function Named(text: Bytes): Version
    requires ReadNumbers(text, 3).Numbers?
  {
    ReadCount(text, 3);
    var v := ReadNumbers(text, 3).values;
    Version(v[0], v[1], v[2])
  }

  lemma ReadsKept(text: Bytes)
    requires ReadNumbers(text, 3).Numbers?
    ensures ReadVersion(text) == Read(Kept(Named(text)))
  {
    ReadCount(text, 3);
  }

  /** A reading is the named version exactly when every part fits 32 bits. */
  lemma ReadsInFull(text: Bytes)
    requires ReadVersion(text).Read?
    ensures ReadVersion(text) == Read(Named(text)) <==> Narrow(text)
  {
    ReadCount(text, 3);
    var v := ReadNumbers(text, 3).values;
  }

  /** What a range request asks for, in numbers: `^X.Y.Z` takes X.Y.Z and what
      follows it under major X, `~X.Y.Z` what follows it under X.Y, `X` any
      version of major X. */
  predicate Satisfies(w: Written, v: Version)
    requires IsRange(w) && AllFit(w)
  {
    FitEach(w);
    match w
    case FromCaret(a, b, c) =>
      && v.major == DigitValue(a)
      && (v.minor > DigitValue(b) || (v.minor == DigitValue(b) && v.patch >= DigitValue(c)))
    case FromTilde(a, b, c) => v.major == DigitValue(a) && v.minor == DigitValue(b) && v.patch >= DigitValue(c)
    case OnlyMajor(a) => v.major == DigitValue(a)
  }

  /** The first of the three numbers to differ decides. */
  predicate Above(a: Version, b: Version) {
    || a.major > b.major
    || (a.major == b.major && a.minor > b.minor)
    || (a.major == b.major && a.minor == b.minor && a.patch > b.patch)
  }

  lemma LeqIs(a: Version, b: Version)
    ensures Leq(a, b) <==> !Above(a, b)
  {
  }

  lemma CoversIs(w: Written)
    requires IsRange(w) && AllFit(w)
    ensures forall v :: Covers(AsWritten(w), v) <==> Satisfies(w, v)
  {
  }

  ghost predicate ServesInFull(supported: seq<Bytes>, w: Written, text: Bytes)
    requires IsRange(w) && AllFit(w)
  {
    text in supported && ReadNumbers(text, 3).Numbers? && Satisfies(w, Named(text))
  }

  /** The outcome a range request asks for, all numbers in full: a supported
      version that satisfies it, none above it among them, or a refusal when
      there is none. */
  ghost predicate Right(w: Written, supported: seq<Bytes>, r: Result<Bytes, Error>)
    requires IsRange(w) && AllFit(w)
  {
    match r
    case Ok(text) =>
      && ServesInFull(supported, w, text)
      && forall other :: ServesInFull(supported, w, other) ==> !Above(Named(other), Named(text))
    case Err(_) => forall other :: !ServesInFull(supported, w, other)
  }

  /** From the request's text to the answer: with every number of the request
      and of the supported texts below 2^32, the outcome is right. */
  lemma NarrowIsRight(w: Written, supported: seq<Bytes>, fallback: Bytes, r: Result<Bytes, Error>)
    requires IsRange(w) && AllFit(w) && NarrowRequest(w) && AllNarrow(supported)
    requires Resolves(Some(Spelled(w)), supported, fallback, r)
    ensures Right(w, supported, r)
  {
    RangeIsKept(w);
    NarrowIsKept(w);
    CoversIs(w);
    var range := AsWritten(w);
    forall t ensures Serves(supported, range, t) <==> ServesInFull(supported, w, t) {
      if t in supported && ReadVersion(t).Read? { ReadsInFull(t); }
    }
    forall t | ServesInFull(supported, w, t) ensures ReadVersion(t) == Read(Named(t)) { ReadsInFull(t); }
  }

  // ---- A wide request ----

  /** The version, of kept numbers, that a wide range wrongly takes. */
  function Decoy(r: Range): Version
    requires !r.Literally?
  {
    match r
    case Caret(base) => Kept(base)
    case Tilde(base) => Kept(base)
    case Major(m) => Version(m % TWO32, 0, 0)
  }

  lemma DecoyIsTaken(r: Range)
    requires !r.Literally?
    ensures Covers(KeptRange(r), Decoy(r))
    ensures Covers(r, Decoy(r)) <==> KeptRange(r) == r
  {
  }

  lemma RenderedIsNarrow(v: Version)
    requires v == Kept(v)
    ensures ReadNumbers(Render(v), 3).Numbers? && Named(Render(v)) == v
    ensures ReadVersion(Render(v)) == Read(v) && AllNarrow([Render(v)])
  {
    DigitsValue(v.major);
    DigitsValue(v.minor);
    DigitsValue(v.patch);
    ReadSpelled(Render(v), Digits(v.major), Digits(v.minor), Digits(v.patch));
    ReadsInFull(Render(v));
  }

  lemma WideIsNotKept(w: Written)
    requires IsRange(w) && AllFit(w) && !NarrowRequest(w)
    ensures KeptRange(AsWritten(w)) != AsWritten(w)
  {
    var i :| 0 <= i < |Numerals(w)| && DigitValue(Numerals(w)[i]) >= TWO32;
  }

  /** A range with a number past 32 bits is answered a version it does not
      cover, by a worker whose own versions are all narrow. */
  lemma WideRequestIsWrong(w: Written, fallback: Bytes)
    requires IsRange(w) && AllFit(w) && !NarrowRequest(w)
    ensures var text := Render(Decoy(AsWritten(w)));
      && AllNarrow([text]) && Resolves(Some(Spelled(w)), [text], fallback, Ok(text))
      && !Right(w, [text], Ok(text))
  {
    var range := AsWritten(w);
    var text := Render(Decoy(range));
    RenderedIsNarrow(Decoy(range));
    RangeIsKept(w);
    DecoyIsTaken(range);
    WideIsNotKept(w);
    CoversIs(w);
    assert Highest([text], KeptRange(range), text);
  }

  /** A range request is right with every worker of narrow versions if and only
      if its own numbers are below 2^32. */
  lemma RequestExact(w: Written)
    requires IsRange(w) && AllFit(w)
    ensures (forall supported, fallback, r ::
               AllNarrow(supported) && Resolves(Some(Spelled(w)), supported, fallback, r) ==>
                 Right(w, supported, r))
      <==> NarrowRequest(w)
  {
    if NarrowRequest(w) {
      forall supported, fallback, r
        | AllNarrow(supported) && Resolves(Some(Spelled(w)), supported, fallback, r)
        ensures Right(w, supported, r)
      {
        NarrowIsRight(w, supported, fallback, r);
      }
    } else {
      WideRequestIsWrong(w, []);
    }
  }

  // ---- A wide supported text ----

  /** `~` before a version's own digits. */
  function TildeOf(v: Version): Written { FromTilde(Digits(v.major), Digits(v.minor), Digits(v.patch)) }

  lemma TildeOfIs(v: Version)
    requires v == Kept(v)
    ensures AllFit(TildeOf(v)) && NarrowRequest(TildeOf(v)) && AsWritten(TildeOf(v)) == Tilde(v)
  {
    DigitsValue(v.major);
    DigitsValue(v.minor);
    DigitsValue(v.patch);
  }

  /** A supported text with a part past 32 bits makes an outcome wrong, for a
      narrow request and beside a narrow version: either it is answered to a
      request that does not cover it, or the narrow one is answered though this
      one is covered and greater. */
  lemma WideTextIsWrong(text: Bytes, fallback: Bytes)
    requires ReadNumbers(text, 3).Numbers? && !Narrow(text)
    ensures var kept := Kept(Named(text));
      var w, supported := TildeOf(kept), [text] + [Render(kept)];
      && AllFit(w) && NarrowRequest(w) && AllNarrow([Render(kept)])
      && exists r :: Resolves(Some(Spelled(w)), supported, fallback, r) && !Right(w, supported, r)
  {
    var kept := Kept(Named(text));
    var w, other := TildeOf(kept), Render(kept);
    var supported := [text] + [other];
    TildeOfIs(kept);
    RangeIsKept(w);
    CoversIs(w);
    RenderedIsNarrow(kept);
    ReadsKept(text);
    ReadsInFull(text);
    assert Named(text) != kept;
    assert forall t :: t in supported <==> t == text || t == other;
    assert Highest(supported, Tilde(kept), text) && Highest(supported, Tilde(kept), other);
    assert Resolves(Some(Spelled(w)), supported, fallback, Ok(text));
    assert Resolves(Some(Spelled(w)), supported, fallback, Ok(other));
    if Covers(Tilde(kept), Named(text)) {
      assert ServesInFull(supported, w, text);
      assert Above(Named(text), kept);
      assert !Right(w, supported, Ok(other));
    } else {
      assert !Right(w, supported, Ok(text));
    }
  }

  /** A version text is right in every company of narrow versions and for every
      narrow range if and only if its own parts are below 2^32. */
  lemma TextExact(text: Bytes)
    requires ReadNumbers(text, 3).Numbers?
    ensures (forall w, others, fallback, r ::
               IsRange(w) && AllFit(w) && NarrowRequest(w) && AllNarrow(others)
               && Resolves(Some(Spelled(w)), [text] + others, fallback, r) ==>
                 Right(w, [text] + others, r))
      <==> Narrow(text)
  {
    if Narrow(text) {
      forall w, others, fallback, r
        | IsRange(w) && AllFit(w) && NarrowRequest(w) && AllNarrow(others)
          && Resolves(Some(Spelled(w)), [text] + others, fallback, r)
        ensures Right(w, [text] + others, r)
      {
        assert AllNarrow([text] + others);
        NarrowIsRight(w, [text] + others, fallback, r);
      }
    } else {
      WideTextIsWrong(text, []);
    }
  }

  /** The request 4294967297 is answered version 1.0.0. */
  lemma WideMajorRequest(fallback: Bytes)
    ensures var w, text := OnlyMajor(Digits(TWO32 + 1)), Render(Version(1, 0, 0));
      && AllFit(w) && Resolves(Some(Spelled(w)), [text], fallback, Ok(text)) && !Right(w, [text], Ok(text))
  {
    var w := OnlyMajor(Digits(TWO32 + 1));
    DigitsValue(TWO32 + 1);
    assert AllFit(w) && DigitValue(Numerals(w)[0]) >= TWO32;
    assert Decoy(AsWritten(w)) == Version(1, 0, 0);
    WideRequestIsWrong(w, fallback);
  }

  /** And a supported 4294967297.0.0 is answered to a request for major 1. */
  lemma WideMajorWraps()
    ensures var wide := Render(Version(TWO32 + 1, 0, 0));
      ReadNumbers(wide, 3).Numbers? && Highest([wide], Major(1), wide) && Named(wide).major != 1
  {
    var wide := Render(Version(TWO32 + 1, 0, 0));
    DigitsValue(TWO32 + 1);
    DigitsValue(0);
    ReadSpelled(wide, Digits(TWO32 + 1), Digits(0), Digits(0));
    assert ReadVersion(wide) == Read(Version(1, 0, 0));
  }

  // ---- The literal forms ----

  /** The text that an exact or an `X.Y` request pins, and its version. */
  function Pinned(w: Written): Bytes
    requires !IsRange(w)
  {
    match w
    case Exact(a, b, c) => Dotted(a, Dotted(b, c))
    case MajorMinor(a, b) => Dotted(a, Dotted(b, [48]))
  }

  function PinnedVersion(w: Written): Version
    requires !IsRange(w) && AllFit(w)
  {
    FitEach(w);
    match w
    case Exact(a, b, c) => Numbered(a, b, c)
    case MajorMinor(a, b) => Version(DigitValue(a), DigitValue(b), 0)
  }

  /** These answer the pinned text exactly when it is supported, and it names
      the version written, however wide its numbers. */
  lemma LiteralIsRight(w: Written, supported: seq<Bytes>, fallback: Bytes, r: Result<Bytes, Error>)
    requires !IsRange(w) && AllFit(w) && Resolves(Some(Spelled(w)), supported, fallback, r)
    requires forall t :: t in supported ==> !ReadVersion(t).OutOfRange?
    ensures Spelled(w) != [] && r == if Pinned(w) in supported then Ok(Pinned(w)) else Err(Unsupported)
    ensures ReadNumbers(Pinned(w), 3).Numbers? && Named(Pinned(w)) == PinnedVersion(w)
  {
    FitEach(w);
    if w.Exact? {
      ExactForm(w.a, w.b, w.c);
      ReadSpelled(Pinned(w), w.a, w.b, w.c);
    } else {
      MinorForm(w.a, w.b);
      var zero: Bytes := [48];
      assert zero[..0] == [];
      assert Fits(zero) && DigitValue(zero) == 0;
      ReadSpelled(Pinned(w), w.a, w.b, zero);
    }
  }

  // ---- Numbers past 64 bits ----

  lemma HugeFirst(a: Bytes, rest: Bytes, n: nat)
    requires Numeral(a) && !Fits(a) && n > 0 && (rest == [] || !IsDigit(rest[0]))
    ensures ReadNumbers(a + rest, n) == TooLarge
  {
    RunOfNumeral(a, rest);
  }

  lemma HugeDotted(a: Bytes, rest: Bytes, n: nat)
    requires Numeral(a) && n > 1 && (Fits(a) ==> ReadNumbers(rest, n - 1) == TooLarge)
    ensures ReadNumbers(Dotted(a, rest), n) == TooLarge
  {
    if Fits(a) {
      ReadDotted(a, rest, n);
    } else {
      assert Dotted(a, rest) == a + ([DOT] + rest);
      HugeFirst(a, [DOT] + rest, n);
    }
  }

  lemma HugeLast(a: Bytes, n: nat)
    requires Numeral(a) && !Fits(a) && n > 0
    ensures ReadNumbers(a, n) == TooLarge
  {
    assert a + [] == a;
    HugeFirst(a, [], n);
  }

  /** Three numerals, one of them past 64 bits. */
  lemma HugeTriple(a: Bytes, b: Bytes, c: Bytes)
    requires Numeral(a) && Numeral(b) && Numeral(c) && !(Fits(a) && Fits(b) && Fits(c))
    ensures ReadVersion(Dotted(a, Dotted(b, c))) == OutOfRange
  {
    if !Fits(c) { HugeLast(c, 1); }
    if Fits(a) { HugeDotted(b, c, 2); }
    HugeDotted(a, Dotted(b, c), 3);
  }

  /** A supported version with a number past 64 bits makes every request raise,
      whatever it asks for. */
  lemma HugeSupported(spec: Bytes, supported: seq<Bytes>, fallback: Bytes, a: Bytes, b: Bytes, c: Bytes,
                      r: Result<Bytes, Error>)
    requires Numeral(a) && Numeral(b) && Numeral(c) && !(Fits(a) && Fits(b) && Fits(c))
    requires Dotted(a, Dotted(b, c)) in supported && spec != [] && Resolves(Some(spec), supported, fallback, r)
    ensures r == Err(NumberOutOfRange)
  {
    HugeTriple(a, b, c);
  }

  /** A request of any form with a number past 64 bits raises, and nothing
      catches it. */
  lemma HugeRequest(w: Written)
    requires AllNumerals(w) && !AllFit(w)
    ensures Spelled(w) != [] && ReadRange(Spelled(w)) == Err(NumberOutOfRange)
  {
    assert Numeral(Numerals(w)[0]);
    match w
    case Exact(a, b, c) =>
      assert Numeral(Numerals(w)[1]) && Numeral(Numerals(w)[2]);
      HugeTriple(a, b, c);
    case FromCaret(a, b, c) =>
      assert Numeral(Numerals(w)[1]) && Numeral(Numerals(w)[2]);
      HugeTriple(a, b, c);
      assert Spelled(w)[1..] == Dotted(a, Dotted(b, c)) && DigitRun(Spelled(w)) == 0;
    case FromTilde(a, b, c) =>
      assert Numeral(Numerals(w)[1]) && Numeral(Numerals(w)[2]);
      HugeTriple(a, b, c);
      assert Spelled(w)[1..] == Dotted(a, Dotted(b, c)) && DigitRun(Spelled(w)) == 0;
    case OnlyMajor(a) => HugeLast(a, 3);
    case MajorMinor(a, b) =>
      assert Numeral(Numerals(w)[1]);
      if !Fits(b) { HugeLast(b, 2); }
      HugeDotted(a, b, 3);
  }

  // ---- Requests without a dot ----

  predicate AllSpaces(s: Bytes) { forall i :: 0 <= i < |s| ==> IsSpace(s[i]) }

  predicate IsSign(s: Bytes) { s == [] || s == [43] || s == [45] }

  /** White space, an optional sign, a numeral of at most 64 bits, and then
      anything that is no further digit. */
  predicate SpellsNumber(s: Bytes, spaces: Bytes, sign: Bytes, d: Bytes, rest: Bytes) {
    && s == spaces + (sign + (d + rest)) && AllSpaces(spaces) && IsSign(sign)
    && Fits(d) && (rest == [] || !IsDigit(rest[0]))
  }

  function NumberSpelled(sign: Bytes, d: Bytes): int
    requires Fits(d)
  {
    if sign == [45] then -(DigitValue(d) as int) else DigitValue(d)
  }

  lemma {:induction false} SkipSpacesOver(spaces: Bytes, t: Bytes)
    requires AllSpaces(spaces) && t != [] && !IsSpace(t[0])
    ensures SkipSpaces(spaces + t) == t
  {
    if spaces == [] {
      assert spaces + t == t;
    } else {
      assert (spaces + t)[1..] == spaces[1..] + t;
      SkipSpacesOver(spaces[1..], t);
    }
  }

  lemma {:induction false} SkipSpacesIs(s: Bytes) returns (spaces: Bytes)
    ensures AllSpaces(spaces) && s == spaces + SkipSpaces(s)
    ensures SkipSpaces(s) == [] || !IsSpace(SkipSpaces(s)[0])
  {
    if s != [] && IsSpace(s[0]) {
      var more := SkipSpacesIs(s[1..]);
      spaces := [s[0]] + more;
      assert s == [s[0]] + s[1..];
    } else {
      spaces := [];
    }
  }

  /** What `stoul` makes of such a text: the number in 64 bits. */
  lemma StoulOf(s: Bytes, spaces: Bytes, sign: Bytes, d: Bytes, rest: Bytes)
    requires SpellsNumber(s, spaces, sign, d, rest)
    ensures Stoul(s) == Some(NumberSpelled(sign, d) % TWO64)
  {
    var t := sign + (d + rest);
    assert IsDigit(d[0]);
    assert t[0] == (if sign == [] then d[0] else sign[0]);
    SkipSpacesOver(spaces, t);
    RunOfNumeral(d, rest);
    if sign == [] { assert t == d + rest; } else { assert t[1..] == d + rest; }
  }

  /** A leading number and what follows it. */
  lemma SplitRun(digits: Bytes) returns (d: Bytes, rest: Bytes)
    requires DigitRun(digits) > 0 && LeadingValue(digits) < TWO64
    ensures digits == d + rest && Fits(d) && (rest == [] || !IsDigit(rest[0]))
  {
    var run := DigitRun(digits);
    d, rest := digits[..run], digits[run..];
    DigitRunDigits(digits);
    RunStops(digits);
  }

  lemma SplitSign(t: Bytes) returns (sign: Bytes, digits: Bytes)
    ensures IsSign(sign) && t == sign + digits
    ensures var signed := t != [] && (t[0] == 43 || t[0] == 45); digits == if signed then t[1..] else t
  {
    if t != [] && (t[0] == 43 || t[0] == 45) { sign, digits := [t[0]], t[1..]; } else { sign, digits := [], t; }
  }

  /** And it reads nothing else. */
  lemma StoulReads(s: Bytes) returns (spaces: Bytes, sign: Bytes, d: Bytes, rest: Bytes)
    requires Stoul(s).Some?
    ensures SpellsNumber(s, spaces, sign, d, rest)
  {
    var digits;
    spaces := SkipSpacesIs(s);
    sign, digits := SplitSign(SkipSpaces(s));
    d, rest := SplitRun(digits);
  }

  lemma {:induction false} RunStops(s: Bytes)
    ensures DigitRun(s) == |s| || !IsDigit(s[DigitRun(s)])
  {
    if s != [] && IsDigit(s[0]) { RunStops(s[1..]); }
  }

  lemma {:induction false} NoDots(s: Bytes)
    requires FirstDot(s) == |s|
    ensures forall i :: 0 <= i < |s| ==> s[i] != DOT
  {
    if s != [] {
      NoDots(s[1..]);
      assert forall i :: 0 < i < |s| ==> s[i] == s[1..][i - 1];
    }
  }

  /** A text without a dot is no version, and only a leading number past 64 bits
      makes the attempt raise. */
  lemma DotFreeIsNoVersion(s: Bytes)
    requires FirstDot(s) == |s|
    ensures ReadVersion(s) == if DigitRun(s) > 0 && LeadingValue(s) >= TWO64 then OutOfRange else NotVersion
  {
    NoDots(s);
  }

  /** A request without a dot is accepted if and only if it is white space, an
      optional sign, a numeral of at most 64 bits and then anything. It then
      means the number modulo 2^32, which is the number spelled if and only if
      that is from 0 up to 2^32. */
  lemma DotFreeExact(spec: Bytes)
    requires spec != [] && FirstDot(spec) == |spec|
    ensures ReadRange(spec).Ok? <==> exists spaces, sign, d, rest :: SpellsNumber(spec, spaces, sign, d, rest)
    ensures forall spaces, sign, d, rest :: SpellsNumber(spec, spaces, sign, d, rest) ==>
      MeansNumber(spec, NumberSpelled(sign, d))
  {
    if ReadRange(spec).Ok? {
      DotFreeRead(spec);
      var spaces, sign, d, rest := StoulReads(spec);
    }
    forall spaces, sign, d, rest | SpellsNumber(spec, spaces, sign, d, rest)
      ensures MeansNumber(spec, NumberSpelled(sign, d))
    {
      DotFreeSpelled(spec, spaces, sign, d, rest);
    }
  }

  /** The request is one for that major modulo 2^32, and for that very major
      exactly where it fits. */
  predicate MeansNumber(spec: Bytes, n: int)
    requires spec != []
  {
    ReadRange(spec) == Ok(Major(n % TWO32)) && (n % TWO32 == n <==> 0 <= n < TWO32)
  }

  /** A dot-free request is accepted only through `stoul`. */
  lemma DotFreeRead(spec: Bytes)
    requires spec != [] && FirstDot(spec) == |spec| && ReadRange(spec).Ok?
    ensures Stoul(spec).Some?
  {
    DotFreeIsNoVersion(spec);
    DotFreeTail(spec);
    DotFreeIsNoVersion(spec[1..]);
  }

  lemma DotFreeTail(s: Bytes)
    requires s != [] && FirstDot(s) == |s|
    ensures FirstDot(s[1..]) == |s[1..]|
  {
  }

  lemma DotFreeSpelled(spec: Bytes, spaces: Bytes, sign: Bytes, d: Bytes, rest: Bytes)
    requires spec != [] && FirstDot(spec) == |spec| && SpellsNumber(spec, spaces, sign, d, rest)
    ensures MeansNumber(spec, NumberSpelled(sign, d))
  {
    var n := NumberSpelled(sign, d);
    StoulOf(spec, spaces, sign, d, rest);
    SpelledStart(spec, spaces, sign, d, rest);
    DotFreeStoul(spec, n % TWO64);
    ModOfMod(n);
    ModIsSelf(n);
  }

  lemma DotFreeStoul(spec: Bytes, m: nat)
    requires spec != [] && FirstDot(spec) == |spec| && spec[0] != CARET && spec[0] != TILDE
    requires DigitRun(spec) == 0 || LeadingValue(spec) < TWO64
    requires Stoul(spec) == Some(m)
    ensures ReadRange(spec) == Ok(Major(m % TWO32))
  {
    DotFreeIsNoVersion(spec);
  }

  lemma ModIsSelf(n: int)
    ensures n % TWO32 == n <==> 0 <= n < TWO32
  {
  }

  lemma SpelledStart(spec: Bytes, spaces: Bytes, sign: Bytes, d: Bytes, rest: Bytes)
    requires SpellsNumber(spec, spaces, sign, d, rest)
    ensures spec != [] && spec[0] != CARET && spec[0] != TILDE
    ensures DigitRun(spec) == 0 || LeadingValue(spec) < TWO64
  {
    assert IsDigit(d[0]);
    if spaces != [] {
      assert spec[0] == spaces[0];
    } else if sign != [] {
      assert spec == sign + (d + rest);
      assert spec[0] == sign[0];
    } else {
      assert spec == d + rest;
      RunOfNumeral(d, rest);
    }
  }

  lemma ModOfMod(n: int)
    ensures (n % TWO64) % TWO32 == n % TWO32
  {
    var q := n / TWO64;
    assert n == TWO64 * q + n % TWO64;
    assert TWO64 * q == TWO32 * (TWO32 * q);
    ModPlus(n % TWO64, TWO32 * q);
  }

  lemma ModPlus(a: nat, k: int)
    ensures (TWO32 * k + a) % TWO32 == a % TWO32
  {
  }

  /** So a minus wraps around: this request means major 1. */
  lemma NegativeMajorWraps()
    ensures ReadRange([45] + Digits(TWO32 - 1)) == Ok(Major(1))
  {
    var d := Digits(TWO32 - 1);
    var spec := [45] + d;
    DigitsValue(TWO32 - 1);
    NoDotInNumeral(d);
    assert spec[1..] == d;
    assert spec == [] + ([45] + (d + []));
    assert SpellsNumber(spec, [], [45], d, []);
    DotFreeSpelled(spec, [], [45], d, []);
  }
}
