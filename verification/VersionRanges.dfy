/** The supported version a request resolves to (src/catalog.cpp,
    `resolve_version_npm`). */
module VersionRanges {
  import opened Basics
  import opened Decimals
  import opened Versions

  // ---- Reading a request ----

  predicate IsSpace(b: byte) { b == 32 || 9 <= b <= 13 }

  function SkipSpaces(s: Bytes): Bytes {
    if s != [] && IsSpace(s[0]) then SkipSpaces(s[1..]) else s
  }

  /** `stoul`: leading white space, a sign, digits, then anything. A minus
      negates in 64 bits; no digits or a number past 64 bits raises. */
  function Stoul(s: Bytes): Option<nat> {
    var t := SkipSpaces(s);
    var signed := t != [] && (t[0] == 43 || t[0] == 45);
    var digits := if signed then t[1..] else t;
    if DigitRun(digits) == 0 || LeadingValue(digits) >= TWO64 then None
    else if signed && t[0] == 45 then Some((TWO64 - LeadingValue(digits)) % TWO64)
    else Some(LeadingValue(digits))
  }

  datatype Error = Unsupported | NumberOutOfRange

  /** What a request asks for. The exact and the `X.Y` form name one text. */
  datatype Range =
    | Literally(text: Bytes)
    | Caret(base: Version)
    | Tilde(base: Version)
    | Major(major: nat)

  const CARET: byte := 94
  const TILDE: byte := 126

  function FirstDot(s: Bytes): (i: nat)
    ensures i <= |s| && (i < |s| ==> s[i] == DOT)
  {
    if s == [] || s[0] == DOT then 0 else 1 + FirstDot(s[1..])
  }

  function ReadRange(spec: Bytes): Result<Range, Error>
    requires spec != []
  {
    match ReadVersion(spec)
    case OutOfRange => Err(NumberOutOfRange)
    case Read(_) => Ok(Literally(spec))
    case NotVersion =>
      if spec[0] == CARET || spec[0] == TILDE then
        match ReadVersion(spec[1..])
        case Read(base) => Ok(if spec[0] == CARET then Caret(base) else Tilde(base))
        case NotVersion => Err(Unsupported)
        case OutOfRange => Err(NumberOutOfRange)
      else
        var dot := FirstDot(spec);
        if dot == |spec| then
          match Stoul(spec)
          case Some(n) => Ok(Major(n % TWO32))
          case None => Err(Unsupported)
        else if FirstDot(spec[dot + 1..]) == |spec| - dot - 1 then Ok(Literally(spec + [DOT, 48]))
        else Err(Unsupported)
  }

  /** A caret keeps the major, a tilde the major and the minor, and neither
      goes below its base; a bare major takes any of its own. */
  predicate Covers(range: Range, v: Version)
    requires !range.Literally?
  {
    match range
    case Caret(base) => v.major == base.major && Leq(base, v)
    case Tilde(base) => v.major == base.major && v.minor == base.minor && Leq(base, v)
    case Major(major) => v.major == major
  }

  // ---- What a request resolves to ----

  predicate Serves(supported: seq<Bytes>, range: Range, text: Bytes)
    requires !range.Literally?
  {
    text in supported && ReadVersion(text).Read? && Covers(range, ReadVersion(text).version)
  }

  /** A supported version that the range covers, none greater among them. */
  ghost predicate Highest(supported: seq<Bytes>, range: Range, text: Bytes)
    requires !range.Literally?
  {
    && Serves(supported, range, text)
    && (forall other :: Serves(supported, range, other) ==>
          Leq(ReadVersion(other).version, ReadVersion(text).version))
  }

  ghost predicate Resolves(spec: Option<Bytes>, supported: seq<Bytes>, fallback: Bytes, r: Result<Bytes, Error>) {
    if spec.None? || spec.value == [] then r == Ok(fallback)
    else if exists t :: t in supported && ReadVersion(t).OutOfRange? then r == Err(NumberOutOfRange)
    else
      match ReadRange(spec.value)
      case Err(e) => r == Err(e)
      case Ok(range) =>
        if range.Literally? then r == if range.text in supported then Ok(range.text) else Err(Unsupported)
        else if r.Ok? then Highest(supported, range, r.value)
        else r == Err(Unsupported) && forall t :: !Serves(supported, range, t)
  }

  // ---- Sorting and searching ----

  datatype Candidate = Candidate(version: Version, text: Bytes)

  predicate Sorted(s: seq<Candidate>) { forall i, j :: 0 <= i < j < |s| ==> Leq(s[i].version, s[j].version) }

  function Insert(c: Candidate, s: seq<Candidate>): seq<Candidate> {
    if s == [] || Leq(c.version, s[0].version) then [c] + s else [s[0]] + Insert(c, s[1..])
  }

  function Sort(s: seq<Candidate>): seq<Candidate> {
    if s == [] then [] else Insert(s[0], Sort(s[1..]))
  }

  lemma {:induction false} InsertKeeps(c: Candidate, s: seq<Candidate>, x: Candidate)
    ensures x in Insert(c, s) <==> x == c || x in s
  {
    if !(s == [] || Leq(c.version, s[0].version)) {
      InsertKeeps(c, s[1..], x);
      assert s == [s[0]] + s[1..];
    }
  }

  lemma {:induction false} InsertSorts(c: Candidate, s: seq<Candidate>)
    requires Sorted(s)
    ensures Sorted(Insert(c, s))
  {
    if !(s == [] || Leq(c.version, s[0].version)) {
      InsertSorts(c, s[1..]);
      var r := Insert(c, s[1..]);
      forall i | 0 <= i < |r| ensures Leq(s[0].version, r[i].version) {
        InsertKeeps(c, s[1..], r[i]);
        assert r[i] in r;
      }
    }
  }

  lemma {:induction false} SortSorts(s: seq<Candidate>)
    ensures Sorted(Sort(s)) && forall x :: x in Sort(s) <==> x in s
  {
    if s != [] {
      SortSorts(s[1..]);
      InsertSorts(s[0], Sort(s[1..]));
      forall x ensures x in Sort(s) <==> x in s {
        InsertKeeps(s[0], Sort(s[1..]), x);
        assert s == [s[0]] + s[1..];
      }
    }
  }

  /** The candidates are the supported texts that read as versions. */
  ghost predicate Lists(candidates: seq<Candidate>, supported: seq<Bytes>) {
    forall c :: c in candidates <==> c.text in supported && ReadVersion(c.text) == Read(c.version)
  }

  method ReadSupported(supported: seq<Bytes>) returns (r: Option<seq<Candidate>>)
    ensures r.None? <==> exists t :: t in supported && ReadVersion(t).OutOfRange?
    ensures r.Some? ==> Lists(r.value, supported)
  {
    var out: seq<Candidate> := [];
    for i := 0 to |supported|
      invariant Lists(out, supported[..i])
      invariant forall t :: t in supported[..i] ==> !ReadVersion(t).OutOfRange?
    {
      assert supported[..i + 1] == supported[..i] + [supported[i]];
      var read := ParseSemver(supported[i]);
      if read.OutOfRange? { return None; }
      if read.Read? { out := out + [Candidate(read.version, supported[i])]; }
    }
    assert supported[..|supported|] == supported;
    return Some(out);
  }

  /** A candidate the range covers, none greater among them. */
  ghost predicate Tops(candidates: seq<Candidate>, range: Range, c: Candidate)
    requires !range.Literally?
  {
    && c in candidates && Covers(range, c.version)
    && forall d :: d in candidates && Covers(range, d.version) ==> Leq(d.version, c.version)
  }

  /** The search, highest first. */
  method Best(candidates: seq<Candidate>, range: Range) returns (r: Option<Candidate>)
    requires Sorted(candidates) && !range.Literally?
    ensures r.Some? ==> Tops(candidates, range, r.value)
    ensures r.None? ==> forall d :: d in candidates ==> !Covers(range, d.version)
  {
    var i := |candidates|;
    while i > 0
      invariant 0 <= i <= |candidates|
      invariant forall j :: i <= j < |candidates| ==> !Covers(range, candidates[j].version)
    {
      i := i - 1;
      if Covers(range, candidates[i].version) {
        LastCoveredTops(candidates, range, i);
        return Some(candidates[i]);
      }
    }
    return None;
  }

  lemma LastCoveredTops(candidates: seq<Candidate>, range: Range, i: nat)
    requires Sorted(candidates) && !range.Literally? && i < |candidates|
    requires Covers(range, candidates[i].version)
    requires forall j :: i < j < |candidates| ==> !Covers(range, candidates[j].version)
    ensures Tops(candidates, range, candidates[i])
  {
    forall d | d in candidates && Covers(range, d.version) ensures Leq(d.version, candidates[i].version) {
      var j :| 0 <= j < |candidates| && candidates[j] == d;
      assert j <= i;
    }
  }

  method ResolveVersion(spec: Option<Bytes>, supported: seq<Bytes>, fallback: Bytes) returns (r: Result<Bytes, Error>)
    ensures Resolves(spec, supported, fallback, r)
  {
    if spec.None? || spec.value == [] { return Ok(fallback); }
    var candidates := ReadSupported(supported);
    if candidates.None? { return Err(NumberOutOfRange); }
    var sorted := Sort(candidates.value);
    SortSorts(candidates.value);
    var range := ReadRange(spec.value);
    if range.Err? { return Err(range.error); }
    if range.value.Literally? {
      return if range.value.text in supported then Ok(range.value.text) else Err(Unsupported);
    }
    var best := Best(sorted, range.value);
    BestIsHighest(candidates.value, sorted, supported, range.value, best);
    return if best.Some? then Ok(best.value.text) else Err(Unsupported);
  }

  lemma BestIsHighest(candidates: seq<Candidate>, sorted: seq<Candidate>, supported: seq<Bytes>, range: Range,
                      best: Option<Candidate>)
    requires Lists(candidates, supported) && !range.Literally?
    requires forall x :: x in sorted <==> x in candidates
    requires best.Some? ==> Tops(sorted, range, best.value)
    requires best.None? ==> forall d :: d in sorted ==> !Covers(range, d.version)
    ensures best.Some? ==> Highest(supported, range, best.value.text)
    ensures best.None? ==> forall t :: !Serves(supported, range, t)
  {
    forall t | Serves(supported, range, t)
      ensures Candidate(ReadVersion(t).version, t) in sorted
    {
      assert Candidate(ReadVersion(t).version, t) in candidates;
    }
  }

  /** The highest covered version is one version: two texts that are both
      highest read alike. */
  lemma HighestIsUnique(supported: seq<Bytes>, range: Range, a: Bytes, b: Bytes)
    requires !range.Literally? && Highest(supported, range, a) && Highest(supported, range, b)
    ensures ReadVersion(a) == ReadVersion(b)
  {
  }

  // ---- The five forms ----

  lemma {:induction false} NoDotInNumeral(s: Bytes)
    requires forall i :: 0 <= i < |s| ==> IsDigit(s[i])
    ensures FirstDot(s) == |s|
  {
    if s != [] { NoDotInNumeral(s[1..]); }
  }

  lemma {:induction false} FirstDotAfter(s: Bytes, rest: Bytes)
    requires forall i :: 0 <= i < |s| ==> IsDigit(s[i])
    ensures FirstDot(Dotted(s, rest)) == |s|
  {
    if s != [] {
      FirstDotAfter(s[1..], rest);
      assert Dotted(s, rest)[1..] == Dotted(s[1..], rest);
    }
  }

  lemma OneNumberIsNoVersion(a: Bytes, n: nat)
    requires Fits(a) && n > 1
    ensures ReadNumbers(a, n) == Malformed
  {
    assert a + [] == a;
    RunOfNumeral(a, []);
  }

  /** `X.Y.Z` is taken literally. */
  lemma ExactForm(a: Bytes, b: Bytes, c: Bytes)
    requires Fits(a) && Fits(b) && Fits(c)
    ensures var spec := Dotted(a, Dotted(b, c)); ReadRange(spec) == Ok(Literally(spec))
  {
    ReadSpelled(Dotted(a, Dotted(b, c)), a, b, c);
  }

  /** `^X.Y.Z` and `~X.Y.Z` are ranges from `X.Y.Z`. */
  lemma RangedForms(a: Bytes, b: Bytes, c: Bytes)
    requires Fits(a) && Fits(b) && Fits(c)
    ensures var text := Dotted(a, Dotted(b, c));
      var base := Truncated([DigitValue(a), DigitValue(b), DigitValue(c)]);
      && ReadRange([CARET] + text) == Ok(Caret(base))
      && ReadRange([TILDE] + text) == Ok(Tilde(base))
  {
    var text := Dotted(a, Dotted(b, c));
    ReadSpelled(text, a, b, c);
    assert ([CARET] + text)[1..] == text && ([TILDE] + text)[1..] == text;
    assert DigitRun([CARET] + text) == 0 && DigitRun([TILDE] + text) == 0;
  }

  /** `X` is a major. */
  lemma MajorForm(a: Bytes)
    requires Fits(a)
    ensures ReadRange(a) == Ok(Major(DigitValue(a) % TWO32))
  {
    OneNumberIsNoVersion(a, 3);
    NoDotInNumeral(a);
    assert a + [] == a;
    RunOfNumeral(a, []);
    assert IsDigit(a[0]);
  }

  /** `X.Y` pins the text `X.Y.0`, which reads as that version. */
  lemma MinorForm(a: Bytes, b: Bytes)
    requires Fits(a) && Fits(b)
    ensures var text := Dotted(a, Dotted(b, [48]));
      && ReadRange(Dotted(a, b)) == Ok(Literally(text))
      && ReadVersion(text) == Read(Truncated([DigitValue(a), DigitValue(b), 0]))
  {
    var spec := Dotted(a, b);
    OneNumberIsNoVersion(b, 2);
    ReadDotted(a, b, 3);
    assert ReadVersion(spec) == NotVersion;
    FirstDotAfter(a, b);
    NoDotInNumeral(b);
    assert spec[|a| + 1..] == b;
    assert IsDigit(spec[0]);
    var zero: Bytes := [48];
    assert zero[..0] == [];
    assert Fits(zero) && DigitValue(zero) == 0;
    assert spec + [DOT, 48] == Dotted(a, Dotted(b, zero));
    ReadSpelled(Dotted(a, Dotted(b, zero)), a, b, zero);
  }
}
