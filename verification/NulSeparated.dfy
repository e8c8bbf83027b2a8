/** Text fields separated by NUL bytes. */
module NulSeparated {
  import opened Basics

  predicate NulFree(s: Bytes) { forall i :: 0 <= i < |s| ==> s[i] != 0 }

  /** The position of the first NUL, or the length: `find('\0')`. */
  function FirstNul(s: Bytes): (i: nat)
    ensures i <= |s| && NulFree(s[..i]) && (i < |s| ==> s[i] == 0)
  {
    if s == [] || s[0] == 0 then 0
    else
      var i := 1 + FirstNul(s[1..]);
      assert s[..i] == [s[0]] + s[1..][..i - 1];
      i
  }

  /** The first NUL after a NUL-free prefix is where that prefix ends. */
  lemma {:induction false} FirstNulAt(f: Bytes, rest: Bytes)
    requires NulFree(f)
    ensures FirstNul(f + [0] + rest) == |f|
    ensures (f + [0] + rest)[..|f|] == f && (f + [0] + rest)[|f| + 1..] == rest
  {
    if f != [] {
      assert (f + [0] + rest)[1..] == f[1..] + [0] + rest;
      FirstNulAt(f[1..], rest);
    }
  }

  lemma {:induction false} FirstNulNone(f: Bytes)
    ensures FirstNul(f) == |f| <==> NulFree(f)
  {
    if f != [] {
      FirstNulNone(f[1..]);
      assert NulFree(f) <==> f[0] != 0 && NulFree(f[1..]) by {
        assert forall i :: 0 <= i < |f[1..]| ==> f[1..][i] == f[i + 1];
        assert forall i :: 0 < i < |f| ==> f[i] == f[1..][i - 1];
      }
    }
  }

  function Split(s: Bytes): (fields: seq<Bytes>)
    ensures |fields| >= 1
    decreases |s|
  {
    var i := FirstNul(s);
    if i == |s| then [s] else [s[..i]] + Split(s[i + 1..])
  }

  /** Splitting undoes one separator after a NUL-free field. */
  lemma SplitCons(f: Bytes, rest: Bytes)
    requires NulFree(f)
    ensures Split(f + [0] + rest) == [f] + Split(rest)
  {
    FirstNulAt(f, rest);
  }

  lemma SplitOne(f: Bytes)
    requires NulFree(f)
    ensures Split(f) == [f]
  {
    FirstNulNone(f);
  }

  /** A separator splits a text at that point, whatever its sides hold. */
  lemma {:induction false} SplitJoined(a: Bytes, b: Bytes)
    ensures Split(a + [0] + b) == Split(a) + Split(b)
    decreases |a|
  {
    var i := FirstNul(a);
    if i == |a| {
      FirstNulNone(a);
      SplitCons(a, b);
    } else {
      var head, tail := a[..i], a[i + 1..];
      var rest := tail + [0] + b;
      Regroup(a, i, b);
      SplitCons(head, rest);
      SplitJoined(tail, b);
      Associate(head, Split(tail), Split(b));
    }
  }

  lemma Associate(x: Bytes, a: seq<Bytes>, b: seq<Bytes>)
    ensures [x] + (a + b) == ([x] + a) + b
  {
  }

  lemma Regroup(a: Bytes, i: nat, b: Bytes)
    requires i < |a| && a[i] == 0
    ensures a + [0] + b == a[..i] + [0] + (a[i + 1..] + [0] + b)
  {
    assert a == a[..i] + [0] + a[i + 1..];
  }

  lemma SplitCount(a: Bytes, b: Bytes)
    ensures |Split(a + [0] + b)| == |Split(a)| + |Split(b)|
  {
    SplitJoined(a, b);
  }

  lemma SplitCountOne(a: Bytes)
    ensures |Split(a)| == 1 <==> NulFree(a)
  {
    FirstNulNone(a);
  }

  /** The splitting loop. */
  method SplitFields(value: Bytes) returns (fields: seq<Bytes>)
    ensures fields == Split(value)
  {
    fields := [];
    var start := 0;
    assert value[0..] == value;
    while true
      invariant 0 <= start <= |value|
      invariant fields + Split(value[start..]) == Split(value)
      decreases |value| - start
    {
      ghost var rest := value[start..];
      var i := FirstNul(value[start..]);
      if start + i == |value| {
        fields := fields + [value[start..]];
        return;
      }
      assert rest[..i] == value[start..start + i];
      assert rest[i + 1..] == value[start + i + 1..];
      assert fields + ([rest[..i]] + Split(rest[i + 1..])) == (fields + [rest[..i]]) + Split(rest[i + 1..]);
      fields := fields + [value[start..start + i]];
      start := start + i + 1;
    }
  }
}
