/** The schema paths of a catalog snapshot (src/catalog_contents.cpp,
    `path_key`, `check_paths`, `sort_parents_first`). */
module SchemaPaths {
  import opened Basics
  import opened NulSeparated

  /** One schema with the encoded items of every kind it holds. */
  datatype SchemaContents = SchemaContents(
    path: Path,
    info: Bytes,
    tables: seq<Bytes>,
    views: seq<Bytes>,
    scalarFunctions: seq<Bytes>,
    aggregateFunctions: seq<Bytes>,
    tableFunctions: seq<Bytes>,
    scalarMacros: seq<Bytes>,
    tableMacros: seq<Bytes>,
    indexes: seq<Bytes>)

  /** Why a handler's table cannot be served: it is refused, or its records
      make the check read an optional that holds nothing. */
  datatype TableFault = Refused | ReadsAbsent

  // ---- Path keys ----

  /** The components, separated by NUL bytes. */
  function PathKey(path: Path): Bytes {
    if path == [] then [] else if |path| == 1 then path[0] else path[0] + [0] + PathKey(path[1..])
  }

  predicate NulFreePath(path: Path) { forall i :: 0 <= i < |path| ==> NulFree(path[i]) }

  /** A path with every component cut at its NUL bytes. */
  function Flatten(path: Path): Path {
    if path == [] then [] else Split(path[0]) + Flatten(path[1..])
  }

  lemma {:induction false} SplitPathKey(path: Path)
    requires path != []
    ensures Split(PathKey(path)) == Flatten(path)
  {
    if |path| == 1 {
      assert Flatten(path[1..]) == [];
    } else {
      SplitPathKey(path[1..]);
      SplitJoined(path[0], PathKey(path[1..]));
    }
  }

  /** Joining the fields of a split gives the text back. */
  lemma {:induction false} KeyOfSplit(s: Bytes)
    ensures PathKey(Split(s)) == s
    decreases |s|
  {
    var i := FirstNul(s);
    if i < |s| {
      KeyOfSplit(s[i + 1..]);
      assert Split(s)[1..] == Split(s[i + 1..]);
      assert s == s[..i] + [0] + s[i + 1..];
    }
  }

  /** Two paths share a key exactly when they flatten to the same path. */
  lemma KeysAlias(p: Path, q: Path)
    requires p != [] && q != []
    ensures PathKey(p) == PathKey(q) <==> Flatten(p) == Flatten(q)
  {
    SplitPathKey(p);
    SplitPathKey(q);
    KeyOfSplit(PathKey(p));
    KeyOfSplit(PathKey(q));
  }

  lemma {:induction false} FlattenNulFree(path: Path)
    requires NulFreePath(path)
    ensures Flatten(path) == path
  {
    if path != [] {
      SplitOne(path[0]);
      assert NulFreePath(path[1..]);
      FlattenNulFree(path[1..]);
      assert path == [path[0]] + path[1..];
    }
  }

  /** NUL-free paths have a key each. */
  lemma PathKeyInjective(p: Path, q: Path)
    requires p != [] && q != [] && NulFreePath(p) && NulFreePath(q)
    ensures PathKey(p) == PathKey(q) <==> p == q
  {
    KeysAlias(p, q);
    FlattenNulFree(p);
    FlattenNulFree(q);
  }

  lemma {:induction false} PathKeySnoc(path: Path, last: Bytes)
    ensures PathKey(path + [last]) == if path == [] then last else PathKey(path) + [0] + last
  {
    if path != [] {
      PathKeySnoc(path[1..], last);
      assert (path + [last])[1..] == path[1..] + [last];
      if |path| > 1 {
        assert path[0] + [0] + (PathKey(path[1..]) + [0] + last) == (path[0] + [0] + PathKey(path[1..])) + [0] + last;
      }
    }
  }

  /** The appending loop of `path_key`. */
  method KeyOf(path: Path) returns (key: Bytes)
    ensures key == PathKey(path)
  {
    key := [];
    for i := 0 to |path|
      invariant key == PathKey(path[..i])
    {
      PathKeySnoc(path[..i], path[i]);
      assert path[..i + 1] == path[..i] + [path[i]];
      if i > 0 { key := key + [0]; }
      key := key + path[i];
    }
    assert path[..|path|] == path;
  }

  // ---- Checking ----

  datatype PathError =
    | EmptyPath
    | DuplicatePath(path: Path)
    | PathMismatch(path: Path)
    | WithoutParent(path: Path)

  /** The path a schema's own record carries, when its bytes hold one. */
  type InfoPath = Bytes -> Option<Path>

  function Parent(path: Path): Path
    requires path != []
  {
    path[..|path| - 1]
  }

  predicate SameKey(a: SchemaContents, b: SchemaContents) { PathKey(a.path) == PathKey(b.path) }

  /** What is wrong with schema `i` on its own or against the earlier ones. */
  function Fault(schemas: seq<SchemaContents>, verify: Option<InfoPath>, i: nat): Option<PathError>
    requires i < |schemas|
  {
    var path := schemas[i].path;
    if path == [] then Some(EmptyPath)
    else if exists j :: 0 <= j < i && SameKey(schemas[j], schemas[i]) then Some(DuplicatePath(path))
    else if verify.Some? && verify.value(schemas[i].info) != Some(path) then Some(PathMismatch(path))
    else None
  }

  predicate ParentIs(s: SchemaContents, child: SchemaContents)
    requires child.path != []
  {
    PathKey(s.path) == PathKey(Parent(child.path))
  }

  /** Whether schema `i` lacks its parent. */
  predicate Orphan(schemas: seq<SchemaContents>, i: nat)
    requires i < |schemas|
  {
    |schemas[i].path| >= 2 && forall j :: 0 <= j < |schemas| ==> !ParentIs(schemas[j], schemas[i])
  }

  predicate Sound(schemas: seq<SchemaContents>, verify: Option<InfoPath>) {
    forall i :: 0 <= i < |schemas| ==> Fault(schemas, verify, i) == None && !Orphan(schemas, i)
  }

  /** The error reported is that of the first faulty schema, and of the first
      orphan when none is faulty. */
  ghost predicate FirstError(schemas: seq<SchemaContents>, verify: Option<InfoPath>, e: PathError, i: nat)
    requires i < |schemas|
  {
    if e.WithoutParent? then
      && e.path == schemas[i].path && Orphan(schemas, i)
      && (forall j :: 0 <= j < |schemas| ==> Fault(schemas, verify, j) == None)
      && (forall j :: 0 <= j < i ==> !Orphan(schemas, j))
    else
      && Fault(schemas, verify, i) == Some(e)
      && (forall j :: 0 <= j < i ==> Fault(schemas, verify, j) == None)
  }

  ghost predicate KeysUpTo(schemas: seq<SchemaContents>, keys: set<Bytes>, n: nat)
    requires n <= |schemas|
  {
    && (forall j :: 0 <= j < n ==> PathKey(schemas[j].path) in keys)
    && (forall k :: k in keys ==> exists j :: 0 <= j < n && PathKey(schemas[j].path) == k)
  }

  /** The first pass: each schema's own faults, collecting the keys. */
  method CollectKeys(schemas: seq<SchemaContents>, verify: Option<InfoPath>)
      returns (error: Option<PathError>, keys: set<Bytes>, ghost at: nat)
    ensures error == None ==> KeysUpTo(schemas, keys, |schemas|)
    ensures error == None ==> forall i :: 0 <= i < |schemas| ==> Fault(schemas, verify, i) == None
    ensures error.Some? ==> !error.value.WithoutParent?
    ensures error.Some? ==> at < |schemas| && FirstError(schemas, verify, error.value, at)
  {
    keys, at := {}, 0;
    for i := 0 to |schemas|
      invariant at == i && KeysUpTo(schemas, keys, i)
      invariant forall j :: 0 <= j < i ==> Fault(schemas, verify, j) == None
    {
      var path := schemas[i].path;
      if path == [] { return Some(EmptyPath), keys, i; }
      var key := KeyOf(path);
      if key in keys {
        var j :| 0 <= j < i && PathKey(schemas[j].path) == key;
        assert SameKey(schemas[j], schemas[i]);
        return Some(DuplicatePath(path)), keys, i;
      }
      assert forall j :: 0 <= j < i ==> !SameKey(schemas[j], schemas[i]);
      keys := keys + {key};
      if verify.Some? && verify.value(schemas[i].info) != Some(path) {
        return Some(PathMismatch(path)), keys, i;
      }
      at := i + 1;
    }
    error := None;
  }

  /** The second pass: the first schema whose parent's key is missing. */
  method FirstOrphan(schemas: seq<SchemaContents>, keys: set<Bytes>) returns (at: nat)
    requires KeysUpTo(schemas, keys, |schemas|)
    ensures at <= |schemas| && forall j :: 0 <= j < at ==> !Orphan(schemas, j)
    ensures at < |schemas| ==> Orphan(schemas, at)
  {
    at := 0;
    while at < |schemas|
      invariant at <= |schemas| && forall j :: 0 <= j < at ==> !Orphan(schemas, j)
    {
      if |schemas[at].path| >= 2 {
        var key := KeyOf(Parent(schemas[at].path));
        if key !in keys { return; }
        var j :| 0 <= j < |schemas| && PathKey(schemas[j].path) == key;
        assert ParentIs(schemas[j], schemas[at]);
      }
      at := at + 1;
    }
  }

  method CheckPaths(schemas: seq<SchemaContents>, verify: Option<InfoPath>)
      returns (error: Option<PathError>, ghost at: nat)
    ensures error == None <==> Sound(schemas, verify)
    ensures error.Some? ==> at < |schemas| && FirstError(schemas, verify, error.value, at)
  {
    var keys;
    error, keys, at := CollectKeys(schemas, verify);
    if error.Some? { return; }
    var orphan := FirstOrphan(schemas, keys);
    if orphan < |schemas| { return Some(WithoutParent(schemas[orphan].path)), orphan; }
  }

  // ---- What the check decides ----

  predicate Present(schemas: seq<SchemaContents>, path: Path) {
    exists j :: 0 <= j < |schemas| && schemas[j].path == path
  }

  /** The path sets a snapshot may have: no path empty or twice, and every
      parent present. */
  ghost predicate WellRooted(schemas: seq<SchemaContents>) {
    && (forall i :: 0 <= i < |schemas| ==> schemas[i].path != [])
    && (forall i, j :: 0 <= i < j < |schemas| ==> schemas[i].path != schemas[j].path)
    && (forall i :: 0 <= i < |schemas| && |schemas[i].path| >= 2 ==> Present(schemas, Parent(schemas[i].path)))
  }

  predicate InfosAgree(schemas: seq<SchemaContents>, verify: Option<InfoPath>) {
    verify.Some? ==> forall i :: 0 <= i < |schemas| ==> verify.value(schemas[i].info) == Some(schemas[i].path)
  }

  ghost predicate NulFreePaths(schemas: seq<SchemaContents>) {
    forall i :: 0 <= i < |schemas| ==> NulFreePath(schemas[i].path)
  }

  ghost predicate FlatDistinct(schemas: seq<SchemaContents>) {
    forall i, j :: 0 <= i < j < |schemas| ==> Flatten(schemas[i].path) != Flatten(schemas[j].path)
  }

  ghost predicate FlatParent(schemas: seq<SchemaContents>, i: nat)
    requires i < |schemas| && schemas[i].path != []
  {
    exists j :: 0 <= j < |schemas| && Flatten(schemas[j].path) == Flatten(Parent(schemas[i].path))
  }

  /** What the check decides of any paths at all: it sees each path with its
      components cut at their NUL bytes, and nothing else of it. */
  lemma CheckSeesFlattened(schemas: seq<SchemaContents>, verify: Option<InfoPath>)
    requires forall i :: 0 <= i < |schemas| ==> schemas[i].path != []
    ensures Sound(schemas, verify) <==>
      && FlatDistinct(schemas) && InfosAgree(schemas, verify)
      && forall i :: 0 <= i < |schemas| && |schemas[i].path| >= 2 ==> FlatParent(schemas, i)
  {
    forall i, j | 0 <= i < |schemas| && 0 <= j < |schemas|
      ensures SameKey(schemas[i], schemas[j]) <==> Flatten(schemas[i].path) == Flatten(schemas[j].path)
    {
      KeysAlias(schemas[i].path, schemas[j].path);
    }
    forall i | 0 <= i < |schemas| && |schemas[i].path| >= 2
      ensures Orphan(schemas, i) <==> !FlatParent(schemas, i)
    {
      FlatOrphan(schemas, i);
    }
    FaultsExactly(schemas, verify);
  }

  lemma FlatOrphan(schemas: seq<SchemaContents>, i: nat)
    requires i < |schemas| && |schemas[i].path| >= 2
    requires forall j :: 0 <= j < |schemas| ==> schemas[j].path != []
    ensures Orphan(schemas, i) <==> !FlatParent(schemas, i)
  {
    forall j | 0 <= j < |schemas|
      ensures ParentIs(schemas[j], schemas[i])
        <==> Flatten(schemas[j].path) == Flatten(Parent(schemas[i].path))
    {
      KeysAlias(schemas[j].path, Parent(schemas[i].path));
    }
  }

  lemma FaultsExactly(schemas: seq<SchemaContents>, verify: Option<InfoPath>)
    requires forall i :: 0 <= i < |schemas| ==> schemas[i].path != []
    ensures (forall i :: 0 <= i < |schemas| ==> Fault(schemas, verify, i) == None) <==>
      InfosAgree(schemas, verify) && forall i, j :: 0 <= i < j < |schemas| ==> !SameKey(schemas[i], schemas[j])
  {
    if forall i :: 0 <= i < |schemas| ==> Fault(schemas, verify, i) == None {
      forall i, j | 0 <= i < j < |schemas| ensures !SameKey(schemas[i], schemas[j]) {
        assert Fault(schemas, verify, j) == None;
      }
      if verify.Some? {
        forall i | 0 <= i < |schemas| ensures verify.value(schemas[i].info) == Some(schemas[i].path) {
          assert Fault(schemas, verify, i) == None;
        }
      }
    }
  }

  /** With NUL-free components the check rejects exactly the snapshots with an
      empty, duplicate, orphaned or misreported path. */
  lemma CheckIsExact(schemas: seq<SchemaContents>, verify: Option<InfoPath>)
    requires NulFreePaths(schemas)
    ensures Sound(schemas, verify) <==> WellRooted(schemas) && InfosAgree(schemas, verify)
  {
    forall i | 0 <= i < |schemas| ensures Flatten(schemas[i].path) == schemas[i].path {
      FlattenNulFree(schemas[i].path);
    }
    if forall i :: 0 <= i < |schemas| ==> schemas[i].path != [] {
      CheckSeesFlattened(schemas, verify);
      forall i | 0 <= i < |schemas| && |schemas[i].path| >= 2
        ensures FlatParent(schemas, i) <==> Present(schemas, Parent(schemas[i].path))
      {
        assert NulFreePath(schemas[i].path);
        FlattenNulFree(Parent(schemas[i].path));
      }
    } else {
      var i :| 0 <= i < |schemas| && schemas[i].path == [];
      assert Fault(schemas, verify, i) == Some(EmptyPath);
    }
  }

  /** A NUL inside a component can stand in for a parent: `a\0b` passes as the
      parent of `a.b.c`. */
  lemma NulStandsInForParent(blank: SchemaContents)
    ensures var root := blank.(path := [[97, 0, 98]]);
      var child := blank.(path := [[97], [98], [99]]);
      Sound([root, child], None) && !WellRooted([root, child])
  {
    var root := blank.(path := [[97, 0, 98]]);
    var child := blank.(path := [[97], [98], [99]]);
    var schemas := [root, child];
    var ab: Path := [[97], [98]];
    assert ab[1..] == [[98]];
    assert PathKey(ab) == [97, 0, 98];
    assert Parent(child.path) == ab;
    assert ParentIs(schemas[0], schemas[1]);
    assert child.path[1..] == [[98], [99]];
    assert PathKey(child.path)[1] == 0 && |PathKey(child.path)| == 5 by {
      assert child.path[1..][1..] == [[99]];
    }
    assert !SameKey(schemas[0], schemas[1]);
    assert |schemas[0].path| == 1 && |schemas[1].path| == 3;
    assert !Present(schemas, Parent(schemas[1].path));
  }

  /** Every ancestor of a well-rooted snapshot's schema is in it. */
  lemma {:induction false} AncestorsPresent(schemas: seq<SchemaContents>, i: nat, k: nat)
    requires WellRooted(schemas) && i < |schemas| && 0 < k <= |schemas[i].path|
    ensures Present(schemas, schemas[i].path[..k])
    decreases |schemas[i].path|
  {
    var path := schemas[i].path;
    if k == |path| {
      assert path[..k] == path;
    } else {
      assert Present(schemas, Parent(path));
      var j :| 0 <= j < |schemas| && schemas[j].path == Parent(path);
      AncestorsPresent(schemas, j, k);
      assert Parent(path)[..k] == path[..k];
    }
  }

  // ---- Serving order ----

  predicate SortedByDepth(s: seq<SchemaContents>) {
    forall i, j :: 0 <= i < j < |s| ==> |s[i].path| <= |s[j].path|
  }

  /** The schemas of one depth, in order. */
  function AtDepth(s: seq<SchemaContents>, d: nat): seq<SchemaContents> {
    if s == [] then [] else (if |s[0].path| == d then [s[0]] else []) + AtDepth(s[1..], d)
  }

  /** A stable sort: every depth keeps its own order. */
  ghost predicate SameDepths(a: seq<SchemaContents>, b: seq<SchemaContents>) {
    forall d: nat :: AtDepth(a, d) == AtDepth(b, d)
  }

  /** `s` goes before the first schema that is as deep or deeper. */
  function InsertFirst(s: SchemaContents, sorted: seq<SchemaContents>): seq<SchemaContents> {
    if sorted == [] || |s.path| <= |sorted[0].path| then [s] + sorted
    else [sorted[0]] + InsertFirst(s, sorted[1..])
  }

  function ParentsFirst(schemas: seq<SchemaContents>): seq<SchemaContents> {
    if schemas == [] then [] else InsertFirst(schemas[0], ParentsFirst(schemas[1..]))
  }

  lemma {:induction false} InsertFirstKeeps(s: SchemaContents, sorted: seq<SchemaContents>)
    ensures multiset(InsertFirst(s, sorted)) == multiset{s} + multiset(sorted)
  {
    if !(sorted == [] || |s.path| <= |sorted[0].path|) {
      InsertFirstKeeps(s, sorted[1..]);
      assert sorted == [sorted[0]] + sorted[1..];
    }
  }

  lemma {:induction false} InsertFirstSorts(s: SchemaContents, sorted: seq<SchemaContents>)
    requires SortedByDepth(sorted)
    ensures SortedByDepth(InsertFirst(s, sorted))
  {
    if !(sorted == [] || |s.path| <= |sorted[0].path|) {
      var tail := sorted[1..];
      InsertFirstSorts(s, tail);
      InsertFirstKeeps(s, tail);
      var r := InsertFirst(s, tail);
      forall i | 0 <= i < |r| ensures |sorted[0].path| <= |r[i].path| {
        assert r[i] in multiset(r);
        assert r[i] == s || r[i] in multiset(tail);
      }
    }
  }

  lemma {:induction false} InsertFirstDepths(s: SchemaContents, sorted: seq<SchemaContents>, d: nat)
    requires SortedByDepth(sorted)
    ensures AtDepth(InsertFirst(s, sorted), d) == AtDepth([s] + sorted, d)
  {
    assert ([s] + sorted)[1..] == sorted;
    if !(sorted == [] || |s.path| <= |sorted[0].path|) {
      var tail := sorted[1..];
      InsertFirstDepths(s, tail, d);
      assert ([s] + tail)[1..] == tail;
      var r := InsertFirst(s, sorted);
      assert r[1..] == InsertFirst(s, tail);
    }
  }

  /** The serving order is a stable permutation, parents before children. */
  lemma {:induction false} ParentsFirstSorts(schemas: seq<SchemaContents>)
    ensures SortedByDepth(ParentsFirst(schemas))
    ensures SameDepths(ParentsFirst(schemas), schemas)
    ensures multiset(ParentsFirst(schemas)) == multiset(schemas)
  {
    if schemas != [] {
      var s, tail := schemas[0], schemas[1..];
      ParentsFirstSorts(tail);
      InsertFirstSorts(s, ParentsFirst(tail));
      InsertFirstKeeps(s, ParentsFirst(tail));
      assert schemas == [s] + tail;
      forall d: nat ensures AtDepth(ParentsFirst(schemas), d) == AtDepth(schemas, d) {
        InsertFirstDepths(s, ParentsFirst(tail), d);
        assert ([s] + ParentsFirst(tail))[1..] == ParentsFirst(tail);
      }
    }
  }

  /** A stable sort by depth has only one result, so any algorithm for it
      serves the same order. */
  lemma {:induction false} StableOrderIsUnique(a: seq<SchemaContents>, b: seq<SchemaContents>)
    requires SortedByDepth(a) && SortedByDepth(b) && SameDepths(a, b)
    ensures a == b
  {
    if a == [] || b == [] {
      SomeDepth(a);
      SomeDepth(b);
    } else {
      SameHead(a, b);
      forall d: nat ensures AtDepth(a[1..], d) == AtDepth(b[1..], d) {
        assert AtDepth(a, d) == AtDepth(b, d);
        TailAtDepth(a, d);
        TailAtDepth(b, d);
      }
      StableOrderIsUnique(a[1..], b[1..]);
      assert a == [a[0]] + a[1..] && b == [b[0]] + b[1..];
    }
  }

  lemma SomeDepth(s: seq<SchemaContents>)
    ensures s == [] <==> forall d: nat :: AtDepth(s, d) == []
  {
    if s != [] { assert AtDepth(s, |s[0].path|)[0] == s[0]; }
  }

  lemma TailAtDepth(s: seq<SchemaContents>, d: nat)
    requires s != []
    ensures AtDepth(s[1..], d) == if |s[0].path| == d then AtDepth(s, d)[1..] else AtDepth(s, d)
  {
  }

  lemma SameHead(a: seq<SchemaContents>, b: seq<SchemaContents>)
    requires SortedByDepth(a) && SortedByDepth(b) && SameDepths(a, b) && a != [] && b != []
    ensures a[0] == b[0]
  {
    var m, n := |a[0].path|, |b[0].path|;
    assert AtDepth(a, m) == AtDepth(b, m) && AtDepth(a, n) == AtDepth(b, n);
    assert AtDepth(a, m)[0] == a[0] && AtDepth(b, n)[0] == b[0];
    if m < n { DepthAtLeast(b, m); }
    if n < m { DepthAtLeast(a, n); }
  }

  lemma {:induction false} DepthAtLeast(s: seq<SchemaContents>, d: nat)
    requires SortedByDepth(s) && s != [] && d < |s[0].path|
    ensures AtDepth(s, d) == []
  {
    if |s| > 1 { DepthAtLeast(s[1..], d); }
  }

  lemma {:induction false} PresentInSorted(schemas: seq<SchemaContents>, path: Path)
    requires Present(schemas, path)
    ensures Present(ParentsFirst(schemas), path)
  {
    var i :| 0 <= i < |schemas| && schemas[i].path == path;
    ParentsFirstSorts(schemas);
    assert schemas[i] in multiset(ParentsFirst(schemas));
  }

  /** Well-rooted schemas are served each after its whole chain of ancestors. */
  lemma AncestorsComeFirst(schemas: seq<SchemaContents>, i: nat, k: nat)
    requires WellRooted(schemas)
    requires i < |ParentsFirst(schemas)| && 0 < k < |ParentsFirst(schemas)[i].path|
    ensures exists j :: 0 <= j < i && ParentsFirst(schemas)[j].path == ParentsFirst(schemas)[i].path[..k]
  {
    var out := ParentsFirst(schemas);
    ParentsFirstSorts(schemas);
    assert out[i] in multiset(schemas);
    var n :| 0 <= n < |schemas| && schemas[n] == out[i];
    AncestorsPresent(schemas, n, k);
    PresentInSorted(schemas, out[i].path[..k]);
    var j :| 0 <= j < |out| && out[j].path == out[i].path[..k];
    assert |out[j].path| < |out[i].path|;
  }
}
