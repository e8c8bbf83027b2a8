/** The function registries and the cache of built function listings
    (src/dispatcher.cpp, `register_*_in`, `catalog`, `find_catalog`;
    src/catalog.cpp, `function_listing`, `build_function_listing`;
    src/function_dispatch.cpp, lookup by name). */
module Registry {
  import opened Basics

  /** A registered function: its name, and what registration checks of its
      metadata; `body` stands for all the rest. */
  datatype Function = Function(name: Bytes, inputFromArgs: bool, inputRowsPerCall: Option<int>, body: Bytes)

  datatype Scope = Scope(catalog: Bytes, path: Path)

  datatype Kind = Scalar | Table | TableInOut | Buffering | Aggregate

  // ---- Positions ----

  /** The positions whose element passes, ascending. */
  function Where<T>(s: seq<T>, p: T -> bool): seq<nat> {
    if s == [] then []
    else Where(s[..|s| - 1], p) + if p(s[|s| - 1]) then [|s| - 1] else []
  }

  ghost predicate Ascending(s: seq<nat>) { forall i, j :: 0 <= i < j < |s| ==> s[i] < s[j] }

  lemma {:induction false} WhereIs<T>(s: seq<T>, p: T -> bool)
    ensures Ascending(Where(s, p))
    ensures forall i: nat :: i in Where(s, p) <==> i < |s| && p(s[i])
  {
    if s != [] {
      var init := Where(s[..|s| - 1], p);
      WhereIs(s[..|s| - 1], p);
      forall i | 0 <= i < |init| ensures init[i] < |s| - 1 { assert init[i] in init; }
    }
  }

  // ---- One registry ----

  /** Parallel lists of functions and scopes, and the name index. */
  datatype Shelf = Shelf(fns: seq<Function>, scopes: seq<Scope>, byName: map<Bytes, seq<nat>>)

  const EMPTY := Shelf([], [], map[])

  function Positions(fns: seq<Function>, name: Bytes): seq<nat> { Where(fns, (f: Function) => f.name == name) }

  /** The lists are parallel, and the index of a name is exactly its
      registrations, ascending; names without one are not in it. */
  ghost predicate Consistent(s: Shelf) {
    && |s.fns| == |s.scopes|
    && (forall n :: n in s.byName ==> s.byName[n] != [] && s.byName[n] == Positions(s.fns, n))
    && (forall n :: n !in s.byName ==> Positions(s.fns, n) == [])
  }

  function Indexed(s: Shelf, name: Bytes): seq<nat> { if name in s.byName then s.byName[name] else [] }

  function Pushed(s: Shelf, fn: Function, scope: Scope): Shelf {
    Shelf(s.fns + [fn], s.scopes + [scope], s.byName[fn.name := Indexed(s, fn.name) + [|s.fns|]])
  }

  lemma PushedIsConsistent(s: Shelf, fn: Function, scope: Scope)
    requires Consistent(s)
    ensures Consistent(Pushed(s, fn, scope))
  {
    var t := Pushed(s, fn, scope);
    assert t.fns[..|t.fns| - 1] == s.fns;
    forall n ensures Positions(t.fns, n) == Positions(s.fns, n) + if fn.name == n then [|s.fns|] else [] {
    }
  }

  /** A call's scope: its catalog, and its schema unless it names none. */
  predicate InScope(declared: Scope, wanted: Scope) {
    declared.catalog == wanted.catalog && (wanted.path == [] || declared.path == wanted.path)
  }

  /** A registration answers a call by name. */
  predicate Answers(s: Shelf, i: nat, name: Bytes, wanted: Scope)
    requires i < |s.fns| && |s.fns| == |s.scopes|
  {
    && s.fns[i].name == name && s.scopes[i].catalog == wanted.catalog
    && (wanted.path == [] || s.scopes[i].path == wanted.path)
  }

  /** The index of a name is exactly its registrations, in order. */
  lemma IndexedExactly(s: Shelf, name: Bytes)
    requires Consistent(s)
    ensures Ascending(Indexed(s, name))
    ensures forall i: nat :: i in Indexed(s, name) <==> i < |s.fns| && s.fns[i].name == name
  {
    var p := (f: Function) => f.name == name;
    assert Indexed(s, name) == Positions(s.fns, name) == Where(s.fns, p);
    WhereIs(s.fns, p);
  }

  /** Lookup through the index finds the first registration that a scan of all
      of them would, whatever was registered. */
  method Find(s: Shelf, name: Bytes, wanted: Scope) returns (at: Option<nat>)
    requires Consistent(s)
    ensures at.Some? ==> at.value < |s.fns| && Answers(s, at.value, name, wanted)
    ensures at.Some? ==> forall i: nat :: i < at.value ==> !Answers(s, i, name, wanted)
    ensures at.None? ==> forall i: nat :: i < |s.fns| ==> !Answers(s, i, name, wanted)
  {
    IndexedExactly(s, name);
    if name !in s.byName { return None; }
    var indices := s.byName[name];
    assert indices == Indexed(s, name);
    for k := 0 to |indices|
      invariant forall j :: 0 <= j < k ==> indices[j] < |s.scopes| && !InScope(s.scopes[indices[j]], wanted)
    {
      assert indices[k] in indices;
      if InScope(s.scopes[indices[k]], wanted) { return Some(indices[k]); }
    }
    return None;
  }

  // ---- Listings ----

  datatype Contents = Contents(scalars: Shelf, tables: Shelf, tableInOuts: Shelf, bufferings: Shelf,
                               aggregates: Shelf, hidden: set<Bytes>) {
    function On(kind: Kind): Shelf {
      match kind
      case Scalar => scalars
      case Table => tables
      case TableInOut => tableInOuts
      case Buffering => bufferings
      case Aggregate => aggregates
    }

    function With(kind: Kind, shelf: Shelf): Contents {
      match kind
      case Scalar => this.(scalars := shelf)
      case Table => this.(tables := shelf)
      case TableInOut => this.(tableInOuts := shelf)
      case Buffering => this.(bufferings := shelf)
      case Aggregate => this.(aggregates := shelf)
    }
  }

  ghost predicate AllConsistent(c: Contents) { forall k: Kind :: Consistent(c.On(k)) }

  /** The key of a listing request; an empty type asks for every one. */
  datatype Key = Key(scope: Scope, ty: Bytes)

  const SCALAR := Ascii("scalar")
  const TABLE := Ascii("table")
  const AGGREGATE := Ascii("aggregate")

  /** An advertised item: a kind's encoding of a function under a schema. */
  datatype Item = Item(kind: Kind, fn: Function, path: Path)

  /** Advertised: declared in this schema of this catalog, and not hidden. */
  predicate Listed(c: Contents, kind: Kind, scope: Scope, i: nat)
    requires i < |c.On(kind).fns| && |c.On(kind).fns| == |c.On(kind).scopes|
  {
    c.On(kind).scopes[i] == scope && c.On(kind).fns[i].name !in c.hidden
  }

  /** The items of the first `n` registrations of a kind. */
  function ItemsUpTo(c: Contents, kind: Kind, scope: Scope, n: nat): seq<Item>
    requires n <= |c.On(kind).fns| && |c.On(kind).fns| == |c.On(kind).scopes|
  {
    if n == 0 then []
    else
      ItemsUpTo(c, kind, scope, n - 1)
      + if Listed(c, kind, scope, n - 1) then [Item(kind, c.On(kind).fns[n - 1], scope.path)] else []
  }

  ghost function Items(c: Contents, kind: Kind, scope: Scope): seq<Item>
    requires AllConsistent(c)
  {
    ItemsUpTo(c, kind, scope, |c.On(kind).fns|)
  }

  /** The listing of one type: table functions of all three kinds are listed
      as tables, and no other name lists anything. */
  ghost function TypedListing(c: Contents, scope: Scope, ty: Bytes): seq<Item>
    requires AllConsistent(c)
  {
    if ty == SCALAR then Items(c, Scalar, scope)
    else if ty == TABLE then Items(c, Table, scope) + Items(c, TableInOut, scope) + Items(c, Buffering, scope)
    else if ty == AGGREGATE then Items(c, Aggregate, scope)
    else []
  }

  /** What a request is answered: a rebuild from the registries. */
  ghost function Listing(c: Contents, key: Key): seq<Item>
    requires AllConsistent(c)
  {
    if key.ty != [] then TypedListing(c, key.scope, key.ty)
    else TypedListing(c, key.scope, SCALAR) + TypedListing(c, key.scope, TABLE) + TypedListing(c, key.scope, AGGREGATE)
  }

  /** Every cached listing is what a rebuild would give, and has an item. */
  ghost predicate Faithful(c: Contents, cache: map<Key, seq<Item>>) {
    AllConsistent(c) && forall k :: k in cache ==> cache[k] != [] && cache[k] == Listing(c, k)
  }

  // ---- Each visible function once ----

  /** A registration, by kind and position. */
  datatype Entry = Entry(kind: Kind, index: nat)

  predicate Visible(c: Contents, scope: Scope, e: Entry)
    requires |c.On(e.kind).fns| == |c.On(e.kind).scopes|
  {
    e.index < |c.On(e.kind).fns| && Listed(c, e.kind, scope, e.index)
  }

  /** The kinds in the order the untyped listing has them. */
  function Rank(k: Kind): nat {
    match k
    case Scalar => 0
    case Table => 1
    case TableInOut => 2
    case Buffering => 3
    case Aggregate => 4
  }

  predicate Before(e: Entry, f: Entry) {
    Rank(e.kind) < Rank(f.kind) || (e.kind == f.kind && e.index < f.index)
  }

  /** `items` advertises exactly the visible registrations of kinds ranked from
      `low` up to `high`, each once, by kind and then in registration order:
      `entries` says which registration each item is. */
  ghost predicate Advertises(c: Contents, scope: Scope, low: nat, high: nat, entries: seq<Entry>, items: seq<Item>)
    requires AllConsistent(c)
  {
    && |entries| == |items|
    && (forall i, j :: 0 <= i < j < |entries| ==> Before(entries[i], entries[j]))
    && (forall e :: e in entries <==> low <= Rank(e.kind) < high && Visible(c, scope, e))
    && (forall i {:trigger items[i]} :: 0 <= i < |items| ==>
          var e := entries[i];
          e in entries && items[i] == Item(e.kind, c.On(e.kind).fns[e.index], scope.path))
  }

  function EntriesUpTo(c: Contents, kind: Kind, scope: Scope, n: nat): seq<Entry>
    requires n <= |c.On(kind).fns| && |c.On(kind).fns| == |c.On(kind).scopes|
  {
    if n == 0 then []
    else EntriesUpTo(c, kind, scope, n - 1) + if Listed(c, kind, scope, n - 1) then [Entry(kind, n - 1)] else []
  }

  lemma {:induction false} EntriesAre(c: Contents, kind: Kind, scope: Scope, n: nat)
    requires AllConsistent(c) && n <= |c.On(kind).fns|
    ensures var es, items := EntriesUpTo(c, kind, scope, n), ItemsUpTo(c, kind, scope, n);
      && |es| == |items|
      && (forall i, j :: 0 <= i < j < |es| ==> Before(es[i], es[j]))
      && (forall e :: e in es <==> e.kind == kind && e.index < n && Listed(c, kind, scope, e.index))
      && (forall i :: 0 <= i < |es| ==> es[i] in es && items[i] == Item(kind, c.On(kind).fns[es[i].index], scope.path))
  {
    if n > 0 {
      EntriesAre(c, kind, scope, n - 1);
      var es := EntriesUpTo(c, kind, scope, n - 1);
      forall i | 0 <= i < |es| ensures es[i].index < n - 1 { assert es[i] in es; }
    }
  }

  function Entries(c: Contents, kind: Kind, scope: Scope): seq<Entry>
    requires |c.On(kind).fns| == |c.On(kind).scopes|
  {
    EntriesUpTo(c, kind, scope, |c.On(kind).fns|)
  }

  lemma KindAdvertised(c: Contents, kind: Kind, scope: Scope)
    requires AllConsistent(c)
    ensures Advertises(c, scope, Rank(kind), Rank(kind) + 1, Entries(c, kind, scope), Items(c, kind, scope))
  {
    EntriesAre(c, kind, scope, |c.On(kind).fns|);
  }

  lemma AdvertisedTogether(c: Contents, scope: Scope, low: nat, mid: nat, high: nat,
                           es: seq<Entry>, items: seq<Item>, es': seq<Entry>, items': seq<Item>)
    requires AllConsistent(c) && low <= mid <= high
    requires Advertises(c, scope, low, mid, es, items) && Advertises(c, scope, mid, high, es', items')
    ensures Advertises(c, scope, low, high, es + es', items + items')
  {
    var all := es + es';
    forall i, j | 0 <= i < j < |all| ensures Before(all[i], all[j]) {
      assert i < |es| ==> all[i] in es;
      assert j >= |es| ==> all[j] in es';
    }
    forall e ensures e in all <==> low <= Rank(e.kind) < high && Visible(c, scope, e) {
      assert e in all <==> e in es || e in es';
    }
    forall i | 0 <= i < |items + items'|
      ensures all[i] in all && (items + items')[i] == Item(all[i].kind, c.On(all[i].kind).fns[all[i].index], scope.path)
    {
      if i < |es| { assert items[i] == (items + items')[i]; } else { assert items'[i - |es|] == (items + items')[i]; }
    }
  }

  ghost function TableEntries(c: Contents, scope: Scope): seq<Entry>
    requires AllConsistent(c)
  {
    Entries(c, Table, scope) + Entries(c, TableInOut, scope) + Entries(c, Buffering, scope)
  }

  lemma TablesAdvertised(c: Contents, scope: Scope)
    requires AllConsistent(c)
    ensures Advertises(c, scope, 1, 4, TableEntries(c, scope), TypedListing(c, scope, TABLE))
  {
    KindAdvertised(c, Table, scope);
    KindAdvertised(c, TableInOut, scope);
    KindAdvertised(c, Buffering, scope);
    TypesDiffer();
    var t, io, b := Entries(c, Table, scope), Entries(c, TableInOut, scope), Entries(c, Buffering, scope);
    var t', io', b' := Items(c, Table, scope), Items(c, TableInOut, scope), Items(c, Buffering, scope);
    AdvertisedTogether(c, scope, 1, 2, 3, t, t', io, io');
    AdvertisedTogether(c, scope, 1, 3, 4, t + io, t' + io', b, b');
  }

  lemma TypesDiffer()
    ensures |SCALAR| == 6 && |TABLE| == 5 && |AGGREGATE| == 9
  {
  }

  /** The untyped listing is scalars, then every kind of table function, then
      aggregates, each visible registration exactly once and in the order
      registered. */
  lemma UntypedListingIsComplete(c: Contents, scope: Scope)
    requires AllConsistent(c)
    ensures Advertises(c, scope, 0, 5,
                       Entries(c, Scalar, scope) + TableEntries(c, scope) + Entries(c, Aggregate, scope),
                       Listing(c, Key(scope, [])))
  {
    KindAdvertised(c, Scalar, scope);
    TablesAdvertised(c, scope);
    KindAdvertised(c, Aggregate, scope);
    TypesDiffer();
    var s, t, a := Entries(c, Scalar, scope), TableEntries(c, scope), Entries(c, Aggregate, scope);
    var s', t', a' := Items(c, Scalar, scope), TypedListing(c, scope, TABLE), Items(c, Aggregate, scope);
    AdvertisedTogether(c, scope, 0, 1, 4, s, s', t, t');
    AdvertisedTogether(c, scope, 0, 4, 5, s + t, s' + t', a, a');
  }
}
