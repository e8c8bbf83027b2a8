/** The dispatcher's registries as they change: registration, hiding, and
    listing requests served from a cache (src/dispatcher.cpp, src/catalog.cpp). */
module RegistryService {
  import opened Basics
  import opened Catalogs
  import opened Registry

  const MAIN := Ascii("main")

  /** A schema is declared in the catalog that its name finds. */
  ghost predicate Declares(catalogs: seq<CatalogModel>, scope: Scope) {
    exists i: nat :: FirstAt(catalogs, scope.catalog, i) && scope.path in catalogs[i].schemas
  }

  lemma AddCatalog(catalogs: seq<CatalogModel>, model: CatalogModel, s: Scope)
    requires forall j :: 0 <= j < |catalogs| ==> catalogs[j].name != model.name
    ensures Declares(catalogs + [model], s) <==>
      Declares(catalogs, s) || (s.catalog == model.name && s.path in model.schemas)
  {
    var r := catalogs + [model];
    assert forall j :: 0 <= j < |catalogs| ==> r[j] == catalogs[j];
    if Declares(catalogs, s) {
      var i: nat :| FirstAt(catalogs, s.catalog, i) && s.path in catalogs[i].schemas;
      assert FirstAt(r, s.catalog, i);
    }
    if s.catalog == model.name { assert FirstAt(r, s.catalog, |catalogs|); }
    if Declares(r, s) {
      var i: nat :| FirstAt(r, s.catalog, i) && s.path in r[i].schemas;
      if i < |catalogs| {
        assert forall j :: 0 <= j < i ==> catalogs[j].name == r[j].name;
        assert FirstAt(catalogs, s.catalog, i);
      }
    }
  }

  lemma AddSchema(catalogs: seq<CatalogModel>, scope: Scope, at: nat, s: Scope)
    requires FirstAt(catalogs, scope.catalog, at)
    ensures var r := catalogs[at := catalogs[at].(schemas := catalogs[at].schemas + [scope.path])];
      Declares(r, s) <==> Declares(catalogs, s) || s == scope
  {
    var r := catalogs[at := catalogs[at].(schemas := catalogs[at].schemas + [scope.path])];
    assert forall j :: 0 <= j < |r| ==> r[j].name == catalogs[j].name;
    if Declares(catalogs, s) {
      var i: nat :| FirstAt(catalogs, s.catalog, i) && s.path in catalogs[i].schemas;
      assert FirstAt(r, s.catalog, i);
    }
    if s == scope { assert FirstAt(r, s.catalog, at); }
    if Declares(r, s) {
      var i: nat :| FirstAt(r, s.catalog, i) && s.path in r[i].schemas;
      assert forall j :: 0 <= j < i ==> catalogs[j].name == r[j].name;
      assert FirstAt(catalogs, s.catalog, i);
    }
  }

  /** `catalog(name).schema(path)`: each found, or created at the end. A new
      catalog has the schema `main` from the start. */
  method Declare(catalogs: seq<CatalogModel>, scope: Scope) returns (r: seq<CatalogModel>)
    ensures |r| >= |catalogs| && forall i :: 0 <= i < |catalogs| ==> r[i].(schemas := []) == catalogs[i].(schemas := [])
    ensures forall s :: Declares(r, s) <==>
      || Declares(catalogs, s) || s == scope
      || (s == Scope(scope.catalog, [MAIN]) && forall j :: 0 <= j < |catalogs| ==> catalogs[j].name != scope.catalog)
  {
    var at := Locate(catalogs, scope.catalog);
    r := catalogs;
    if at == |catalogs| {
      r := r + [CatalogModel(scope.catalog, [], [[MAIN]])];
      forall s { AddCatalog(catalogs, CatalogModel(scope.catalog, [], [[MAIN]]), s); }
    }
    var model := r[at];
    if scope.path in model.schemas {
      assert FirstAt(r, scope.catalog, at);
    } else {
      forall s { AddSchema(r, scope, at, s); }
      r := r[at := model.(schemas := model.schemas + [scope.path])];
    }
  }

  // ---- Registration ----

  datatype Refusal = NullFunction | RowsWithoutArguments | RowsNotPositive

  /** The registries after one more registration. */
  function Added(c: Contents, kind: Kind, fn: Function, scope: Scope): Contents {
    c.With(kind, Pushed(c.On(kind), fn, scope))
  }

  lemma AddedIsConsistent(c: Contents, kind: Kind, fn: Function, scope: Scope)
    requires AllConsistent(c)
    ensures AllConsistent(Added(c, kind, fn, scope))
  {
    PushedIsConsistent(c.On(kind), fn, scope);
    var d := Added(c, kind, fn, scope);
    assert d.On(kind) == Pushed(c.On(kind), fn, scope);
    forall k: Kind ensures Consistent(d.On(k)) { assert k != kind ==> d.On(k) == c.On(k); }
  }

  /** The scan of one registry for what a scope advertises. */
  method CollectItems(c: Contents, kind: Kind, scope: Scope) returns (items: seq<Item>)
    requires AllConsistent(c)
    ensures items == Items(c, kind, scope)
  {
    items := [];
    var shelf := c.On(kind);
    assert Consistent(c.On(kind));
    for i := 0 to |shelf.fns|
      invariant items == ItemsUpTo(c, kind, scope, i)
    {
      if shelf.scopes[i] == scope && shelf.fns[i].name !in c.hidden {
        items := items + [Item(kind, shelf.fns[i], scope.path)];
      }
    }
  }

  class Dispatcher {
    var catalogs: seq<CatalogModel>
    var registered: Contents
    var listings: map<Key, seq<Item>>

    /** In every reachable state the registries agree with their indexes and
        every cached listing is what a rebuild would give. */
    ghost predicate Valid()
      reads this
    {
      catalogs != [] && AllConsistent(registered) && Faithful(registered, listings)
    }

    constructor ()
      ensures Valid()
      ensures registered == Contents(EMPTY, EMPTY, EMPTY, EMPTY, EMPTY, {}) && listings == map[]
      ensures catalogs == [CatalogModel(MAIN, [], [[MAIN]])]
    {
      catalogs := [CatalogModel(MAIN, [], [[MAIN]])];
      registered := Contents(EMPTY, EMPTY, EMPTY, EMPTY, EMPTY, {});
      listings := map[];
    }

    /** Replaces the primary; functions already registered stay listed. */
    method SetCatalog(model: CatalogModel)
      requires Valid()
      modifies this`catalogs
      ensures Valid()
      ensures catalogs == old(catalogs)[0 := model]
    {
      catalogs := catalogs[0 := model];
    }

    method ForgetFunctionListings()
      requires AllConsistent(registered) && catalogs != []
      modifies this`listings
      ensures Valid() && listings == map[]
    {
      listings := map[];
    }

    method HideFunction(name: Bytes)
      requires Valid()
      modifies this`registered, this`listings
      ensures Valid()
      ensures registered == old(registered).(hidden := old(registered).hidden + {name}) && listings == map[]
    {
      registered := registered.(hidden := registered.hidden + {name});
      forall k: Kind ensures Consistent(registered.On(k)) { assert registered.On(k) == old(registered).On(k); }
      ForgetFunctionListings();
    }

    /** Refused without a function, and for a rows-per-call that no caller could
        honour; otherwise the function is the last of its kind. */
    method RegisterIn(kind: Kind, scope: Scope, fn: Option<Function>) returns (refusal: Option<Refusal>)
      requires Valid()
      modifies this
      ensures Valid()
      ensures refusal == Some(NullFunction) <==> fn.None?
      ensures refusal == Some(RowsWithoutArguments) <==>
        fn.Some? && kind == TableInOut && fn.value.inputRowsPerCall.Some? && !fn.value.inputFromArgs
      ensures refusal == Some(RowsNotPositive) <==>
        && fn.Some? && kind == TableInOut && fn.value.inputRowsPerCall.Some? && fn.value.inputFromArgs
        && fn.value.inputRowsPerCall.value <= 0
      ensures refusal.Some? ==> registered == old(registered) && listings == old(listings) && catalogs == old(catalogs)
      ensures refusal.None? ==> registered == Added(old(registered), kind, fn.value, scope) && listings == map[]
      ensures refusal.None? ==> registered.On(kind).fns == old(registered).On(kind).fns + [fn.value]
      ensures refusal.None? ==> registered.On(kind).scopes == old(registered).On(kind).scopes + [scope]
      ensures refusal.None? ==> Declares(catalogs, scope)
      ensures forall s :: old(Declares(catalogs, s)) ==> Declares(catalogs, s)
    {
      if fn.None? { return Some(NullFunction); }
      if kind == TableInOut && fn.value.inputRowsPerCall.Some? {
        if !fn.value.inputFromArgs { return Some(RowsWithoutArguments); }
        if fn.value.inputRowsPerCall.value < 1 { return Some(RowsNotPositive); }
      }
      catalogs := Declare(catalogs, scope);
      var shelf := registered.On(kind);
      var name := fn.value.name;
      shelf := shelf.(byName := shelf.byName[name := Indexed(shelf, name) + [|shelf.fns|]]);
      shelf := shelf.(scopes := shelf.scopes + [scope]);
      shelf := shelf.(fns := shelf.fns + [fn.value]);
      AddedIsConsistent(registered, kind, fn.value, scope);
      registered := registered.With(kind, shelf);
      ForgetFunctionListings();
      refusal := None;
    }

    /** A request for a listing gets what a rebuild would give, cached or not,
        and only listings are remembered by it. */
    method FunctionListing(key: Key) returns (items: seq<Item>)
      requires Valid()
      modifies this`listings
      ensures Valid() && items == Listing(registered, key)
      ensures old(listings).Keys <= listings.Keys
      decreases if key.ty == [] then 3 else 1
    {
      if key in listings { return listings[key]; }
      items := BuildFunctionListing(key);
      if items == [] { return; }
      if key !in listings { listings := listings[key := items]; }
      return listings[key];
    }

    method BuildFunctionListing(key: Key) returns (items: seq<Item>)
      requires Valid()
      modifies this`listings
      ensures Valid() && items == Listing(registered, key)
      ensures old(listings).Keys <= listings.Keys
      decreases if key.ty == [] then 2 else 0
    {
      TypesDiffer();
      if key.ty == [] {
        var scalars := FunctionListing(Key(key.scope, SCALAR));
        var tables := FunctionListing(Key(key.scope, TABLE));
        var aggregates := FunctionListing(Key(key.scope, AGGREGATE));
        return scalars + tables + aggregates;
      }
      if key.ty == SCALAR {
        items := CollectItems(registered, Scalar, key.scope);
      } else if key.ty == TABLE {
        var tables := CollectItems(registered, Table, key.scope);
        var inOuts := CollectItems(registered, TableInOut, key.scope);
        var bufferings := CollectItems(registered, Buffering, key.scope);
        items := tables + inOuts + bufferings;
      } else if key.ty == AGGREGATE {
        items := CollectItems(registered, Aggregate, key.scope);
      } else {
        items := [];
      }
    }
  }
}
