/** What a registration, or hiding a name, changes in a listing. */
module ListingChanges {
  import opened Basics
  import opened Registry
  import opened RegistryService

  /** The kinds that a request for a type lists; an empty type lists all. */
  predicate ListsKind(ty: Bytes, kind: Kind) {
    match kind
    case Scalar => ty == [] || ty == SCALAR
    case Aggregate => ty == [] || ty == AGGREGATE
    case _ => ty == [] || ty == TABLE
  }

  lemma ListsKindOf(ty: Bytes)
    ensures ty == SCALAR ==> forall k: Kind :: ListsKind(ty, k) <==> k == Scalar
    ensures ty == AGGREGATE ==> forall k: Kind :: ListsKind(ty, k) <==> k == Aggregate
    ensures ty == TABLE ==> forall k: Kind :: ListsKind(ty, k) <==> k != Scalar && k != Aggregate
    ensures ty == [] ==> forall k: Kind :: ListsKind(ty, k)
    ensures ty != [] && ty != SCALAR && ty != TABLE && ty != AGGREGATE ==> forall k: Kind :: !ListsKind(ty, k)
  {
    TypesDiffer();
  }

  /** How many items of a kind a listing has. */
  ghost function Count(c: Contents, key: Key, kind: Kind): nat
    requires AllConsistent(c)
  {
    if ListsKind(key.ty, kind) then |Items(c, kind, key.scope)| else 0
  }

  /** A listing's length, kind by kind. */
  lemma ListingLength(c: Contents, key: Key)
    requires AllConsistent(c)
    ensures |Listing(c, key)| == Count(c, key, Scalar) + Count(c, key, Table) + Count(c, key, TableInOut)
                                 + Count(c, key, Buffering) + Count(c, key, Aggregate)
  {
    ListsKindOf(key.ty);
    TypesDiffer();
  }

  /** Listings of the same items, kind by kind, are the same. */
  lemma SameListing(c: Contents, d: Contents, key: Key)
    requires AllConsistent(c) && AllConsistent(d)
    requires forall k: Kind :: ListsKind(key.ty, k) ==> Items(c, k, key.scope) == Items(d, k, key.scope)
    ensures Listing(c, key) == Listing(d, key)
  {
    ListsKindOf(key.ty);
    TypesDiffer();
  }

  // ---- Registration ----

  lemma {:induction false} SamePrefix(c: Contents, d: Contents, kind: Kind, scope: Scope, n: nat)
    requires AllConsistent(c) && AllConsistent(d) && c.hidden == d.hidden
    requires n <= |c.On(kind).fns| && n <= |d.On(kind).fns|
    requires c.On(kind).fns[..n] == d.On(kind).fns[..n] && c.On(kind).scopes[..n] == d.On(kind).scopes[..n]
    ensures ItemsUpTo(c, kind, scope, n) == ItemsUpTo(d, kind, scope, n)
  {
    if n > 0 {
      var f, g := c.On(kind).fns, d.On(kind).fns;
      var p, q := c.On(kind).scopes, d.On(kind).scopes;
      assert f[..n][n - 1] == g[..n][n - 1] && p[..n][n - 1] == q[..n][n - 1];
      assert f[..n - 1] == f[..n][..n - 1] && g[..n - 1] == g[..n][..n - 1];
      assert p[..n - 1] == p[..n][..n - 1] && q[..n - 1] == q[..n][..n - 1];
      SamePrefix(c, d, kind, scope, n - 1);
    }
  }

  /** Whether a new registration shows in a listing. */
  predicate Shows(c: Contents, kind: Kind, fn: Function, scope: Scope, key: Key) {
    scope == key.scope && ListsKind(key.ty, kind) && fn.name !in c.hidden
  }

  /** A registration adds its own item at the end of its kind, if it is listed
      in that scope and not hidden, and touches no other kind. */
  lemma AddedItems(c: Contents, kind: Kind, fn: Function, scope: Scope, k: Kind, at: Scope)
    requires AllConsistent(c)
    ensures AllConsistent(Added(c, kind, fn, scope))
    ensures Items(Added(c, kind, fn, scope), k, at) ==
      Items(c, k, at) + if k == kind && at == scope && fn.name !in c.hidden then [Item(kind, fn, at.path)] else []
  {
    AddedIsConsistent(c, kind, fn, scope);
    var d := Added(c, kind, fn, scope);
    var n := |c.On(k).fns|;
    if k == kind {
      assert d.On(k) == Pushed(c.On(k), fn, scope);
      assert d.On(k).fns[..n] == c.On(k).fns == c.On(k).fns[..n];
      assert d.On(k).scopes[..n] == c.On(k).scopes == c.On(k).scopes[..n];
    } else {
      assert d.On(k) == c.On(k);
    }
    SamePrefix(c, d, k, at, n);
  }

  /** So a listing is unchanged exactly when the registration does not show. */
  lemma AddedListing(c: Contents, kind: Kind, fn: Function, scope: Scope, key: Key)
    requires AllConsistent(c)
    ensures AllConsistent(Added(c, kind, fn, scope))
    ensures Listing(Added(c, kind, fn, scope), key) == Listing(c, key) <==> !Shows(c, kind, fn, scope, key)
  {
    var d := Added(c, kind, fn, scope);
    AddedIsConsistent(c, kind, fn, scope);
    forall k: Kind
      ensures Items(d, k, key.scope) == Items(c, k, key.scope)
        + if k == kind && key.scope == scope && fn.name !in c.hidden then [Item(kind, fn, key.scope.path)] else []
    {
      AddedItems(c, kind, fn, scope, k, key.scope);
    }
    if Shows(c, kind, fn, scope, key) {
      ListingLength(c, key);
      ListingLength(d, key);
    } else {
      SameListing(c, d, key);
    }
  }

  // ---- Hiding ----

  function Hid(c: Contents, name: Bytes): Contents { c.(hidden := c.hidden + {name}) }

  /** A registration of the name is in the listing. */
  ghost predicate ListsName(c: Contents, name: Bytes, kind: Kind, scope: Scope, n: nat)
    requires AllConsistent(c) && n <= |c.On(kind).fns|
  {
    exists i: nat :: i < n && Listed(c, kind, scope, i) && c.On(kind).fns[i].name == name
  }

  lemma HidIsConsistent(c: Contents, name: Bytes)
    requires AllConsistent(c)
    ensures AllConsistent(Hid(c, name))
  {
    forall k: Kind ensures Consistent(Hid(c, name).On(k)) { assert Hid(c, name).On(k) == c.On(k); }
  }

  lemma {:induction false} HidItems(c: Contents, name: Bytes, kind: Kind, scope: Scope, n: nat)
    requires AllConsistent(c) && AllConsistent(Hid(c, name)) && n <= |c.On(kind).fns|
    ensures Hid(c, name).On(kind) == c.On(kind)
    ensures var before, after := ItemsUpTo(c, kind, scope, n), ItemsUpTo(Hid(c, name), kind, scope, n);
      if ListsName(c, name, kind, scope, n) then |after| < |before| else after == before
  {
    assert Hid(c, name).On(kind) == c.On(kind);
    if n > 0 {
      HidItems(c, name, kind, scope, n - 1);
      assert ListsName(c, name, kind, scope, n) <==>
        || ListsName(c, name, kind, scope, n - 1)
        || (Listed(c, kind, scope, n - 1) && c.On(kind).fns[n - 1].name == name);
      assert Listed(Hid(c, name), kind, scope, n - 1) <==>
        Listed(c, kind, scope, n - 1) && c.On(kind).fns[n - 1].name != name;
    }
  }

  /** Some function of that name is in the listing. */
  ghost predicate Names(c: Contents, name: Bytes, key: Key)
    requires AllConsistent(c)
  {
    exists k: Kind :: ListsKind(key.ty, k) && ListsName(c, name, k, key.scope, |c.On(k).fns|)
  }

  /** Hiding a name leaves a listing as it is exactly when it lists no function
      of that name. */
  lemma HidListing(c: Contents, name: Bytes, key: Key)
    requires AllConsistent(c)
    ensures AllConsistent(Hid(c, name))
    ensures Listing(Hid(c, name), key) == Listing(c, key) <==> !Names(c, name, key)
    ensures Names(c, name, key) ==> |Listing(Hid(c, name), key)| < |Listing(c, key)|
  {
    var d := Hid(c, name);
    HidIsConsistent(c, name);
    forall k: Kind
      ensures if ListsName(c, name, k, key.scope, |c.On(k).fns|)
              then |Items(d, k, key.scope)| < |Items(c, k, key.scope)|
              else Items(d, k, key.scope) == Items(c, k, key.scope)
    {
      HidItems(c, name, k, key.scope, |c.On(k).fns|);
    }
    if Names(c, name, key) {
      ListingLength(c, key);
      ListingLength(d, key);
    } else {
      SameListing(c, d, key);
    }
  }
}
