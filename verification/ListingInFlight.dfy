/** Exactly which registrations and hidden names mislead a listing request that
    is under way (src/catalog.cpp, `function_listing`,
    `build_function_listing`). */
module ListingInFlight {
  import opened Basics
  import opened Registry
  import opened RegistryService
  import opened ListingChanges
  import opened ListingRaces

  // ---- A request run to its answer ----

  /** A thread run to its answer with nothing else going on, and the cache it
      leaves. */
  ghost function RunAlone(c: Contents, cache: Cache, t: Thread): (Thread, Cache)
    requires AllConsistent(c) && Shaped(t)
    decreases StepsLeft(t)
  {
    if t.Done? then (t, cache)
    else
      EveryStepCounts(c, cache, t);
      var (moved, cache') := Moved(c, cache, t);
      RunAlone(c, cache', moved)
  }

  /** Only this key, or a typed part of it, is cached. */
  predicate OwnKeys(cache: Cache, key: Key) {
    forall k :: k in cache ==> k.scope == key.scope && (k.ty == key.ty || k.ty in TypesOf(key.ty))
  }

  lemma MovesOwnKeys(c: Contents, cache: Cache, t: Thread)
    requires AllConsistent(c) && Shaped(t) && OwnKeys(cache, t.key)
    ensures OwnKeys(Moved(c, cache, t).1, t.key)
  {
  }

  /** As an oracle says all along, so at the end: the answer is what it tells,
      and it is cached unless it is empty. */
  lemma {:induction false} AloneOnCourse(l: Oracle, c: Contents, cache: Cache, t: Thread)
    requires AllConsistent(c) && OnCourse(l, t) && WillBuild(l, c, t) && !t.Done?
    requires CacheSays(l, t.key.scope, cache) && OwnKeys(cache, t.key)
    ensures var (d, cache') := RunAlone(c, cache, t);
      && d == Done(t.key, Told(l, t.key.ty), c)
      && CacheSays(l, t.key.scope, cache') && OwnKeys(cache', t.key)
      && (d.items != [] ==> t.key in cache')
    decreases if Shaped(t) then StepsLeft(t) else 0
  {
    EveryStepCounts(c, cache, t);
    MovesOnCourse(l, c, cache, t);
    MovesOwnKeys(c, cache, t);
    var (moved, cache') := Moved(c, cache, t);
    if !moved.Done? { AloneOnCourse(l, c, cache', moved); }
  }

  // ---- A change under way ----

  predicate HoldsType(t: Thread, ty: Bytes)
    requires Shaped(t)
  {
    exists i :: 0 <= i < Held(t) && TypesOf(t.key.ty)[i] == ty
  }

  /** What a request ends with when the registries change from `c` to `d`: the
      types it holds as they were, the others as they are. */
  ghost function Blend(c: Contents, d: Contents, t: Thread): Oracle
    requires AllConsistent(c) && AllConsistent(d) && Shaped(t)
  {
    (ty: Bytes) => if HoldsType(t, ty) then TypedListing(c, t.key.scope, ty) else TypedListing(d, t.key.scope, ty)
  }

  lemma TypesOnce(ty: Bytes, i: nat, j: nat)
    requires i < j < |TypesOf(ty)|
    ensures TypesOf(ty)[i] != TypesOf(ty)[j]
  {
    TypesDiffer();
  }

  /** The outcome of a request, run to its answer after a change. */
  ghost function Outcome(c: Contents, e: Event, t: Thread): (Thread, Cache)
    requires AllConsistent(c) && Shaped(t)
  {
    StaysConsistent(c, e);
    RunAlone(ContentsAfter(c, e), map[], t)
  }

  lemma OutcomeIsBlend(c: Contents, e: Event, t: Thread)
    requires AllConsistent(c) && RightCourse(c, t) && !t.Done?
    ensures AllConsistent(ContentsAfter(c, e))
    ensures var l, (d, cache) := Blend(c, ContentsAfter(c, e), t), Outcome(c, e, t);
      && d == Done(t.key, Told(l, t.key.ty), ContentsAfter(c, e))
      && CacheSays(l, t.key.scope, cache) && OwnKeys(cache, t.key)
      && (d.items != [] ==> t.key in cache)
  {
    StaysConsistent(c, e);
    var l := Blend(c, ContentsAfter(c, e), t);
    CourseDepends(Rebuilt(c, t.key.scope), l, t);
    forall i | Held(t) <= i < |TypesOf(t.key.ty)| ensures !HoldsType(t, TypesOf(t.key.ty)[i]) {
      forall j | 0 <= j < Held(t) ensures TypesOf(t.key.ty)[j] != TypesOf(t.key.ty)[i] { TypesOnce(t.key.ty, j, i); }
    }
    AloneOnCourse(l, ContentsAfter(c, e), map[], t);
  }

  /** A change that does not catch the request: it is answered right, and leaves
      the cache right. */
  lemma UncaughtIsRight(c: Contents, e: Event, t: Thread)
    requires AllConsistent(c) && RightCourse(c, t) && !t.Done? && !Catches(c, e, t)
    ensures AllConsistent(ContentsAfter(c, e))
    ensures Outcome(c, e, t).0 == Done(t.key, Listing(ContentsAfter(c, e), t.key), ContentsAfter(c, e))
    ensures Faithful(ContentsAfter(c, e), Outcome(c, e, t).1)
  {
    OutcomeIsBlend(c, e, t);
    var d := ContentsAfter(c, e);
    var l, m := Blend(c, d, t), Rebuilt(d, t.key.scope);
    forall ty ensures l(ty) == m(ty) {
      if i :| 0 <= i < Held(t) && TypesOf(t.key.ty)[i] == ty { UncaughtHolds(c, e, t, i); }
    }
    JoinedSame(l, m, TypesOf(t.key.ty));
    RebuiltTells(d, t.key);
    SaysRebuilt(l, d, t.key, Outcome(c, e, t).1);
  }

  lemma SaysRebuilt(l: Oracle, d: Contents, key: Key, cache: Cache)
    requires AllConsistent(d) && (forall ty :: l(ty) == Rebuilt(d, key.scope)(ty))
    requires CacheSays(l, key.scope, cache) && OwnKeys(cache, key)
    ensures Faithful(d, cache)
  {
    forall k | k in cache ensures cache[k] != [] && cache[k] == Listing(d, k) {
      JoinedSame(l, Rebuilt(d, key.scope), TypesOf(k.ty));
      RebuiltTells(d, k);
    }
  }

  /** Two types of one request never list the same kind. */
  lemma OneTypeLists(ty: Bytes, i: nat, j: nat, kind: Kind)
    requires i < |TypesOf(ty)| && j < |TypesOf(ty)| && i != j && ListsKind(TypesOf(ty)[i], kind)
    ensures !ListsKind(TypesOf(ty)[j], kind)
  {
    TypesDiffer();
    ListsKindOf(TypesOf(ty)[i]);
    ListsKindOf(TypesOf(ty)[j]);
  }

  /** Caught by a registration, a request ends as if it had not happened. */
  lemma CaughtIsOld(c: Contents, e: Event, t: Thread)
    requires AllConsistent(c) && RightCourse(c, t) && !t.Done? && e.Register? && Catches(c, e, t)
    ensures AllConsistent(ContentsAfter(c, e))
    ensures Told(Blend(c, ContentsAfter(c, e), t), t.key.ty) == Listing(c, t.key)
    ensures Listing(ContentsAfter(c, e), t.key) != Listing(c, t.key)
  {
    StaysConsistent(c, e);
    var types, l := TypesOf(t.key.ty), Blend(c, ContentsAfter(c, e), t);
    var i :| 0 <= i < Held(t) && ListsKind(types[i], e.kind);
    forall j | 0 <= j < |types| ensures l(types[j]) == Rebuilt(c, t.key.scope)(types[j]) {
      if j >= Held(t) {
        OneTypeLists(t.key.ty, i, j, e.kind);
        TypeIsNamed(t, j);
        SparedListing(c, e, t.key.scope, types[j]);
      }
    }
    JoinedSame(l, Rebuilt(c, t.key.scope), types);
    RebuiltTells(c, t.key);
    ListsKindOf(t.key.ty);
    AddedListing(c, e.kind, e.fn, e.scope, t.key);
  }

  /** A cache of nothing but parts of an empty listing is empty. */
  lemma NothingCached(l: Oracle, cache: Cache, key: Key)
    requires CacheSays(l, key.scope, cache) && OwnKeys(cache, key) && Told(l, key.ty) == []
    ensures cache == map[]
  {
    forall k | k in cache ensures false {
      ToldIs(l, key.ty);
      ToldIs(l, k.ty);
      TypesDiffer();
    }
  }

  lemma CaughtByRegistration(c: Contents, e: Event, t: Thread)
    requires AllConsistent(c) && RightCourse(c, t) && !t.Done? && e.Register? && Catches(c, e, t)
    ensures AllConsistent(ContentsAfter(c, e))
    ensures Outcome(c, e, t).0 == Done(t.key, Listing(c, t.key), ContentsAfter(c, e))
    ensures Listing(c, t.key) != Listing(ContentsAfter(c, e), t.key)
    ensures Faithful(ContentsAfter(c, e), Outcome(c, e, t).1) <==> Listing(c, t.key) == []
  {
    OutcomeIsBlend(c, e, t);
    CaughtIsOld(c, e, t);
    var l, cache := Blend(c, ContentsAfter(c, e), t), Outcome(c, e, t).1;
    if Listing(c, t.key) == [] {
      NothingCached(l, cache, t.key);
    } else {
      assert cache[t.key] == Told(l, t.key.ty);
    }
  }

  /** For every request in flight, wherever it stands: run to its answer after a
      registration, it is answered right if and only if the registration is of
      another scope, of a hidden name, or of a kind whose listing the request
      does not hold yet. The cache is left right in these cases, and also when
      the request, caught, had nothing to list: an empty listing is not kept. */
  lemma RegistrationInFlight(s: State, t: nat, kind: Kind, fn: Function, scope: Scope)
    requires Inv(s) && t < |s.threads| && !s.threads[t].Done?
    ensures var c, thread, e := s.contents, s.threads[t], Register(kind, fn, scope);
      var caught := scope == thread.key.scope && fn.name !in c.hidden && HoldsKind(thread, kind);
      && AllConsistent(Added(c, kind, fn, scope)) && Outcome(c, e, thread).0.Done?
      && (Outcome(c, e, thread).0.items == Listing(Added(c, kind, fn, scope), thread.key) <==> !caught)
      && (Faithful(Added(c, kind, fn, scope), Outcome(c, e, thread).1) <==>
            !caught || Listing(c, thread.key) == [])
  {
    var c, thread, e := s.contents, s.threads[t], Register(kind, fn, scope);
    assert RightCourse(c, thread);
    if Catches(c, e, thread) { CaughtByRegistration(c, e, thread); } else { UncaughtIsRight(c, e, thread); }
  }

  // ---- Hiding ----

  lemma {:induction false} JoinedLonger(l: Oracle, m: Oracle, types: seq<Bytes>)
    requires forall i :: 0 <= i < |types| ==> |m(types[i])| <= |l(types[i])|
    ensures |Joined(m, types)| <= |Joined(l, types)|
    ensures (exists i :: 0 <= i < |types| && |m(types[i])| < |l(types[i])|) ==> |Joined(m, types)| < |Joined(l, types)|
  {
    if types != [] {
      var init := types[..|types| - 1];
      assert forall i :: 0 <= i < |init| ==> init[i] == types[i];
      JoinedLonger(l, m, init);
    }
  }

  /** Caught by a hidden name, a request ends with the name in its listing. */
  lemma CaughtByHiding(c: Contents, e: Event, t: Thread)
    requires AllConsistent(c) && RightCourse(c, t) && !t.Done? && e.Hide? && Catches(c, e, t)
    ensures AllConsistent(ContentsAfter(c, e))
    ensures Outcome(c, e, t).0.Done?
    ensures |Outcome(c, e, t).0.items| > |Listing(ContentsAfter(c, e), t.key)|
    ensures !Faithful(ContentsAfter(c, e), Outcome(c, e, t).1)
  {
    OutcomeIsBlend(c, e, t);
    var d, types := ContentsAfter(c, e), TypesOf(t.key.ty);
    var l, m := Blend(c, d, t), Rebuilt(d, t.key.scope);
    forall i | 0 <= i < |types|
      ensures |m(types[i])| <= |l(types[i])|
      ensures HoldsType(t, types[i]) && Names(c, e.name, Key(t.key.scope, types[i])) ==> |m(types[i])| < |l(types[i])|
    {
      TypeIsNamed(t, i);
      HidListing(c, e.name, Key(t.key.scope, types[i]));
    }
    var i :| 0 <= i < Held(t) && Names(c, e.name, Key(t.key.scope, types[i]));
    assert HoldsType(t, types[i]);
    JoinedLonger(l, m, types);
    RebuiltTells(d, t.key);
    assert Outcome(c, e, t).1[t.key] == Told(l, t.key.ty);
  }

  /** The same for hiding a name: the request is answered right, and leaves the
      cache right, if and only if it holds no listing with a function of that
      name. */
  lemma HidingInFlight(s: State, t: nat, name: Bytes)
    requires Inv(s) && t < |s.threads| && !s.threads[t].Done?
    ensures var c, thread, e := s.contents, s.threads[t], Hide(name);
      && AllConsistent(Hid(c, name)) && Outcome(c, e, thread).0.Done?
      && (Outcome(c, e, thread).0.items == Listing(Hid(c, name), thread.key) <==> !HoldsName(c, thread, name))
      && (Faithful(Hid(c, name), Outcome(c, e, thread).1) <==> !HoldsName(c, thread, name))
  {
    var c, thread, e := s.contents, s.threads[t], Hide(name);
    assert RightCourse(c, thread);
    if Catches(c, e, thread) { CaughtByHiding(c, e, thread); } else { UncaughtIsRight(c, e, thread); }
  }

  /** So the guard of a run is exact: a change keeps the invariant if and only
      if it catches no request in flight. */
  lemma GuardIsExact(s: State, e: Event)
    requires Inv(s) && IsChange(e)
    ensures Inv(Next(s, e)) <==> Safe(s, e)
  {
    if Safe(s, e) {
      NextKeepsInv(s, e);
    } else {
      var i :| 0 <= i < |s.threads| && !s.threads[i].Done? && Catches(s.contents, e, s.threads[i]);
      var t := s.threads[i];
      assert RightCourse(s.contents, t);
      CaughtIsOffCourse(s.contents, e, t);
      assert Next(s, e).threads[i] == t;
    }
  }

  lemma CaughtIsOffCourse(c: Contents, e: Event, t: Thread)
    requires AllConsistent(c) && RightCourse(c, t) && !t.Done? && IsChange(e) && Catches(c, e, t)
    ensures !RightCourse(ContentsAfter(c, e), t)
  {
    StaysConsistent(c, e);
    var d := ContentsAfter(c, e);
    if RightCourse(d, t) {
      AloneOnCourse(Rebuilt(d, t.key.scope), d, map[], t);
      RebuiltTells(d, t.key);
    }
    if e.Register? { CaughtByRegistration(c, e, t); } else { CaughtByHiding(c, e, t); }
  }

  // ---- Three cases ----

  const NONE := Contents(EMPTY, EMPTY, EMPTY, EMPTY, EMPTY, {})

  lemma NothingListed(scope: Scope, ty: Bytes)
    ensures AllConsistent(NONE) && Listing(NONE, Key(scope, ty)) == []
  {
    forall k: Kind ensures Consistent(NONE.On(k)) { assert NONE.On(k) == EMPTY; }
    TypesDiffer();
  }

  lemma ScalarListed(c: Contents, f: Function, scope: Scope)
    requires AllConsistent(c) && f.name !in c.hidden
    ensures AllConsistent(Added(c, Scalar, f, scope)) && Added(c, Scalar, f, scope).hidden == c.hidden
    ensures TypedListing(Added(c, Scalar, f, scope), scope, SCALAR)
      == TypedListing(c, scope, SCALAR) + [Item(Scalar, f, scope.path)]
  {
    AddedItems(c, Scalar, f, scope, Scalar, scope);
    TypesDiffer();
  }

  /** The registries with one scalar. */
  ghost function One(f: Function, scope: Scope): (c: Contents)
    ensures AllConsistent(c) && c.hidden == {} && TypedListing(c, scope, SCALAR) == [Item(Scalar, f, scope.path)]
  {
    NothingListed(scope, SCALAR);
    TypesDiffer();
    ScalarListed(NONE, f, scope);
    Added(NONE, Scalar, f, scope)
  }

  /** A typed request that has built its listing, and a second scalar: the
      listing of the first alone stays cached. */
  lemma StaleListing(f: Function, g: Function, scope: Scope)
    ensures var c, key, e := One(f, scope), Key(scope, SCALAR), Register(Scalar, g, scope);
      var t := Working(key, 0, [], Insert([Item(Scalar, f, scope.path)]));
      && RightCourse(c, t) && AllConsistent(ContentsAfter(c, e))
      && Outcome(c, e, t).0 == Done(key, [Item(Scalar, f, scope.path)], ContentsAfter(c, e))
      && !Faithful(ContentsAfter(c, e), Outcome(c, e, t).1)
  {
    var c, key, e := One(f, scope), Key(scope, SCALAR), Register(Scalar, g, scope);
    var t := Working(key, 0, [], Insert([Item(Scalar, f, scope.path)]));
    TypesDiffer();
    assert TypesOf(SCALAR)[0] == SCALAR && TypesOf(SCALAR)[..0] == [];
    assert Catches(c, e, t);
    CaughtByRegistration(c, e, t);
  }

  /** An untyped request that has the scalars and goes on to the tables, and a
      second scalar: no type is being inserted just then, and still the whole
      listing ends up cached without it. */
  lemma StaleWhole(f: Function, g: Function, scope: Scope)
    ensures var c, key, e := One(f, scope), Key(scope, []), Register(Scalar, g, scope);
      var t := Working(key, 1, [Item(Scalar, f, scope.path)], Lookup);
      && RightCourse(c, t) && AllConsistent(ContentsAfter(c, e))
      && Outcome(c, e, t).0 == Done(key, Listing(c, key), ContentsAfter(c, e))
      && Listing(c, key) != Listing(ContentsAfter(c, e), key)
      && !Faithful(ContentsAfter(c, e), Outcome(c, e, t).1)
  {
    var c, key, e := One(f, scope), Key(scope, []), Register(Scalar, g, scope);
    var t := Working(key, 1, [Item(Scalar, f, scope.path)], Lookup);
    TypesDiffer();
    ScalarsFirst(Rebuilt(c, scope));
    assert ListsKind(TypesOf([])[0], Scalar);
    CaughtByRegistration(c, e, t);
    assert |Listing(c, key)| > 0;
  }

  lemma ScalarsFirst(l: Oracle)
    ensures Joined(l, TypesOf([])[..1]) == l(SCALAR)
  {
    var types := TypesOf([])[..1];
    assert types == [SCALAR] && types[..0] == [];
    assert Joined(l, types[..|types| - 1]) == [];
  }

  /** An untyped request that found no scalars, and a first scalar: it is
      answered nothing, but that is not kept. */
  lemma EmptyIsNotKept(g: Function, scope: Scope)
    ensures var key, e := Key(scope, []), Register(Scalar, g, scope);
      var t := Working(key, 1, [], Lookup);
      && RightCourse(NONE, t) && AllConsistent(ContentsAfter(NONE, e))
      && Outcome(NONE, e, t).0 == Done(key, [], ContentsAfter(NONE, e)) && Listing(ContentsAfter(NONE, e), key) != []
      && Faithful(ContentsAfter(NONE, e), Outcome(NONE, e, t).1)
  {
    var key, e := Key(scope, []), Register(Scalar, g, scope);
    var t := Working(key, 1, [], Lookup);
    NothingListed(scope, []);
    NothingListed(scope, SCALAR);
    TypesDiffer();
    ScalarsFirst(Rebuilt(NONE, scope));
    assert ListsKind(TypesOf([])[0], Scalar);
    CaughtByRegistration(NONE, e, t);
  }
}
