/** Listing requests racing on several threads with registrations and with each
    other (src/catalog.cpp, `function_listing`, `build_function_listing`): the
    cache is locked for a lookup and for an insertion, and a listing is built
    between the two, outside the lock. */
module ListingRaces {
  import opened Basics
  import opened Registry
  import opened RegistryService
  import opened ListingChanges

  datatype Part = Lookup | Build | Insert(items: seq<Item>)

  /** Where a request stands. An untyped request that found nothing assembles
      the three typed listings, each through the cache, and then inserts the
      whole; a typed one has just its own. `acc` is what the first `done` types
      gave, `asOf` what was registered when the request was answered. */
  datatype Thread =
    | Opening(key: Key)
    | Working(key: Key, done: nat, acc: seq<Item>, part: Part)
    | Closing(key: Key, acc: seq<Item>)
    | Done(key: Key, items: seq<Item>, asOf: Contents)

  type Cache = map<Key, seq<Item>>

  datatype State = State(contents: Contents, cache: Cache, threads: seq<Thread>)

  datatype Event =
    | Request(key: Key)
    | Advance(thread: nat)
    | Register(kind: Kind, fn: Function, scope: Scope)
    | Hide(name: Bytes)

  /** The types a listing is assembled from, in order. */
  function TypesOf(ty: Bytes): (r: seq<Bytes>)
    ensures |r| == if ty == [] then 3 else 1
  {
    if ty == [] then [SCALAR, TABLE, AGGREGATE] else [ty]
  }

  function Begin(key: Key): Thread { if key.ty == [] then Opening(key) else Working(key, 0, [], Lookup) }

  /** `try_emplace`: the first to land is the one kept. */
  function Emplaced(cache: Cache, key: Key, items: seq<Item>): Cache {
    if key in cache then cache else cache[key := items]
  }

  /** Where threads can be. */
  predicate Shaped(t: Thread) {
    match t
    case Opening(key) => key.ty == []
    case Working(key, done, _, _) => done < |TypesOf(key.ty)|
    case Closing(key, _) => key.ty == []
    case Done(_, _, _) => true
  }

  /** The type a working thread is at. */
  function TypeAt(t: Thread): Bytes
    requires t.Working? && Shaped(t)
  {
    TypesOf(t.key.ty)[t.done]
  }

  /** A typed listing is at hand: go on to the next type, or finish. */
  function Finished(c: Contents, t: Thread, items: seq<Item>): Thread
    requires t.Working?
  {
    if t.key.ty != [] then Done(t.key, items, c)
    else if t.done < 2 then Working(t.key, t.done + 1, t.acc + items, Lookup)
    else if t.acc + items == [] then Done(t.key, [], c)
    else Closing(t.key, t.acc + items)
  }

  /** One step of one thread: its new place, and the cache after it. */
  ghost function Moved(c: Contents, cache: Cache, t: Thread): (Thread, Cache)
    requires AllConsistent(c) && Shaped(t)
  {
    match t
    case Opening(key) => (if key in cache then Done(key, cache[key], c) else Working(key, 0, [], Lookup), cache)
    case Working(key, _, _, part) =>
      var k := Key(key.scope, TypeAt(t));
      (match part
       case Lookup => (if k in cache then Finished(c, t, cache[k]) else t.(part := Build), cache)
       case Build =>
         var items := TypedListing(c, key.scope, TypeAt(t));
         (if items == [] then Finished(c, t, []) else t.(part := Insert(items)), cache)
       case Insert(items) =>
         var cache' := Emplaced(cache, k, items);
         (Finished(c, t, cache'[k]), cache'))
    case Closing(key, acc) =>
      var cache' := Emplaced(cache, key, acc);
      (Done(key, cache'[key], c), cache')
    case Done(_, _, _) => (t, cache)
  }

  /** How many of its own steps a request still needs, at most. */
  function StepsLeft(t: Thread): nat
    requires Shaped(t)
  {
    match t
    case Opening(_) => 13
    case Working(key, done, _, part) =>
      3 * (|TypesOf(key.ty)| - done) + (if part.Lookup? then 3 else if part.Build? then 2 else 1)
    case Closing(_, _) => 1
    case Done(_, _, _) => 0
  }

  /** No request waits for another: each step of a thread brings it closer to
      its answer, whatever the others do. */
  lemma EveryStepCounts(c: Contents, cache: Cache, t: Thread)
    requires AllConsistent(c) && Shaped(t)
    ensures var moved := Moved(c, cache, t).0;
      Shaped(moved) && moved.key == t.key && (!t.Done? ==> StepsLeft(moved) < StepsLeft(t))
  {
  }

  // ---- Events ----

  ghost predicate Ready(s: State) {
    AllConsistent(s.contents) && forall i :: 0 <= i < |s.threads| ==> Shaped(s.threads[i])
  }

  predicate Possible(s: State, e: Event) { e.Advance? ==> e.thread < |s.threads| }

  /** The registries after an event. */
  function ContentsAfter(c: Contents, e: Event): Contents {
    match e
    case Register(kind, fn, scope) => Added(c, kind, fn, scope)
    case Hide(name) => Hid(c, name)
    case _ => c
  }

  predicate IsChange(e: Event) { e.Register? || e.Hide? }

  lemma StaysConsistent(c: Contents, e: Event)
    requires AllConsistent(c)
    ensures AllConsistent(ContentsAfter(c, e))
  {
    if e.Register? { AddedIsConsistent(c, e.kind, e.fn, e.scope); }
    if e.Hide? { HidIsConsistent(c, e.name); }
  }

  /** A registration or a hidden name clears the cache. */
  ghost function Next(s: State, e: Event): State
    requires Ready(s) && Possible(s, e)
  {
    match e
    case Request(key) => s.(threads := s.threads + [Begin(key)])
    case Advance(t) =>
      var (thread, cache) := Moved(s.contents, s.cache, s.threads[t]);
      s.(threads := s.threads[t := thread], cache := cache)
    case _ => s.(contents := ContentsAfter(s.contents, e), cache := map[])
  }

  // ---- What a request is on its way to ----

  /** Typed listings, however come by. */
  type Oracle = Bytes -> seq<Item>

  /** Those of a scope, rebuilt. */
  ghost function Rebuilt(c: Contents, scope: Scope): Oracle
    requires AllConsistent(c)
  {
    (ty: Bytes) => TypedListing(c, scope, ty)
  }

  ghost function Joined(l: Oracle, types: seq<Bytes>): seq<Item> {
    if types == [] then [] else Joined(l, types[..|types| - 1]) + l(types[|types| - 1])
  }

  /** The listing a key asks for, by an oracle's typed ones. */
  ghost function Told(l: Oracle, ty: Bytes): seq<Item> { Joined(l, TypesOf(ty)) }

  lemma ToldIs(l: Oracle, ty: Bytes)
    ensures Told(l, ty) == if ty == [] then l(SCALAR) + l(TABLE) + l(AGGREGATE) else l(ty)
  {
    var types := TypesOf(ty);
    if ty == [] {
      var two := types[..2];
      var one := two[..1];
      assert one[..0] == [] && two[..|two| - 1] == one && types[..|types| - 1] == two;
      assert Joined(l, one) == l(SCALAR) by { assert Joined(l, one[..|one| - 1]) == []; }
      assert Joined(l, two) == l(SCALAR) + l(TABLE);
    } else {
      assert types[..|types| - 1] == [] && Joined(l, types[..|types| - 1]) == [];
    }
  }

  lemma RebuiltTells(c: Contents, key: Key)
    requires AllConsistent(c)
    ensures Told(Rebuilt(c, key.scope), key.ty) == Listing(c, key)
  {
    ToldIs(Rebuilt(c, key.scope), key.ty);
  }

  /** How many of its types a request holds the listings of. */
  function Held(t: Thread): (n: nat)
    requires Shaped(t)
    ensures n <= |TypesOf(t.key.ty)|
  {
    match t
    case Working(_, done, _, part) => if part.Insert? then done + 1 else done
    case Closing(_, _) => 3
    case _ => 0
  }

  /** A request holds what the oracle says of the types it has collected, and
      has been answered what it says of its key. */
  ghost predicate OnCourse(l: Oracle, t: Thread) {
    && Shaped(t)
    && match t
       case Opening(_) => true
       case Working(key, done, acc, part) =>
         && acc == Joined(l, TypesOf(key.ty)[..done])
         && (part.Insert? ==> part.items != [] && part.items == l(TypeAt(t)))
       case Closing(key, acc) => acc != [] && acc == Told(l, key.ty)
       case Done(key, items, _) => items == Told(l, key.ty)
  }

  /** What it has yet to build will be as the oracle says. */
  ghost predicate WillBuild(l: Oracle, c: Contents, t: Thread)
    requires AllConsistent(c) && Shaped(t)
  {
    forall i :: Held(t) <= i < |TypesOf(t.key.ty)| ==>
      l(TypesOf(t.key.ty)[i]) == TypedListing(c, t.key.scope, TypesOf(t.key.ty)[i])
  }

  /** What is cached for a scope is as the oracle says. */
  ghost predicate CacheSays(l: Oracle, scope: Scope, cache: Cache) {
    forall k :: k in cache && k.scope == scope ==> cache[k] != [] && cache[k] == Told(l, k.ty)
  }

  /** The right typed listing at hand, a request stays on course. */
  lemma FinishesOnCourse(l: Oracle, c: Contents, t: Thread)
    requires t.Working? && OnCourse(l, t)
    ensures var u := Finished(c, t, l(TypeAt(t))); OnCourse(l, u) && (u.Done? || Held(u) == t.done + 1)
  {
    var types := TypesOf(t.key.ty);
    assert types[..t.done + 1][..t.done] == types[..t.done];
    assert t.acc + l(TypeAt(t)) == Joined(l, types[..t.done + 1]);
    if t.done + 1 == |types| { assert types[..t.done + 1] == types; }
    if t.key.ty != [] { assert t.acc == [] by { assert types[..0] == []; } }
  }

  lemma EmplacedSays(l: Oracle, cache: Cache, key: Key, items: seq<Item>)
    requires CacheSays(l, key.scope, cache) && items != [] && items == Told(l, key.ty)
    ensures var cache' := Emplaced(cache, key, items);
      CacheSays(l, key.scope, cache') && key in cache' && cache'[key] == items
  {
  }

  /** A step of a working thread: it starts to build, comes to insert what it
      built, or goes on with the right listing. */
  lemma WorkMoves(l: Oracle, c: Contents, cache: Cache, t: Thread)
    requires AllConsistent(c) && t.Working? && OnCourse(l, t) && WillBuild(l, c, t)
    requires CacheSays(l, t.key.scope, cache)
    ensures var k, items, moved := Key(t.key.scope, TypeAt(t)), l(TypeAt(t)), Moved(c, cache, t);
      && CacheSays(l, t.key.scope, moved.1)
      && (|| (t.part.Lookup? && moved.0 == t.(part := Build))
          || (t.part.Build? && items != [] && moved.0 == t.(part := Insert(items)))
          || (moved.0 == Finished(c, t, items) && (items != [] ==> k in moved.1)))
  {
    TypesDiffer();
    var k := Key(t.key.scope, TypeAt(t));
    ToldIs(l, k.ty);
    if t.part.Insert? { EmplacedSays(l, cache, k, t.part.items); }
  }

  /** Only keys of its own scope does a thread add to the cache, and it never
      takes one out. */
  lemma AddsItsOwn(c: Contents, cache: Cache, t: Thread)
    requires AllConsistent(c) && Shaped(t)
    ensures var cache' := Moved(c, cache, t).1;
      && (forall k :: k in cache ==> k in cache' && cache'[k] == cache[k])
      && (forall k :: k in cache' && k !in cache ==> k.scope == t.key.scope)
  {
  }

  /** A step keeps a request and the cache of its scope as an oracle says; what
      it answers, unless empty, is cached then. */
  lemma MovesOnCourse(l: Oracle, c: Contents, cache: Cache, t: Thread)
    requires AllConsistent(c) && OnCourse(l, t) && WillBuild(l, c, t) && CacheSays(l, t.key.scope, cache) && !t.Done?
    ensures var (moved, cache') := Moved(c, cache, t);
      && OnCourse(l, moved) && moved.key == t.key && (moved.Done? || WillBuild(l, c, moved))
      && CacheSays(l, t.key.scope, cache')
      && (moved.Done? ==> moved.asOf == c && (moved.items != [] ==> t.key in cache'))
  {
    EveryStepCounts(c, cache, t);
    match t
    case Opening(key) => assert TypesOf(key.ty)[..0] == [];
    case Working(key, done, acc, part) =>
      WorkMoves(l, c, cache, t);
      FinishesOnCourse(l, c, t);
    case Closing(key, acc) => EmplacedSays(l, cache, key, acc);
  }

  // ---- The invariant ----

  /** What was registered when a request was answered, or else what is now. */
  function Basis(c: Contents, t: Thread): Contents { if t.Done? then t.asOf else c }

  /** The cache and every request are on course to the rebuild. */
  ghost predicate Inv(s: State) {
    && Ready(s) && Faithful(s.contents, s.cache)
    && forall i :: 0 <= i < |s.threads| ==> RightCourse(s.contents, s.threads[i])
  }

  ghost predicate RightCourse(c: Contents, t: Thread) {
    AllConsistent(Basis(c, t)) && OnCourse(Rebuilt(Basis(c, t), t.key.scope), t)
  }

  lemma FaithfulSays(c: Contents, cache: Cache)
    requires AllConsistent(c)
    ensures Faithful(c, cache) <==> forall scope :: CacheSays(Rebuilt(c, scope), scope, cache)
  {
    forall k: Key { RebuiltTells(c, k); }
    if forall scope :: CacheSays(Rebuilt(c, scope), scope, cache) {
      forall k | k in cache ensures cache[k] != [] && cache[k] == Listing(c, k) {
        assert CacheSays(Rebuilt(c, k.scope), k.scope, cache);
      }
    }
  }

  lemma AdvanceKeepsInv(s: State, t: nat)
    requires Inv(s) && t < |s.threads|
    ensures Inv(Next(s, Advance(t)))
  {
    var thread, c := s.threads[t], s.contents;
    assert RightCourse(c, thread);
    if !thread.Done? {
      var (moved, cache') := Moved(c, s.cache, thread);
      var l := Rebuilt(c, thread.key.scope);
      FaithfulSays(c, s.cache);
      MovesOnCourse(l, c, s.cache, thread);
      AddsItsOwn(c, s.cache, thread);
      forall k | k in cache' ensures cache'[k] != [] && cache'[k] == Listing(c, k) {
        if k.scope == thread.key.scope { RebuiltTells(c, k); }
      }
      assert RightCourse(c, moved);
    }
  }

  lemma RequestKeepsInv(s: State, key: Key)
    requires Inv(s)
    ensures Inv(Next(s, Request(key)))
  {
    assert RightCourse(s.contents, Begin(key));
  }

  // ---- Registrations in flight ----

  /** A request holds the listing of a type that lists the kind. */
  predicate HoldsKind(t: Thread, kind: Kind)
    requires Shaped(t)
  {
    exists i :: 0 <= i < Held(t) && ListsKind(TypesOf(t.key.ty)[i], kind)
  }

  /** A request holds a listing with a function of the name. */
  ghost predicate HoldsName(c: Contents, t: Thread, name: Bytes)
    requires AllConsistent(c) && Shaped(t)
  {
    exists i :: 0 <= i < Held(t) && Names(c, name, Key(t.key.scope, TypesOf(t.key.ty)[i]))
  }

  /** The change comes too late for what the request holds. */
  ghost predicate Catches(c: Contents, e: Event, t: Thread)
    requires AllConsistent(c) && Shaped(t)
  {
    match e
    case Register(kind, fn, scope) => scope == t.key.scope && fn.name !in c.hidden && HoldsKind(t, kind)
    case Hide(name) => HoldsName(c, t, name)
    case _ => false
  }

  /** The change catches no request in flight. */
  ghost predicate Safe(s: State, e: Event)
    requires Ready(s)
  {
    forall i :: 0 <= i < |s.threads| && !s.threads[i].Done? ==> !Catches(s.contents, e, s.threads[i])
  }

  lemma {:induction false} JoinedSame(l: Oracle, m: Oracle, types: seq<Bytes>)
    requires forall i :: 0 <= i < |types| ==> l(types[i]) == m(types[i])
    ensures Joined(l, types) == Joined(m, types)
  {
    if types != [] { JoinedSame(l, m, types[..|types| - 1]); }
  }

  /** Only what it holds decides whether a request is on course. */
  lemma CourseDepends(l: Oracle, m: Oracle, t: Thread)
    requires OnCourse(l, t) && !t.Done?
    requires forall i :: 0 <= i < Held(t) ==> l(TypesOf(t.key.ty)[i]) == m(TypesOf(t.key.ty)[i])
    ensures OnCourse(m, t)
  {
    var types := TypesOf(t.key.ty);
    if t.Working? { JoinedSame(l, m, types[..t.done]); }
    if t.Closing? { JoinedSame(l, m, types); }
  }

  lemma TypeIsNamed(t: Thread, i: nat)
    requires i < |TypesOf(t.key.ty)|
    ensures TypesOf(t.key.ty)[i] != []
  {
    TypesDiffer();
  }

  /** A typed listing that a change leaves as it is. */
  predicate Spares(c: Contents, e: Event, scope: Scope, ty: Bytes) {
    match e
    case Register(kind, fn, at) => at != scope || fn.name in c.hidden || !ListsKind(ty, kind)
    case _ => true
  }

  lemma SparedListing(c: Contents, e: Event, scope: Scope, ty: Bytes)
    requires AllConsistent(c) && ty != [] && Spares(c, e, scope, ty)
    requires e.Hide? ==> !Names(c, e.name, Key(scope, ty))
    ensures AllConsistent(ContentsAfter(c, e))
    ensures TypedListing(ContentsAfter(c, e), scope, ty) == TypedListing(c, scope, ty)
  {
    if e.Register? { AddedListing(c, e.kind, e.fn, e.scope, Key(scope, ty)); }
    if e.Hide? { HidListing(c, e.name, Key(scope, ty)); }
  }

  /** A change that does not catch a request leaves all that it holds right. */
  lemma UncaughtHolds(c: Contents, e: Event, t: Thread, i: nat)
    requires AllConsistent(c) && Shaped(t) && !Catches(c, e, t) && i < Held(t)
    ensures AllConsistent(ContentsAfter(c, e))
    ensures var ty := TypesOf(t.key.ty)[i];
      TypedListing(ContentsAfter(c, e), t.key.scope, ty) == TypedListing(c, t.key.scope, ty)
  {
    TypeIsNamed(t, i);
    SparedListing(c, e, t.key.scope, TypesOf(t.key.ty)[i]);
  }

  lemma ChangeKeepsCourse(c: Contents, e: Event, t: Thread)
    requires AllConsistent(c) && RightCourse(c, t) && (t.Done? || !Catches(c, e, t))
    ensures RightCourse(ContentsAfter(c, e), t)
  {
    StaysConsistent(c, e);
    if !t.Done? {
      forall i | 0 <= i < Held(t)
        ensures Rebuilt(c, t.key.scope)(TypesOf(t.key.ty)[i])
             == Rebuilt(ContentsAfter(c, e), t.key.scope)(TypesOf(t.key.ty)[i])
      {
        UncaughtHolds(c, e, t, i);
      }
      CourseDepends(Rebuilt(c, t.key.scope), Rebuilt(ContentsAfter(c, e), t.key.scope), t);
    }
  }

  /** Every step keeps the invariant, and so does every registration and every
      hidden name that catches no request in flight. */
  lemma NextKeepsInv(s: State, e: Event)
    requires Inv(s) && Possible(s, e) && Safe(s, e)
    ensures Inv(Next(s, e))
  {
    match e
    case Request(key) => RequestKeepsInv(s, key);
    case Advance(t) => AdvanceKeepsInv(s, t);
    case _ =>
      StaysConsistent(s.contents, e);
      forall i | 0 <= i < |s.threads| ensures RightCourse(ContentsAfter(s.contents, e), s.threads[i]) {
        assert RightCourse(s.contents, s.threads[i]);
        ChangeKeepsCourse(s.contents, e, s.threads[i]);
      }
  }

  // ---- Whole runs ----

  /** A run from a server with nothing cached and no request. Registrations and
      hidden names may come at any time, but catch no request in flight. */
  ghost predicate IsRun(states: seq<State>, events: seq<Event>) {
    && |states| == |events| + 1
    && AllConsistent(states[0].contents) && states[0].cache == map[] && states[0].threads == []
    && (forall i :: 0 <= i < |events| ==> IsStep(states[i], events[i], states[i + 1]))
  }

  ghost predicate IsStep(s: State, e: Event, s': State) {
    Ready(s) && Possible(s, e) && Safe(s, e) && s' == Next(s, e)
  }

  lemma {:induction false} RunKeepsInv(states: seq<State>, events: seq<Event>, n: nat)
    requires IsRun(states, events) && n <= |events|
    ensures Inv(states[n])
  {
    if n > 0 {
      RunKeepsInv(states, events, n - 1);
      assert IsStep(states[n - 1], events[n - 1], states[n]);
      NextKeepsInv(states[n - 1], events[n - 1]);
    }
  }

  /** At every moment of every such run, however threads and registrations
      interleave, every cached listing is a rebuild's, and every request was
      answered the rebuild of what was registered at its answer. */
  lemma CacheIsFaithful(states: seq<State>, events: seq<Event>, n: nat, t: nat)
    requires IsRun(states, events) && n <= |events|
    ensures Faithful(states[n].contents, states[n].cache)
    ensures t < |states[n].threads| && states[n].threads[t].Done? ==>
      var d := states[n].threads[t];
      AllConsistent(d.asOf) && d.items == Listing(d.asOf, d.key)
  {
    RunKeepsInv(states, events, n);
    if t < |states[n].threads| && states[n].threads[t].Done? {
      var d := states[n].threads[t];
      assert RightCourse(states[n].contents, d);
      RebuiltTells(d.asOf, d.key);
    }
  }

  lemma {:induction false} SameContents(states: seq<State>, events: seq<Event>, from: nat, n: nat)
    requires IsRun(states, events) && from <= n <= |events|
    requires forall i :: from <= i < n ==> !IsChange(events[i])
    ensures states[n].contents == states[from].contents
    decreases n
  {
    if n > from {
      SameContents(states, events, from, n - 1);
      assert IsStep(states[n - 1], events[n - 1], states[n]);
    }
  }

  /** What a request answered in a stretch without a change saw. */
  lemma {:induction false} AnsweredAsOf(states: seq<State>, events: seq<Event>, from: nat, n: nat, t: nat)
    requires IsRun(states, events) && from <= n <= |events|
    requires forall i :: from <= i < n ==> !IsChange(events[i])
    requires t < |states[n].threads| && states[n].threads[t].Done?
    requires t >= |states[from].threads| || !states[from].threads[t].Done?
    ensures states[n].threads[t].asOf == states[from].contents
    decreases n
  {
    if n > from {
      var s, e := states[n - 1], events[n - 1];
      assert IsStep(s, e, states[n]);
      SameContents(states, events, from, n - 1);
      if t < |s.threads| && s.threads[t].Done? { AnsweredAsOf(states, events, from, n - 1, t); }
    }
  }

  /** Requests answered with no registration in between all get the same
      listing, whatever came while they were under way: what is registered,
      rebuilt. */
  lemma RacingRequestsAgree(states: seq<State>, events: seq<Event>, from: nat, n: nat, t: nat, u: nat)
    requires IsRun(states, events) && from <= n <= |events|
    requires forall i :: from <= i < n ==> !IsChange(events[i])
    requires t < |states[n].threads| && u < |states[n].threads|
    requires t >= |states[from].threads| || !states[from].threads[t].Done?
    requires u >= |states[from].threads| || !states[from].threads[u].Done?
    requires states[n].threads[t].Done? && states[n].threads[u].Done?
    requires states[n].threads[t].key == states[n].threads[u].key
    ensures states[n].threads[t].items == states[n].threads[u].items
    ensures AllConsistent(states[from].contents)
    ensures states[n].threads[t].items == Listing(states[from].contents, states[n].threads[t].key)
  {
    CacheIsFaithful(states, events, n, t);
    CacheIsFaithful(states, events, n, u);
    AnsweredAsOf(states, events, from, n, t);
    AnsweredAsOf(states, events, from, n, u);
  }
}
