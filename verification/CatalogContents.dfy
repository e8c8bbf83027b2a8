/** Answering `catalog_contents`, and the revalidation protocol between a
    worker and a client that keeps the last full answer
    (src/catalog_contents.cpp, `answer_catalog_contents`). */
module CatalogContents {
  import opened Basics
  import opened SchemaPaths
  import opened ContentsFrame

  datatype EtagMode = NoEtag | ContentHash

  /** A handler's result. */
  datatype Reply = Reply(schemas: seq<SchemaContents>, etag: Option<Bytes>, notModified: bool)

  /** Where a snapshot comes from: the worker's own composition, or a custom
      handler, which sees the caller's `if_none_match`. Nothing is an
      exception raised. */
  datatype Source =
    | Composed(contents: Option<seq<SchemaContents>>)
    | Handler(reply: Option<Bytes> -> Option<Reply>)
  {
    function Ask(ifNoneMatch: Option<Bytes>): Option<Reply> {
      if Handler? then reply(ifNoneMatch)
      else
        var schemas :- contents;
        Some(Reply(schemas, None, false))
    }
  }

  /** What the answer calls: reading a schema's own path, serving a table item
      of a handler, the IPC writer and the hash. */
  datatype Tools = Tools(
    infoPath: InfoPath,
    serveItem: Serve,
    stream: Stream,
    hash: Bytes -> Bytes)

  datatype Error = Raised | WrongNotModified | NotModifiedWithSchemas | BadPaths | BadTable(fault: TableFault) | BadItem

  datatype Answer =
    | NotModified(known: Bytes)
    | Full(etag: Option<Bytes>, schemas: seq<SchemaContents>, collections: Collections)

  // ---- Serving a handler's tables ----

  type Serve = Bytes -> Result<Bytes, TableFault>

  function WithTablesServed(serve: Serve, s: SchemaContents): Result<SchemaContents, TableFault> {
    var tables :- TryMap(s.tables, serve);
    Ok(s.(tables := tables))
  }

  function ServedSchemas(serve: Serve, schemas: seq<SchemaContents>): Result<seq<SchemaContents>, TableFault> {
    TryMap(schemas, (s: SchemaContents) => WithTablesServed(serve, s))
  }

  method ServeTables(serve: Serve, items: seq<Bytes>) returns (r: Result<seq<Bytes>, TableFault>)
    ensures r == TryMap(items, serve)
  {
    var out: seq<Bytes> := [];
    for i := 0 to |items|
      invariant TryMap(items[..i], serve) == Ok(out)
    {
      TryMapNext(items, i, serve, out);
      var item := serve(items[i]);
      if item.Err? { return Err(item.error); }
      out := out + [item.value];
    }
    assert items[..|items|] == items;
    return Ok(out);
  }

  method ServeSchemas(serve: Serve, schemas: seq<SchemaContents>) returns (r: Result<seq<SchemaContents>, TableFault>)
    ensures r == ServedSchemas(serve, schemas)
  {
    ghost var f := (s: SchemaContents) => WithTablesServed(serve, s);
    var out: seq<SchemaContents> := [];
    for i := 0 to |schemas|
      invariant TryMap(schemas[..i], f) == Ok(out)
    {
      TryMapNext(schemas, i, f, out);
      var tables := ServeTables(serve, schemas[i].tables);
      if tables.Err? { return Err(tables.error); }
      out := out + [schemas[i].(tables := tables.value)];
    }
    assert schemas[..|schemas|] == schemas;
    return Ok(out);
  }

  // ---- The answer ----

  /** The schemas as they are served: checked, their tables held to their
      records, parents first. */
  function Prepared(tools: Tools, handled: bool, schemas: seq<SchemaContents>): Result<seq<SchemaContents>, Error> {
    if !Sound(schemas, if handled then Some(tools.infoPath) else None) then Err(BadPaths)
    else if !handled then Ok(ParentsFirst(schemas))
    else
      var served := ServedSchemas(tools.serveItem, schemas);
      if served.Err? then Err(BadTable(served.error)) else Ok(ParentsFirst(served.value))
  }

  /** What a client that asked now, with nothing to revalidate, would be sent. */
  function Snapshot(tools: Tools, handled: bool, schemas: seq<SchemaContents>): Result<Collections, Error> {
    var ordered :- Prepared(tools, handled, schemas);
    var collections := Encode(tools.stream, ordered);
    if collections.None? then Err(BadItem) else Ok(collections.value)
  }

  /** The etag a full answer carries. */
  function EtagOf(tools: Tools, mode: EtagMode, reply: Reply, collections: Collections): Option<Bytes> {
    if reply.etag.None? && mode == ContentHash then Some(tools.hash(Frame(collections))) else reply.etag
  }

  /** The answer, or why there is none. A source may answer "not modified" only
      to a caller that sent the etag, and any full answer whose etag the caller
      already has becomes one. */
  function Answered(tools: Tools, mode: EtagMode, source: Source, ifNoneMatch: Option<Bytes>): Result<Answer, Error>
  {
    var asked := source.Ask(ifNoneMatch);
    if asked.None? then Err(Raised)
    else
      var reply := asked.value;
      var matches := reply.etag.Some? && reply.etag == ifNoneMatch;
      if reply.notModified then
        if !matches then Err(WrongNotModified)
        else if reply.schemas != [] then Err(NotModifiedWithSchemas)
        else Ok(NotModified(reply.etag.value))
      else
        var ordered :- Prepared(tools, source.Handler?, reply.schemas);
        if matches then Ok(NotModified(reply.etag.value))
        else
          var current :- Snapshot(tools, source.Handler?, reply.schemas);
          var etag := EtagOf(tools, mode, reply, current);
          if etag.Some? && etag == ifNoneMatch then Ok(NotModified(etag.value))
          else Ok(Full(etag, ordered, current))
  }

  method AnswerCatalogContents(tools: Tools, mode: EtagMode, source: Source, ifNoneMatch: Option<Bytes>)
      returns (r: Result<Answer, Error>)
    ensures r == Answered(tools, mode, source, ifNoneMatch)
  {
    var asked := source.Ask(ifNoneMatch);
    if asked.None? { return Err(Raised); }
    var result := asked.value;
    if result.notModified {
      if result.etag.None? || ifNoneMatch.None? || result.etag.value != ifNoneMatch.value {
        return Err(WrongNotModified);
      }
      if result.schemas != [] { return Err(NotModifiedWithSchemas); }
      return Ok(NotModified(result.etag.value));
    }
    var error, _ := CheckPaths(result.schemas, if source.Handler? then Some(tools.infoPath) else None);
    if error.Some? { return Err(BadPaths); }
    var schemas := result.schemas;
    if source.Handler? {
      var served := ServeSchemas(tools.serveItem, schemas);
      if served.Err? { return Err(BadTable(served.error)); }
      schemas := served.value;
    }
    schemas := ParentsFirst(schemas);
    if result.etag.Some? && ifNoneMatch.Some? && result.etag.value == ifNoneMatch.value {
      return Ok(NotModified(result.etag.value));
    }
    var collections := EncodeCollections(tools.stream, schemas);
    if collections.None? { return Err(BadItem); }
    var etag := result.etag;
    if etag.None? && mode == ContentHash {
      var bytes := Absorb(collections.value);
      etag := Some(tools.hash(bytes));
      if ifNoneMatch.Some? && etag.value == ifNoneMatch.value { return Ok(NotModified(etag.value)); }
    }
    return Ok(Full(etag, schemas, collections.value));
  }

  /** "Not modified" tells only a caller what it already knows, a full answer
      never carries the etag it was asked about, and what it carries is the
      current snapshot. */
  lemma AnswerRules(tools: Tools, mode: EtagMode, source: Source, ifNoneMatch: Option<Bytes>)
    ensures var r := Answered(tools, mode, source, ifNoneMatch);
      && (r.Ok? ==> source.Ask(ifNoneMatch).Some?)
      && (r.Ok? && r.value.NotModified? ==> ifNoneMatch == Some(r.value.known))
      && (r.Ok? && r.value.Full? ==>
            && (r.value.etag.Some? ==> r.value.etag != ifNoneMatch)
            && Snapshot(tools, source.Handler?, source.Ask(ifNoneMatch).value.schemas) == Ok(r.value.collections)
            && Encode(tools.stream, r.value.schemas) == Some(r.value.collections)
            && SortedByDepth(r.value.schemas))
  {
    var asked := source.Ask(ifNoneMatch);
    if asked.Some? { PreparedIsSorted(tools, source.Handler?, asked.value.schemas); }
  }

  lemma PreparedIsSorted(tools: Tools, handled: bool, schemas: seq<SchemaContents>)
    ensures Prepared(tools, handled, schemas).Ok? ==> SortedByDepth(Prepared(tools, handled, schemas).value)
  {
    ParentsFirstSorts(schemas);
    var served := ServedSchemas(tools.serveItem, schemas);
    if served.Ok? { ParentsFirstSorts(served.value); }
  }

  lemma ServedKeepsPaths(serve: Serve, schemas: seq<SchemaContents>)
    requires ServedSchemas(serve, schemas).Ok?
    ensures |ServedSchemas(serve, schemas).value| == |schemas|
    ensures forall i :: 0 <= i < |schemas| ==> ServedSchemas(serve, schemas).value[i].path == schemas[i].path
  {
    var f := (s: SchemaContents) => WithTablesServed(serve, s);
    forall i | 0 <= i < |schemas|
      ensures |TryMap(schemas, f).value| == |schemas| && TryMap(schemas, f).value[i].path == schemas[i].path
    {
      TryMapAt(schemas, f, i);
    }
  }

  lemma SamePathsRooted(a: seq<SchemaContents>, b: seq<SchemaContents>)
    requires |a| == |b| && (forall i :: 0 <= i < |a| ==> a[i].path == b[i].path) && WellRooted(a)
    ensures WellRooted(b)
  {
    forall i | 0 <= i < |b| && |b[i].path| >= 2 ensures Present(b, Parent(b[i].path)) {
      assert Present(a, Parent(a[i].path));
      var j :| 0 <= j < |a| && a[j].path == Parent(a[i].path);
      assert b[j].path == Parent(b[i].path);
    }
  }

  /** Every snapshot served, composed or handled, lists each schema after its
      whole chain of ancestors. */
  lemma ServedAncestorsFirst(tools: Tools, handled: bool, schemas: seq<SchemaContents>, i: nat, k: nat)
    requires NulFreePaths(schemas) && Prepared(tools, handled, schemas).Ok?
    requires i < |Prepared(tools, handled, schemas).value|
    requires 0 < k < |Prepared(tools, handled, schemas).value[i].path|
    ensures var out := Prepared(tools, handled, schemas).value;
      exists j :: 0 <= j < i && out[j].path == out[i].path[..k]
  {
    CheckIsExact(schemas, if handled then Some(tools.infoPath) else None);
    if handled {
      var served := ServedSchemas(tools.serveItem, schemas).value;
      ServedKeepsPaths(tools.serveItem, schemas);
      SamePathsRooted(schemas, served);
      AncestorsComeFirst(served, i, k);
    } else {
      AncestorsComeFirst(schemas, i, k);
    }
  }

  // ---- Runs ----

  /** The server at the time of one request: its source, and the collections
      its catalog then has. */
  datatype Moment = Moment(source: Source, current: Collections)

  /** What the client keeps: the last full answer and its etag. */
  datatype Client = Fresh | Holding(etag: Option<Bytes>, collections: Collections)

  function Sent(client: Client): Option<Bytes> { if client.Fresh? then None else client.etag }

  function Received(client: Client, r: Result<Answer, Error>): Client {
    if r.Ok? && r.value.Full? then Holding(r.value.etag, r.value.collections) else client
  }

  function ReplyAt(tools: Tools, mode: EtagMode, run: seq<Moment>, n: nat): Result<Answer, Error>
    requires n < |run|
    decreases n, 1
  {
    Answered(tools, mode, run[n].source, Sent(ClientAfter(tools, mode, run, n)))
  }

  /** The client after the first `n` requests of a run. */
  function ClientAfter(tools: Tools, mode: EtagMode, run: seq<Moment>, n: nat): Client
    requires n <= |run|
    decreases n, 0
  {
    if n == 0 then Fresh
    else Received(ClientAfter(tools, mode, run, n - 1), ReplyAt(tools, mode, run, n - 1))
  }

  /** Whenever the source sends a snapshot, it is the current one. */
  ghost predicate Truthful(tools: Tools, m: Moment) {
    forall e :: m.source.Ask(e).Some? && !m.source.Ask(e).value.notModified ==>
      var s := Snapshot(tools, m.source.Handler?, m.source.Ask(e).value.schemas);
      s.Ok? ==> s.value == m.current
  }

  /** Some answer at this moment may carry the etag. */
  ghost predicate Names(tools: Tools, mode: EtagMode, m: Moment, etag: Bytes) {
    || (exists e :: m.source.Ask(e).Some? && m.source.Ask(e).value.etag == Some(etag))
    || (mode == ContentHash && etag == tools.hash(Frame(m.current))
        && exists e :: m.source.Ask(e).Some? && m.source.Ask(e).value.etag == None)
  }

  /** Over the run, an etag determines the collections. */
  ghost predicate EtagsDetermine(tools: Tools, mode: EtagMode, run: seq<Moment>) {
    forall i, j, etag ::
      0 <= i < |run| && 0 <= j < |run| && Names(tools, mode, run[i], etag) && Names(tools, mode, run[j], etag) ==>
        run[i].current == run[j].current
  }

  /** The client holds what some earlier moment had, under an etag of it. */
  ghost predicate HoldsPast(tools: Tools, mode: EtagMode, run: seq<Moment>, client: Client, n: nat)
    requires n <= |run|
  {
    client.Holding? ==>
      exists i ::
        && 0 <= i < n && run[i].current == client.collections
        && (client.etag.Some? ==> Names(tools, mode, run[i], client.etag.value))
  }

  /** What one answer is worth. */
  lemma AnswerNames(tools: Tools, mode: EtagMode, m: Moment, e: Option<Bytes>)
    requires Truthful(tools, m) && Answered(tools, mode, m.source, e).Ok?
    ensures var a := Answered(tools, mode, m.source, e).value;
      && (a.Full? ==> a.collections == m.current && (a.etag.Some? ==> Names(tools, mode, m, a.etag.value)))
      && (a.NotModified? ==> e == Some(a.known) && Names(tools, mode, m, a.known))
  {
  }

  lemma {:induction false} HoldsPastAlways(tools: Tools, mode: EtagMode, run: seq<Moment>, n: nat)
    requires n <= |run| && forall i :: 0 <= i < |run| ==> Truthful(tools, run[i])
    ensures HoldsPast(tools, mode, run, ClientAfter(tools, mode, run, n), n)
  {
    if n > 0 {
      HoldsPastAlways(tools, mode, run, n - 1);
      var e := Sent(ClientAfter(tools, mode, run, n - 1));
      if ReplyAt(tools, mode, run, n - 1).Ok? { AnswerNames(tools, mode, run[n - 1], e); }
    }
  }

  /** Over every run in which an etag determines the collections, the client
      holds the current collections after every reply. */
  lemma ClientIsCurrent(tools: Tools, mode: EtagMode, run: seq<Moment>, n: nat)
    requires forall i :: 0 <= i < |run| ==> Truthful(tools, run[i])
    requires EtagsDetermine(tools, mode, run)
    requires n < |run| && ReplyAt(tools, mode, run, n).Ok?
    ensures ClientAfter(tools, mode, run, n + 1).Holding?
    ensures ClientAfter(tools, mode, run, n + 1).collections == run[n].current
  {
    HoldsPastAlways(tools, mode, run, n);
    AnswerNames(tools, mode, run[n], Sent(ClientAfter(tools, mode, run, n)));
  }

  /** A composed snapshot is what its catalog has, and brings no etag. */
  lemma ComposedIsTruthful(tools: Tools, m: Moment)
    requires m.source.Composed?
    requires m.source.contents.Some? ==> Snapshot(tools, false, m.source.contents.value) == Ok(m.current)
    ensures Truthful(tools, m) && Etagless(m.source)
  {
  }

  // ---- Content hash, and no etag at all ----

  /** The source leaves etags to the worker, as a composed snapshot does. */
  ghost predicate Etagless(source: Source) {
    forall e :: source.Ask(e).Some? ==> source.Ask(e).value.etag == None
  }

  function Digest(tools: Tools, m: Moment): Bytes { tools.hash(Frame(m.current)) }

  /** The hash does not collide on what this run hashes. */
  ghost predicate CollisionFree(tools: Tools, run: seq<Moment>) {
    forall i, j ::
      0 <= i < |run| && 0 <= j < |run| && Digest(tools, run[i]) == Digest(tools, run[j]) ==>
        Frame(run[i].current) == Frame(run[j].current)
  }

  /** Content hashes determine collections, because the framing does. */
  lemma ContentHashDetermines(tools: Tools, run: seq<Moment>)
    requires forall i :: 0 <= i < |run| ==> Etagless(run[i].source) && Representable(run[i].current)
    requires CollisionFree(tools, run)
    ensures EtagsDetermine(tools, ContentHash, run)
  {
    forall i, j | 0 <= i < |run| && 0 <= j < |run| { FrameInjective(run[i].current, run[j].current); }
  }

  /** A catalog that leaves etags to the content hash never misleads a client,
      and one asked again unchanged answers without a body. */
  lemma ContentHashRun(tools: Tools, run: seq<Moment>, n: nat)
    requires forall i :: 0 <= i < |run| ==> Truthful(tools, run[i])
    requires forall i :: 0 <= i < |run| ==> Etagless(run[i].source) && Representable(run[i].current)
    requires CollisionFree(tools, run)
    requires n < |run| && ReplyAt(tools, ContentHash, run, n).Ok?
    ensures ClientAfter(tools, ContentHash, run, n + 1).Holding?
    ensures ClientAfter(tools, ContentHash, run, n + 1).collections == run[n].current
    ensures var before := ClientAfter(tools, ContentHash, run, n);
      ReplyAt(tools, ContentHash, run, n).value.NotModified? <==>
        before.Holding? && before.collections == run[n].current
  {
    ContentHashDetermines(tools, run);
    ClientIsCurrent(tools, ContentHash, run, n);
    HashesHeld(tools, run, n);
    AnswerNames(tools, ContentHash, run[n], Sent(ClientAfter(tools, ContentHash, run, n)));
  }

  /** In content-hash mode the client's etag is the hash of what it holds. */
  lemma {:induction false} HashesHeld(tools: Tools, run: seq<Moment>, n: nat)
    requires n <= |run| && forall i :: 0 <= i < |run| ==> Etagless(run[i].source)
    ensures var c := ClientAfter(tools, ContentHash, run, n);
      c.Holding? ==> c.etag == Some(tools.hash(Frame(c.collections)))
  {
    if n > 0 { HashesHeld(tools, run, n - 1); }
  }

  /** With no etag every reply is full, whatever the client sent, and nothing
      is asked of the hash. */
  lemma NoEtagIsAlwaysFull(tools: Tools, m: Moment, e: Option<Bytes>)
    requires Truthful(tools, m) && Etagless(m.source) && Answered(tools, NoEtag, m.source, e).Ok?
    ensures var a := Answered(tools, NoEtag, m.source, e).value;
      a.Full? && a.etag == None && a.collections == m.current
  {
  }

  // ---- An etag used twice ----

  /** The source answers the holder of an etag with that etag: by a bare "not
      modified", or with schemas that can be served. */
  predicate RepeatsEtag(tools: Tools, source: Source, etag: Bytes) {
    var asked := source.Ask(Some(etag));
    && asked.Some? && asked.value.etag == Some(etag)
    && if asked.value.notModified then asked.value.schemas == []
       else Prepared(tools, source.Handler?, asked.value.schemas).Ok?
  }

  /** The converse of `ClientIsCurrent`: one moment gives a fresh client an
      etag, a later one repeats it for other collections. The reply is "not
      modified" and the client is left with what is no longer current. */
  lemma ReusedEtagIsStale(tools: Tools, mode: EtagMode, first: Moment, second: Moment, etag: Bytes)
    requires Truthful(tools, first) && first.current != second.current
    requires var r := Answered(tools, mode, first.source, None); r.Ok? && r.value.Full? && r.value.etag == Some(etag)
    requires RepeatsEtag(tools, second.source, etag)
    ensures var run := [first, second];
      && ReplyAt(tools, mode, run, 1) == Ok(NotModified(etag))
      && ClientAfter(tools, mode, run, 2) == Holding(Some(etag), first.current)
      && ClientAfter(tools, mode, run, 2).collections != second.current
  {
    var run := [first, second];
    AnswerNames(tools, mode, first, None);
    assert ClientAfter(tools, mode, run, 0) == Fresh;
    assert ClientAfter(tools, mode, run, 1) == Holding(Some(etag), first.current);
    assert ReplyAt(tools, mode, run, 1) == Answered(tools, mode, second.source, Some(etag));
  }

  /** A source that always serves its snapshot under one etag of its own. */
  ghost predicate AlwaysTags(tools: Tools, m: Moment, etag: Bytes) {
    forall e ::
      && m.source.Ask(e).Some? && !m.source.Ask(e).value.notModified && m.source.Ask(e).value.etag == Some(etag)
      && Snapshot(tools, m.source.Handler?, m.source.Ask(e).value.schemas) == Ok(m.current)
  }

  ghost predicate DrawnFrom(run: seq<Moment>, moments: seq<Moment>) { forall i :: 0 <= i < |run| ==> run[i] in moments }

  /** After the reply to request `n`, the client holds the current collections. */
  ghost predicate CurrentAfter(tools: Tools, mode: EtagMode, run: seq<Moment>, n: nat)
    requires n < |run|
  {
    var client := ClientAfter(tools, mode, run, n + 1);
    client.Holding? && client.collections == run[n].current
  }

  lemma TaggedAnswer(tools: Tools, mode: EtagMode, m: Moment, etag: Bytes, e: Option<Bytes>)
    requires AlwaysTags(tools, m, etag)
    ensures Truthful(tools, m) && RepeatsEtag(tools, m.source, etag)
    ensures var r := Answered(tools, mode, m.source, e);
      r.Ok? && (e != Some(etag) ==> r.value.Full? && r.value.etag == Some(etag))
    ensures forall x :: Names(tools, mode, m, x) <==> x == etag
  {
    assert m.source.Ask(e).Some? && m.source.Ask(Some(etag)).Some?;
  }

  /** Over all runs drawn from such moments, in any order and any number of
      times: the client is current after every reply if and only if no two of
      them give one etag to different collections. */
  lemma TagsExact(tools: Tools, mode: EtagMode, moments: seq<Moment>, tags: seq<Bytes>)
    requires |tags| == |moments| && forall i :: 0 <= i < |moments| ==> AlwaysTags(tools, moments[i], tags[i])
    ensures (forall run, n: nat :: DrawnFrom(run, moments) && n < |run| ==> CurrentAfter(tools, mode, run, n)) <==>
      forall i, j :: 0 <= i < |tags| && 0 <= j < |tags| && tags[i] == tags[j] ==>
        moments[i].current == moments[j].current
  {
    if forall i, j :: 0 <= i < |tags| && 0 <= j < |tags| && tags[i] == tags[j] ==>
      moments[i].current == moments[j].current
    {
      forall run, n: nat | DrawnFrom(run, moments) && n < |run| ensures CurrentAfter(tools, mode, run, n) {
        TaggedRun(tools, mode, moments, tags, run, n);
      }
    } else {
      var i, j :| 0 <= i < |tags| && 0 <= j < |tags| && tags[i] == tags[j] && moments[i].current != moments[j].current;
      var run := [moments[i], moments[j]];
      TaggedAnswer(tools, mode, moments[i], tags[i], None);
      TaggedAnswer(tools, mode, moments[j], tags[j], None);
      ReusedEtagIsStale(tools, mode, moments[i], moments[j], tags[i]);
      assert DrawnFrom(run, moments) && !CurrentAfter(tools, mode, run, 1);
    }
  }

  lemma TaggedRun(tools: Tools, mode: EtagMode, moments: seq<Moment>, tags: seq<Bytes>, run: seq<Moment>, n: nat)
    requires |tags| == |moments| && forall i :: 0 <= i < |moments| ==> AlwaysTags(tools, moments[i], tags[i])
    requires forall i, j :: 0 <= i < |tags| && 0 <= j < |tags| && tags[i] == tags[j] ==>
      moments[i].current == moments[j].current
    requires DrawnFrom(run, moments) && n < |run|
    ensures CurrentAfter(tools, mode, run, n)
  {
    forall a | 0 <= a < |run|
      ensures exists i :: 0 <= i < |moments| && moments[i] == run[a] && AlwaysTags(tools, run[a], tags[i])
    {
      assert run[a] in moments;
    }
    forall a, e | 0 <= a < |run| ensures Truthful(tools, run[a]) && Answered(tools, mode, run[a].source, e).Ok? {
      var i :| 0 <= i < |moments| && moments[i] == run[a] && AlwaysTags(tools, run[a], tags[i]);
      TaggedAnswer(tools, mode, run[a], tags[i], e);
    }
    forall a, b, x | 0 <= a < |run| && 0 <= b < |run| && Names(tools, mode, run[a], x) && Names(tools, mode, run[b], x)
      ensures run[a].current == run[b].current
    {
      var i :| 0 <= i < |moments| && moments[i] == run[a] && AlwaysTags(tools, run[a], tags[i]);
      var j :| 0 <= j < |moments| && moments[j] == run[b] && AlwaysTags(tools, run[b], tags[j]);
      TaggedAnswer(tools, mode, run[a], tags[i], None);
      TaggedAnswer(tools, mode, run[b], tags[j], None);
    }
    ClientIsCurrent(tools, mode, run, n);
  }

  ghost predicate Composes(tools: Tools, m: Moment) {
    m.source.Composed? && m.source.contents.Some? && Snapshot(tools, false, m.source.contents.value) == Ok(m.current)
  }

  /** The answer for a composed snapshot in content-hash mode. */
  lemma ComposedAnswer(tools: Tools, m: Moment, e: Option<Bytes>)
    requires Composes(tools, m)
    ensures var r := Answered(tools, ContentHash, m.source, e);
      if e == Some(Digest(tools, m)) then r == Ok(NotModified(Digest(tools, m)))
      else r.Ok? && r.value.Full? && r.value.etag == Some(Digest(tools, m)) && r.value.collections == m.current
  {
  }

  /** The same in content-hash mode: two snapshots with one hash. */
  lemma HashCollisionIsStale(tools: Tools, first: Moment, second: Moment)
    requires Composes(tools, first) && Composes(tools, second)
    requires first.current != second.current && Digest(tools, first) == Digest(tools, second)
    ensures var run := [first, second];
      && ReplyAt(tools, ContentHash, run, 1) == Ok(NotModified(Digest(tools, first)))
      && ClientAfter(tools, ContentHash, run, 2) == Holding(Some(Digest(tools, first)), first.current)
      && ClientAfter(tools, ContentHash, run, 2).collections != second.current
  {
    var run := [first, second];
    ComposedAnswer(tools, first, None);
    ComposedAnswer(tools, second, Some(Digest(tools, first)));
    assert ClientAfter(tools, ContentHash, run, 0) == Fresh;
    assert ClientAfter(tools, ContentHash, run, 1) == Holding(Some(Digest(tools, first)), first.current);
  }

  /** A handler that never changes its etag. */
  function Fixed(schemas: seq<SchemaContents>, etag: Bytes): Source {
    Handler((e: Option<Bytes>) => Some(Reply(schemas, Some(etag), false)))
  }

  lemma EmptySnapshot(tools: Tools)
    ensures Snapshot(tools, true, []) == Ok(NOTHING)
  {
    assert Sound([], Some(tools.infoPath));
    assert ParentsFirst([]) == [];
  }

  /** Schemas that are served have a stream of their own. */
  lemma SchemasHaveStream(tools: Tools, s: SchemaContents)
    requires Snapshot(tools, true, [s]).Ok?
    ensures Snapshot(tools, true, [s]).value[0].Some?
  {
    var served := ServedSchemas(tools.serveItem, [s]).value;
    ServedKeepsPaths(tools.serveItem, [s]);
    ParentsFirstSorts(served);
    var ordered := ParentsFirst(served);
    assert |multiset(ordered)| == |multiset(served)| == 1;
    assert ordered == [ordered[0]] + [];
    GatheredCons(ordered[0], [], InfoItem);
  }

  /** Such a handler, asked before and after its catalog gets its first schema,
      leaves its client without the schema. */
  lemma FixedEtagIsStale(tools: Tools, mode: EtagMode, s: SchemaContents, etag: Bytes)
    requires Snapshot(tools, true, [s]).Ok?
    ensures var current := Snapshot(tools, true, [s]).value;
      var run := [Moment(Fixed([], etag), NOTHING), Moment(Fixed([s], etag), current)];
      && current != NOTHING && Truthful(tools, run[0]) && Truthful(tools, run[1])
      && ReplyAt(tools, mode, run, 1) == Ok(NotModified(etag))
      && ClientAfter(tools, mode, run, 2) == Holding(Some(etag), NOTHING)
  {
    EmptySnapshot(tools);
    SchemasHaveStream(tools, s);
    var first, second := Moment(Fixed([], etag), NOTHING), Moment(Fixed([s], etag), Snapshot(tools, true, [s]).value);
    assert NOTHING[0] != second.current[0];
    ReusedEtagIsStale(tools, mode, first, second, etag);
  }
}
