/** Which items are in which collection of a snapshot, and so in the hands of a
    client (src/catalog_contents.cpp). */
module ContentsExact {
  import opened Basics
  import opened SchemaPaths
  import opened ContentsFrame
  import opened CatalogContents

  /** Reading a stream gives back the items that were written. */
  type Read = Bytes -> Option<seq<Bytes>>

  ghost predicate ReadsBack(stream: Stream, read: Read) {
    forall items :: items != [] && stream(items).Some? ==> read(stream(items).value) == Some(items)
  }

  /** The items of a collection: none without a stream. */
  function ItemsIn(read: Read, collection: Option<Bytes>): Option<seq<Bytes>> {
    if collection.None? then Some([]) else read(collection.value)
  }

  /** A list of every schema, in order. */
  function Each(schemas: seq<SchemaContents>, list: SchemaContents -> seq<Bytes>): (r: seq<seq<Bytes>>)
    ensures |r| == |schemas|
  {
    seq(|schemas|, i requires 0 <= i < |schemas| => list(schemas[i]))
  }

  lemma {:induction false} GatheredIs(schemas: seq<SchemaContents>, kind: Kind, list: SchemaContents -> seq<Bytes>)
    requires forall s :: kind(s) == list(s)
    ensures Gathered(schemas, kind) == Flat(Each(schemas, list))
  {
    if schemas != [] {
      var n := |schemas| - 1;
      GatheredIs(schemas[..n], kind, list);
      assert Each(schemas, list)[..n] == Each(schemas[..n], list);
    }
  }

  lemma {:induction false} FlatEmpty(lists: seq<seq<Bytes>>)
    ensures Flat(lists) == [] <==> forall i :: 0 <= i < |lists| ==> lists[i] == []
  {
    if lists != [] {
      FlatEmpty(lists[..|lists| - 1]);
      assert forall i :: 0 <= i < |lists| - 1 ==> lists[..|lists| - 1][i] == lists[i];
    }
  }

  /** Collection `c` is that of a list of every schema: it reads back to all of
      them, schema by schema, and there is none if all are empty. */
  ghost predicate IsCollection(read: Read, schemas: seq<SchemaContents>, list: SchemaContents -> seq<Bytes>,
                               c: Option<Bytes>)
  {
    && ItemsIn(read, c) == Some(Flat(Each(schemas, list)))
    && (c.None? <==> forall i :: 0 <= i < |schemas| ==> list(schemas[i]) == [])
  }

  lemma ConcatIs(stream: Stream, read: Read, schemas: seq<SchemaContents>, kind: Kind,
                 list: SchemaContents -> seq<Bytes>)
    requires ReadsBack(stream, read) && forall s :: kind(s) == list(s)
    ensures var c := Concat(stream, Gathered(schemas, kind));
      && (c.Some? ==> IsCollection(read, schemas, list, c.value))
      && (c.None? <==> Flat(Each(schemas, list)) != [] && stream(Flat(Each(schemas, list))).None?)
  {
    GatheredIs(schemas, kind, list);
    FlatEmpty(Each(schemas, list));
    assert forall i :: 0 <= i < |schemas| ==> Each(schemas, list)[i] == list(schemas[i]);
  }

  /** The six collections, in wire order, each item of each schema where it
      belongs. */
  ghost predicate AreCollections(read: Read, schemas: seq<SchemaContents>, c: Collections) {
    && IsCollection(read, schemas, (s: SchemaContents) => [s.info], c[0])
    && IsCollection(read, schemas, (s: SchemaContents) => s.tables, c[1])
    && IsCollection(read, schemas, (s: SchemaContents) => s.views, c[2])
    && IsCollection(read, schemas,
                    (s: SchemaContents) => s.scalarFunctions + s.aggregateFunctions + s.tableFunctions, c[3])
    && IsCollection(read, schemas, (s: SchemaContents) => s.scalarMacros + s.tableMacros, c[4])
    && IsCollection(read, schemas, (s: SchemaContents) => s.indexes, c[5])
  }

  /** A stream can be written of a list of every schema. */
  ghost predicate Writes(stream: Stream, schemas: seq<SchemaContents>, list: SchemaContents -> seq<Bytes>) {
    Flat(Each(schemas, list)) == [] || stream(Flat(Each(schemas, list))).Some?
  }

  lemma EncodeParts(stream: Stream, schemas: seq<SchemaContents>)
    requires Encode(stream, schemas).Some?
    ensures var c := Encode(stream, schemas).value;
      && Concat(stream, Gathered(schemas, InfoItem)) == Some(c[0])
      && Concat(stream, Gathered(schemas, TablesIn)) == Some(c[1])
      && Concat(stream, Gathered(schemas, ViewsIn)) == Some(c[2])
      && Concat(stream, Gathered(schemas, FunctionItems)) == Some(c[3])
      && Concat(stream, Gathered(schemas, MacroItems)) == Some(c[4])
      && Concat(stream, Gathered(schemas, IndexesIn)) == Some(c[5])
  {
  }

  lemma PlainPlaces(stream: Stream, read: Read, schemas: seq<SchemaContents>, c: Collections)
    requires ReadsBack(stream, read) && Encode(stream, schemas) == Some(c)
    ensures IsCollection(read, schemas, (s: SchemaContents) => s.tables, c[1])
    ensures IsCollection(read, schemas, (s: SchemaContents) => s.views, c[2])
    ensures IsCollection(read, schemas, (s: SchemaContents) => s.indexes, c[5])
  {
    EncodeParts(stream, schemas);
    ConcatIs(stream, read, schemas, TablesIn, (s: SchemaContents) => s.tables);
    ConcatIs(stream, read, schemas, ViewsIn, (s: SchemaContents) => s.views);
    ConcatIs(stream, read, schemas, IndexesIn, (s: SchemaContents) => s.indexes);
  }

  lemma JoinedPlaces(stream: Stream, read: Read, schemas: seq<SchemaContents>, c: Collections)
    requires ReadsBack(stream, read) && Encode(stream, schemas) == Some(c)
    ensures IsCollection(read, schemas, (s: SchemaContents) => [s.info], c[0])
    ensures IsCollection(read, schemas,
                         (s: SchemaContents) => s.scalarFunctions + s.aggregateFunctions + s.tableFunctions, c[3])
    ensures IsCollection(read, schemas, (s: SchemaContents) => s.scalarMacros + s.tableMacros, c[4])
  {
    EncodeParts(stream, schemas);
    ConcatIs(stream, read, schemas, InfoItem, (s: SchemaContents) => [s.info]);
    ConcatIs(stream, read, schemas, FunctionItems,
             (s: SchemaContents) => s.scalarFunctions + s.aggregateFunctions + s.tableFunctions);
    ConcatIs(stream, read, schemas, MacroItems, (s: SchemaContents) => s.scalarMacros + s.tableMacros);
  }

  /** Every item of every schema ends up where it belongs. */
  lemma EncodePlaces(stream: Stream, read: Read, schemas: seq<SchemaContents>)
    requires ReadsBack(stream, read) && Encode(stream, schemas).Some?
    ensures AreCollections(read, schemas, Encode(stream, schemas).value)
  {
    PlainPlaces(stream, read, schemas, Encode(stream, schemas).value);
    JoinedPlaces(stream, read, schemas, Encode(stream, schemas).value);
  }

  lemma ConcatFails(stream: Stream, schemas: seq<SchemaContents>, kind: Kind, list: SchemaContents -> seq<Bytes>)
    requires forall s :: kind(s) == list(s)
    ensures Concat(stream, Gathered(schemas, kind)).Some? <==> Writes(stream, schemas, list)
  {
    GatheredIs(schemas, kind, list);
  }

  /** Encoding fails exactly when one of the six streams cannot be written. */
  lemma EncodeFails(stream: Stream, schemas: seq<SchemaContents>)
    ensures Encode(stream, schemas).Some? <==>
      && Writes(stream, schemas, (s: SchemaContents) => [s.info])
      && Writes(stream, schemas, (s: SchemaContents) => s.tables)
      && Writes(stream, schemas, (s: SchemaContents) => s.views)
      && Writes(stream, schemas,
                (s: SchemaContents) => s.scalarFunctions + s.aggregateFunctions + s.tableFunctions)
      && Writes(stream, schemas, (s: SchemaContents) => s.scalarMacros + s.tableMacros)
      && Writes(stream, schemas, (s: SchemaContents) => s.indexes)
  {
    ConcatFails(stream, schemas, InfoItem, (s: SchemaContents) => [s.info]);
    ConcatFails(stream, schemas, TablesIn, (s: SchemaContents) => s.tables);
    ConcatFails(stream, schemas, ViewsIn, (s: SchemaContents) => s.views);
    ConcatFails(stream, schemas, FunctionItems,
                (s: SchemaContents) => s.scalarFunctions + s.aggregateFunctions + s.tableFunctions);
    ConcatFails(stream, schemas, MacroItems, (s: SchemaContents) => s.scalarMacros + s.tableMacros);
    ConcatFails(stream, schemas, IndexesIn, (s: SchemaContents) => s.indexes);
  }

  // ---- In the hands of a client ----

  predicate Has(read: Read, c: Option<Bytes>, items: seq<Bytes>) {
    ItemsIn(read, c).Some? && forall x :: x in items ==> x in ItemsIn(read, c).value
  }

  /** A client that holds these collections has every item of a schema. */
  predicate Holds(read: Read, c: Collections, s: SchemaContents) {
    && Has(read, c[0], [s.info]) && Has(read, c[1], s.tables) && Has(read, c[2], s.views)
    && Has(read, c[3], s.scalarFunctions) && Has(read, c[3], s.aggregateFunctions) && Has(read, c[3], s.tableFunctions)
    && Has(read, c[4], s.scalarMacros) && Has(read, c[4], s.tableMacros) && Has(read, c[5], s.indexes)
  }

  lemma CollectionHas(read: Read, schemas: seq<SchemaContents>, list: SchemaContents -> seq<Bytes>, c: Option<Bytes>,
                      s: SchemaContents)
    requires IsCollection(read, schemas, list, c) && s in schemas
    ensures Has(read, c, list(s))
  {
    var lists := Each(schemas, list);
    var i :| 0 <= i < |schemas| && schemas[i] == s;
    assert lists[i] == list(s);
    forall x | x in list(s) ensures x in Flat(lists) { FlatHolds(lists, x); }
  }

  lemma CollectionsHold(read: Read, schemas: seq<SchemaContents>, c: Collections, s: SchemaContents)
    requires AreCollections(read, schemas, c) && s in schemas
    ensures Holds(read, c, s)
  {
    CollectionHas(read, schemas, (s: SchemaContents) => [s.info], c[0], s);
    CollectionHas(read, schemas, (s: SchemaContents) => s.tables, c[1], s);
    CollectionHas(read, schemas, (s: SchemaContents) => s.views, c[2], s);
    var functions := (s: SchemaContents) => s.scalarFunctions + s.aggregateFunctions + s.tableFunctions;
    CollectionHas(read, schemas, functions, c[3], s);
    assert functions(s) == s.scalarFunctions + s.aggregateFunctions + s.tableFunctions;
    var macros := (s: SchemaContents) => s.scalarMacros + s.tableMacros;
    CollectionHas(read, schemas, macros, c[4], s);
    assert macros(s) == s.scalarMacros + s.tableMacros;
    CollectionHas(read, schemas, (s: SchemaContents) => s.indexes, c[5], s);
  }

  /** What a snapshot serves: a composed one its schemas, a handler's the same
      with their tables served. */
  ghost predicate Serves(tools: Tools, handled: bool, schemas: seq<SchemaContents>, s: SchemaContents) {
    if handled then exists n :: 0 <= n < |schemas| && WithTablesServed(tools.serveItem, schemas[n]) == Ok(s)
    else s in schemas
  }

  lemma PreparedHas(tools: Tools, handled: bool, schemas: seq<SchemaContents>, s: SchemaContents)
    requires Prepared(tools, handled, schemas).Ok? && Serves(tools, handled, schemas, s)
    ensures s in Prepared(tools, handled, schemas).value
  {
    var given := schemas;
    if handled {
      var serve := (s: SchemaContents) => WithTablesServed(tools.serveItem, s);
      given := ServedSchemas(tools.serveItem, schemas).value;
      var n :| 0 <= n < |schemas| && WithTablesServed(tools.serveItem, schemas[n]) == Ok(s);
      TryMapAt(schemas, serve, n);
      assert given[n] == s;
    }
    ParentsFirstSorts(given);
    assert s in multiset(given);
  }

  /** A snapshot holds every item of every schema it serves. */
  lemma SnapshotHolds(read: Read, tools: Tools, handled: bool, schemas: seq<SchemaContents>, s: SchemaContents)
    requires ReadsBack(tools.stream, read)
    requires Snapshot(tools, handled, schemas).Ok? && Serves(tools, handled, schemas, s)
    ensures Holds(read, Snapshot(tools, handled, schemas).value, s)
  {
    var ordered := Prepared(tools, handled, schemas).value;
    PreparedHas(tools, handled, schemas, s);
    EncodePlaces(tools.stream, read, ordered);
    CollectionsHold(read, ordered, Snapshot(tools, handled, schemas).value, s);
  }

  /** Over every run in which an etag determines the collections: after each
      reply the client has every item of every schema that is then served,
      whether the reply carried them or not. */
  lemma ClientHasEverything(read: Read, tools: Tools, mode: EtagMode, run: seq<Moment>, n: nat,
                            schemas: seq<SchemaContents>, s: SchemaContents)
    requires ReadsBack(tools.stream, read)
    requires (forall i :: 0 <= i < |run| ==> Truthful(tools, run[i])) && EtagsDetermine(tools, mode, run)
    requires n < |run| && ReplyAt(tools, mode, run, n).Ok?
    requires Snapshot(tools, run[n].source.Handler?, schemas) == Ok(run[n].current)
    requires Serves(tools, run[n].source.Handler?, schemas, s)
    ensures var client := ClientAfter(tools, mode, run, n + 1); client.Holding? && Holds(read, client.collections, s)
  {
    ClientIsCurrent(tools, mode, run, n);
    SnapshotHolds(read, tools, run[n].source.Handler?, schemas, s);
  }

  // ---- Which answer ----

  /** The source's answer says "not modified" of an etag the caller sent. */
  predicate Known(reply: Reply, e: Option<Bytes>) { reply.etag.Some? && e.Some? && reply.etag.value == e.value }

  /** Some table of some schema cannot be served. */
  predicate HasBadTable(serve: Serve, schemas: seq<SchemaContents>) {
    exists n, k :: 0 <= n < |schemas| && 0 <= k < |schemas[n].tables| && serve(schemas[n].tables[k]).Err?
  }

  lemma TryMapOk<S, T, E>(s: seq<S>, f: S -> Result<T, E>)
    ensures TryMap(s, f).Ok? <==> forall i :: 0 <= i < |s| ==> f(s[i]).Ok?
  {
    if TryMap(s, f).Ok? {
      forall i | 0 <= i < |s| ensures f(s[i]).Ok? { TryMapAt(s, f, i); }
    }
    if forall i :: 0 <= i < |s| ==> f(s[i]).Ok? {
      TryMapAll(s, f, seq(|s|, i requires 0 <= i < |s| => f(s[i]).value));
    }
  }

  lemma ServedFails(serve: Serve, schemas: seq<SchemaContents>)
    ensures ServedSchemas(serve, schemas).Err? <==> HasBadTable(serve, schemas)
  {
    TryMapOk(schemas, (s: SchemaContents) => WithTablesServed(serve, s));
    forall n | 0 <= n < |schemas|
      ensures WithTablesServed(serve, schemas[n]).Err? <==>
        exists k :: 0 <= k < |schemas[n].tables| && serve(schemas[n].tables[k]).Err?
    {
      TryMapOk(schemas[n].tables, serve);
    }
  }

  /** A snapshot can be made exactly when the paths are sound, every table of a
      handler can be served, and the six streams can be written. */
  lemma SnapshotFails(tools: Tools, handled: bool, schemas: seq<SchemaContents>)
    ensures Prepared(tools, handled, schemas).Ok? <==>
      && Sound(schemas, if handled then Some(tools.infoPath) else None)
      && (handled ==> !HasBadTable(tools.serveItem, schemas))
    ensures Snapshot(tools, handled, schemas).Ok? <==>
      Prepared(tools, handled, schemas).Ok? && Encode(tools.stream, Prepared(tools, handled, schemas).value).Some?
  {
    ServedFails(tools.serveItem, schemas);
  }

  /** Why there is no answer: the source raised; it said "not modified" to a
      caller that had not sent the etag, or with schemas; the paths are not
      sound; a handler's table cannot be served; or a snapshot that is needed has
      an item that cannot be written. */
  lemma RefusalExact(tools: Tools, mode: EtagMode, source: Source, e: Option<Bytes>)
    ensures var r, asked := Answered(tools, mode, source, e), source.Ask(e);
      && (r == Err(Raised) <==> asked.None?)
      && (r == Err(WrongNotModified) <==> asked.Some? && asked.value.notModified && !Known(asked.value, e))
      && (r == Err(NotModifiedWithSchemas) <==>
            asked.Some? && asked.value.notModified && Known(asked.value, e) && asked.value.schemas != [])
      && (r == Err(BadPaths) <==>
            && asked.Some? && !asked.value.notModified
            && !Sound(asked.value.schemas, if source.Handler? then Some(tools.infoPath) else None))
      && (r.Err? && r.error.BadTable? <==>
            && asked.Some? && !asked.value.notModified && source.Handler?
            && Sound(asked.value.schemas, Some(tools.infoPath)) && HasBadTable(tools.serveItem, asked.value.schemas))
      && (r == Err(BadItem) <==>
            && asked.Some? && !asked.value.notModified && !Known(asked.value, e)
            && Snapshot(tools, source.Handler?, asked.value.schemas) == Err(BadItem))
  {
    if source.Ask(e).Some? { ServedFails(tools.serveItem, source.Ask(e).value.schemas); }
  }

  /** Which answer there is: "not modified" where the source said so, where its
      own etag is the caller's, and where it has none and the hash of the
      current collections is; in full otherwise, under the source's etag or, in
      content-hash mode and without one, that hash. */
  lemma AnswerExact(tools: Tools, mode: EtagMode, source: Source, e: Option<Bytes>)
    requires Answered(tools, mode, source, e).Ok?
    ensures var a, reply := Answered(tools, mode, source, e).value, source.Ask(e).value;
      var current := Snapshot(tools, source.Handler?, reply.schemas);
      var hashed := reply.etag.None? && mode.ContentHash?;
      && (a.NotModified? <==>
            || Known(reply, e)
            || (hashed && current.Ok? && e == Some(tools.hash(Frame(current.value)))))
      && (a.NotModified? ==> e == Some(a.known))
      && (a.Full? ==> !reply.notModified && current == Ok(a.collections))
      && (a.Full? ==> a.etag == if hashed then Some(tools.hash(Frame(a.collections))) else reply.etag)
  {
  }

  // ---- The framing, in full ----

  /** A collection in the frame: its name ended by a zero, then a zero where
      there is no stream, or a one, eight bytes of its length and its bytes. */
  lemma FrameOneIs(name: Bytes)
    ensures FrameOne(name, None) == name + [0, 0]
    ensures FrameOne(name, Some([7])) == name + [0, 1, 1, 0, 0, 0, 0, 0, 0, 0, 7]
  {
    OneLittleEndian();
    assert [1] + [1, 0, 0, 0, 0, 0, 0, 0] + [7] == [1, 1, 0, 0, 0, 0, 0, 0, 0, 7];
    assert name + [0] + [1, 1, 0, 0, 0, 0, 0, 0, 0, 7] == name + [0, 1, 1, 0, 0, 0, 0, 0, 0, 0, 7];
  }

  lemma OneLittleEndian()
    ensures LittleEndian(1, 8) == [1, 0, 0, 0, 0, 0, 0, 0]
  {
    assert LittleEndian(0, 1) == [0] && LittleEndian(0, 2) == [0, 0];
    assert LittleEndian(0, 3) == [0, 0, 0] && LittleEndian(0, 4) == [0, 0, 0, 0];
    assert LittleEndian(0, 5) == [0, 0, 0, 0, 0] && LittleEndian(0, 6) == [0, 0, 0, 0, 0, 0];
    assert LittleEndian(0, 7) == [0, 0, 0, 0, 0, 0, 0];
  }

  lemma FrameParts(c: Collections)
    ensures Frame(c) == DOMAIN + FrameOne(Ascii("schemas"), c[0]) + FrameOne(Ascii("tables"), c[1])
      + FrameOne(Ascii("views"), c[2]) + FrameOne(Ascii("functions"), c[3]) + FrameOne(Ascii("macros"), c[4])
      + FrameOne(Ascii("indexes"), c[5])
  {
    assert FrameUpTo(c, 1) == DOMAIN + FrameOne(Ascii("schemas"), c[0]);
    assert FrameUpTo(c, 3) == FrameUpTo(c, 1) + FrameOne(Ascii("tables"), c[1]) + FrameOne(Ascii("views"), c[2]);
    assert FrameUpTo(c, 5) == FrameUpTo(c, 3) + FrameOne(Ascii("functions"), c[3]) + FrameOne(Ascii("macros"), c[4]);
  }
}
