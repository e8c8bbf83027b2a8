/** The tables of a handler's answer, with the worker's own serving plugged in
    (src/catalog_contents.cpp, `answer_catalog_contents`, `serve_table_item`). */
module HandledTables {
  import opened Basics
  import opened ServedSchema
  import opened RecordValidation
  import opened TableItems
  import opened SchemaPaths
  import opened CatalogContents

  /** A table item as a client may rely on it: it reads, and its non-nullable
      reachable paths are exactly what its own records require. */
  ghost predicate Honours(codec: Codec, item: Bytes) {
    var t := codec.decode(item);
    && t.Some?
    && (t.value.columns.Some? ==>
          && DecodeAll(t.value.constraints).Some?
          && NonNull(Walked(t.value.columns.value), []) == Required(DecodeAll(t.value.constraints).value))
  }

  lemma ServedHonours(codec: Codec, grammar: Grammar, item: Bytes)
    requires LawfulCodec(codec) && ServeItem(codec, grammar, item).Ok?
    ensures Honours(codec, ServeItem(codec, grammar, item).value)
    ensures ServeItem(codec, grammar, ServeItem(codec, grammar, item).value) == ServeItem(codec, grammar, item)
  {
    ServedItemAgrees(codec, grammar, item);
    ServeItemIdempotent(codec, grammar, item);
  }

  /** A served schema is one of the handler's own, its tables served one by
      one. */
  ghost predicate ServedFrom(serve: Serve, given: seq<SchemaContents>, s: SchemaContents) {
    exists n :: 0 <= n < |given| && WithTablesServed(serve, given[n]) == Ok(s)
  }

  lemma PreparedFrom(tools: Tools, given: seq<SchemaContents>, i: nat)
    requires Prepared(tools, true, given).Ok? && i < |Prepared(tools, true, given).value|
    ensures ServedFrom(tools.serveItem, given, Prepared(tools, true, given).value[i])
  {
    var served := ServedSchemas(tools.serveItem, given).value;
    var s := ParentsFirst(served)[i];
    ParentsFirstSorts(served);
    assert s in multiset(served);
    ServedKeepsPaths(tools.serveItem, given);
    var n :| 0 <= n < |served| && served[n] == s;
    TryMapAt(given, (s: SchemaContents) => WithTablesServed(tools.serveItem, s), n);
  }

  /** Every table in a handler's full answer is one the handler gave, served:
      it honours its records, and serving it again would change nothing. */
  lemma AnswerHonoursRecords(codec: Codec, grammar: Grammar, tools: Tools, mode: EtagMode, source: Source,
                             ifNoneMatch: Option<Bytes>, i: nat, j: nat)
    requires LawfulCodec(codec) && source.Handler?
    requires forall b :: tools.serveItem(b) == ServeItem(codec, grammar, b)
    requires var r := Answered(tools, mode, source, ifNoneMatch);
      r.Ok? && r.value.Full? && i < |r.value.schemas| && j < |r.value.schemas[i].tables|
    ensures var s := Answered(tools, mode, source, ifNoneMatch).value.schemas[i];
      && ServedFrom(tools.serveItem, source.Ask(ifNoneMatch).value.schemas, s)
      && Honours(codec, s.tables[j]) && ServeItem(codec, grammar, s.tables[j]) == Ok(s.tables[j])
  {
    var given := source.Ask(ifNoneMatch).value.schemas;
    var s := Answered(tools, mode, source, ifNoneMatch).value.schemas[i];
    PreparedFrom(tools, given, i);
    var n :| 0 <= n < |given| && WithTablesServed(tools.serveItem, given[n]) == Ok(s);
    assert TryMap(given[n].tables, tools.serveItem) == Ok(s.tables);
    LengthOfTryMap(given[n].tables, tools.serveItem, j);
    TryMapAt(given[n].tables, tools.serveItem, j);
    ServedHonours(codec, grammar, given[n].tables[j]);
  }

  lemma LengthOfTryMap(items: seq<Bytes>, f: Serve, j: nat)
    requires TryMap(items, f).Ok? && j < |TryMap(items, f).value|
    ensures j < |items|
  {
    if items != [] { TryMapAt(items, f, 0); }
  }
}
