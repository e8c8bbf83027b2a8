/** A table that a custom `catalog_contents` handler encoded itself, held to
    the contract of one the worker encodes (src/catalog_contents.cpp,
    `serve_table_item`). */
module TableItems {
  import opened Basics
  import opened ServedSchema
  import opened RecordValidation
  import opened SchemaPaths

  /** The parts of a TableInfo record that serving reads; `rest` is all the
      other columns. An empty schema encoding is no columns at all. */
  datatype TableInfo = TableInfo(
    schemaPath: Path,
    name: Bytes,
    columns: Option<seq<Field>>,
    constraints: seq<Blob>,
    rest: Bytes)

  /** Reading fails unless the bytes are a record of one row. */
  datatype Codec = Codec(encode: TableInfo -> Bytes, decode: Bytes -> Option<TableInfo>)

  ghost predicate LawfulCodec(codec: Codec) {
    forall t :: codec.decode(codec.encode(t)) == Some(t)
  }

  /** The columns as served: nullability follows the records. */
  function ServedColumns(columns: seq<Field>, blobs: seq<Blob>): seq<Field>
    requires DecodeAll(blobs).Some?
  {
    ServeSchema(columns, Required(DecodeAll(blobs).value))
  }

  /** What becomes of an item. */
  ghost function ServeItem(codec: Codec, grammar: Grammar, item: Bytes): Result<Bytes, TableFault> {
    match codec.decode(item)
    case None => Err(Refused)
    case Some(t) =>
      if t.columns.None? then Ok(item) else
      match SetVerdict(Some(Owner(t.schemaPath, t.name)), t.columns.value, t.constraints, grammar)
      case Reject => Err(Refused)
      case Undefined => Err(ReadsAbsent)
      case Accept =>
        var served := ServedColumns(t.columns.value, t.constraints);
        if served == t.columns.value then Ok(item) else Ok(codec.encode(t.(columns := Some(served))))
  }

  method ServeTableItem(codec: Codec, grammar: Grammar, item: Bytes) returns (r: Result<Bytes, TableFault>)
    ensures r == ServeItem(codec, grammar, item)
  {
    var decoded := codec.decode(item);
    if decoded.None? { return Err(Refused); }
    var t := decoded.value;
    if t.columns.None? { return Ok(item); }
    var verdict := ValidateRecords(Some(Owner(t.schemaPath, t.name)), t.columns.value, t.constraints, grammar);
    if verdict == Undefined { return Err(ReadsAbsent); }
    if verdict == Reject { return Err(Refused); }
    var served := ServedColumns(t.columns.value, t.constraints);
    if served == t.columns.value { return Ok(item); }
    return Ok(codec.encode(t.(columns := Some(served))));
  }

  /** An item is refused if it does not read or its records are rejected, and
      not otherwise; without declared columns it is passed on as it is. */
  lemma ServeItemFails(codec: Codec, grammar: Grammar, item: Bytes)
    ensures var r := ServeItem(codec, grammar, item);
      match codec.decode(item)
      case None => r == Err(Refused)
      case Some(t) =>
        if t.columns.None? then r == Ok(item)
        else
          var verdict := SetVerdict(Some(Owner(t.schemaPath, t.name)), t.columns.value, t.constraints, grammar);
          && (r == Err(Refused) <==> verdict == Reject) && (r == Err(ReadsAbsent) <==> verdict == Undefined)
          && (r.Ok? <==> verdict == Accept)
  {
  }

  /** A handler's table with the record that lacks its foreign key. */
  lemma HollowTableReadsAbsent(codec: Codec, grammar: Grammar, columns: seq<Field>, rest: Bytes)
    requires LawfulCodec(codec)
    ensures ServeItem(codec, grammar, codec.encode(TableInfo([[97]], [99], Some(columns), [HOLLOW], rest)))
      == Err(ReadsAbsent)
  {
    HollowIsUndefined(columns, grammar);
  }

  /** A served item decodes to the same table, but for columns rewritten so
      that their non-nullable paths are exactly what the records require. */
  lemma ServedItemAgrees(codec: Codec, grammar: Grammar, item: Bytes)
    requires LawfulCodec(codec) && ServeItem(codec, grammar, item).Ok?
    ensures var t, s := codec.decode(item).value, codec.decode(ServeItem(codec, grammar, item).value);
      && s.Some? && s.value == t.(columns := s.value.columns)
      && (s.value.columns.Some? <==> t.columns.Some?)
      && (s.value.columns.Some? ==>
            && DecodeAll(t.constraints).Some?
            && NonNull(Walked(s.value.columns.value), []) == Required(DecodeAll(t.constraints).value))
  {
    var t := codec.decode(item).value;
    if t.columns.Some? {
      AcceptedNullability(Some(Owner(t.schemaPath, t.name)), t.columns.value, t.constraints, grammar);
    }
  }

  /** Serving what was already served changes no byte of it. */
  lemma ServeItemIdempotent(codec: Codec, grammar: Grammar, item: Bytes)
    requires LawfulCodec(codec) && ServeItem(codec, grammar, item).Ok?
    ensures ServeItem(codec, grammar, ServeItem(codec, grammar, item).value) == ServeItem(codec, grammar, item)
  {
    var t := codec.decode(item).value;
    if t.columns.Some? {
      var owner := Some(Owner(t.schemaPath, t.name));
      ServedVerdictIsRaw(owner, t.columns.value, t.constraints, grammar);
      ServeSchemaIdempotent(t.columns.value, Required(DecodeAll(t.constraints).value));
    }
  }
}
