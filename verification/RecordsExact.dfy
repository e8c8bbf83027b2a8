/** What a constraint record says and which tables are accepted, of any records
    whatever (src/constraints.cpp). */
module RecordsExact {
  import opened Basics
  import opened ConstraintRecords
  import opened ServedSchema
  import opened RecordValidation

  // ---- Columns ----

  predicate HasKey(f: Field, key: Bytes) { exists i :: 0 <= i < |f.metadata| && f.metadata[i].0 == key }

  /** A STRUCT that is no extension type and no logical type. */
  predicate PlainStruct(f: Field) {
    && f.ty.Struct? && !HasKey(f, Ascii("ARROW:extension:name"))
    && forall i :: 0 <= i < |f.metadata| ==> !(Ascii("vgi.logical_type.") <= f.metadata[i].0)
  }

  /** Field `i` alone has the name. */
  predicate OnlyOne(fields: seq<Field>, name: Bytes, i: nat) {
    i < |fields| && fields[i].name == name && forall j :: 0 <= j < |fields| && j != i ==> fields[j].name != name
  }

  /** The rest of a path leads down from a field, through plain STRUCTs, each
      step to the one child of its name. */
  ghost predicate LeadsDown(f: Field, path: Path)
    decreases |path|
  {
    path == [] || (PlainStruct(f) && exists i: nat ::
                     OnlyOne(f.ty.children, path[0], i) && LeadsDown(f.ty.children[i], path[1..]))
  }

  /** A path names a column, or a member of one; row ids have no name. */
  ghost predicate NamesColumn(columns: seq<Field>, path: Path) {
    path != [] && exists i: nat ::
      OnlyOne(columns, path[0], i) && !HasKey(columns[i], Ascii("is_row_id")) && LeadsDown(columns[i], path[1..])
  }

  lemma {:induction false} NamedNone(fields: seq<Field>, name: Bytes)
    requires forall j :: 0 <= j < |fields| ==> fields[j].name != name
    ensures Named(fields, name) == []
  {
    if fields != [] { NamedNone(fields[1..], name); }
  }

  lemma {:induction false} NamedOne(fields: seq<Field>, name: Bytes, i: nat)
    requires OnlyOne(fields, name, i)
    ensures Named(fields, name) == [fields[i]]
  {
    var tail := fields[1..];
    assert forall j :: 0 <= j < |tail| ==> tail[j] == fields[j + 1];
    if i == 0 {
      NamedNone(tail, name);
    } else {
      assert OnlyOne(tail, name, i - 1);
      NamedOne(tail, name, i - 1);
    }
  }

  lemma {:induction false} OneNamed(fields: seq<Field>, name: Bytes) returns (i: nat)
    requires |Named(fields, name)| == 1
    ensures OnlyOne(fields, name, i)
  {
    var tail := fields[1..];
    assert forall j :: 0 <= j < |tail| ==> tail[j] == fields[j + 1];
    if fields[0].name == name {
      i := 0;
      NoneNamed(tail, name);
    } else {
      i := OneNamed(tail, name);
      i := i + 1;
    }
  }

  lemma {:induction false} NoneNamed(fields: seq<Field>, name: Bytes)
    requires Named(fields, name) == []
    ensures forall j :: 0 <= j < |fields| ==> fields[j].name != name
  {
    if fields != [] {
      NoneNamed(fields[1..], name);
      assert forall j :: 0 < j < |fields| ==> fields[j] == fields[1..][j - 1];
    }
  }

  lemma {:induction false} DescendIs(f: Field, path: Path)
    ensures Descend(f, path).Some? <==> LeadsDown(f, path)
    decreases |path|
  {
    if path != [] && f.ty.Struct? {
      assert IsOrdinary(f) <==> PlainStruct(f);
      if |Named(f.ty.children, path[0])| == 1 {
        var i := OneNamed(f.ty.children, path[0]);
        NamedOne(f.ty.children, path[0], i);
        DescendIs(f.ty.children[i], path[1..]);
        forall j: nat | OnlyOne(f.ty.children, path[0], j) ensures j == i { assert f.ty.children[i].name == path[0]; }
      } else {
        forall j: nat ensures !OnlyOne(f.ty.children, path[0], j) {
          if OnlyOne(f.ty.children, path[0], j) { NamedOne(f.ty.children, path[0], j); }
        }
      }
    }
  }

  lemma ResolveIs(columns: seq<Field>, path: Path)
    requires path != []
    ensures Resolve(columns, path).Some? <==> NamesColumn(columns, path)
  {
    if |Named(columns, path[0])| == 1 {
      var i := OneNamed(columns, path[0]);
      NamedOne(columns, path[0], i);
      DescendIs(columns[i], path[1..]);
      forall j: nat | OnlyOne(columns, path[0], j) ensures j == i { assert columns[i].name == path[0]; }
    } else {
      forall j: nat ensures !OnlyOne(columns, path[0], j) {
        if OnlyOne(columns, path[0], j) { NamedOne(columns, path[0], j); }
      }
    }
  }

  /** A one-component path names a top-level column. */
  lemma TopLevelIs(columns: seq<Field>, path: Path)
    requires |path| == 1
    ensures TopLevel(columns, path[0]).Some? <==> NamesColumn(columns, path)
  {
    ResolveIs(columns, path);
    assert path[1..] == [];
  }

  /** Serving changes no name of a column. */
  lemma ServedNames(columns: seq<Field>, required: set<Path>, path: Path)
    requires path != []
    ensures NamesColumn(ServeSchema(columns, required), path) <==> NamesColumn(columns, path)
  {
    ResolveServed(columns, required, path);
    ResolveIs(columns, path);
    ResolveIs(ServeSchema(columns, required), path);
  }

  lemma TopLevelOnlyIs(raw: seq<Field>, required: set<Path>, paths: seq<Path>)
    requires forall i :: 0 <= i < |paths| ==> paths[i] != []
    ensures TopLevelOnly(ServeSchema(raw, required), paths) <==>
      forall i :: 0 <= i < |paths| ==> |paths[i]| == 1 && NamesColumn(raw, paths[i])
  {
    forall i | 0 <= i < |paths| && |paths[i]| == 1
      ensures TopLevel(ServeSchema(raw, required), paths[i][0]).Some? <==> NamesColumn(raw, paths[i])
    {
      TopLevelIs(ServeSchema(raw, required), paths[i]);
      ServedNames(raw, required, paths[i]);
    }
  }

  // ---- Sizes ----

  function SumOf(sizes: seq<nat>): nat { if sizes == [] then 0 else SumOf(sizes[..|sizes| - 1]) + sizes[|sizes| - 1] }

  lemma {:induction false} SizesAdd(blobs: seq<Blob>, sizes: seq<nat>)
    requires |blobs| == |sizes| && forall i :: 0 <= i < |blobs| ==> blobs[i].size == sizes[i]
    ensures TotalSize(blobs) == SumOf(sizes)
    ensures GoodSizes(blobs) <==> SumOf(sizes) <= MAX_TOTAL_BYTES && forall i :: 0 <= i < |sizes| ==> sizes[i] > 0
  {
    if blobs != [] {
      var n := |blobs| - 1;
      SizesAdd(blobs[..n], sizes[..n]);
    }
  }

  // ---- Any records ----

  /** A name as the check asks for it. */
  predicate Sized(s: Bytes) { s != [] && |s| <= 4096 && forall i :: 0 <= i < |s| ==> s[i] != 0 }

  predicate SizedPath(path: Path) { path != [] && |path| <= 64 && forall i :: 0 <= i < |path| ==> Sized(path[i]) }

  predicate Action(s: string) { s == "NO_ACTION" || s == "RESTRICT" }

  /** What is asked of one decoded record, whatever its kind. */
  predicate PassesHeader(owner: Option<Owner>, v: View) {
    && Sized(v.id) && Sized(v.table) && |v.schemaPath| == 1 && Sized(v.schemaPath[0])
    && (owner.Some? ==> v.schemaPath == owner.value.schemaPath && v.table == owner.value.table)
    && (v.declaredName.Some? ==> Sized(v.declaredName.value))
    && v.enforcement == Enforced && v.validation == AllRows
    && |v.columns| <= 1024 && (forall i :: 0 <= i < |v.columns| ==> SizedPath(v.columns[i]))
  }

  /** And of its kind: columns that are there, a reference that passes, a CHECK
      that the served columns support. */
  ghost predicate PassesKind(raw: seq<Field>, required: set<Path>, grammar: Grammar, d: Decoded) {
    var v := d.view;
    && (!v.kind.Check? ==> forall i :: 0 <= i < |v.columns| ==>
          NamesColumn(raw, v.columns[i]) && (v.kind.NotNull? || |v.columns[i]| == 1))
    && (v.kind.NotNull? ==> |v.columns| == 1)
    && (v.kind.ForeignKey? ==> v.references.Some? && PassesKey(d, v.references.value))
    && (v.kind.Check? ==>
          && v.checkSql.Some? && d.checkProfile == "vgi.expression.duckdb.scalar.v1"
          && d.checkSchemaPath == v.schemaPath && d.defaultContext
          && grammar(v.checkSql.value, ServeSchema(raw, required)))
  }

  ghost predicate Passes(owner: Option<Owner>, raw: seq<Field>, required: set<Path>, grammar: Grammar, d: Decoded) {
    PassesHeader(owner, d.view) && PassesKind(raw, required, grammar, d)
  }

  /** What is asked of a foreign key's reference: an identified key of a table
      in the same schema. */
  predicate PassesKey(d: Decoded, r: Reference) {
    && r.schemaPath == d.view.schemaPath && Sized(r.table) && Sized(r.constraintId)
    && d.hasKey && d.keySchemaPath == r.schemaPath && d.keyOwner == r.table
    && |r.columns| == |d.view.columns| && (forall i :: 0 <= i < |r.columns| ==> |r.columns[i]| == 1)
    && d.matchType == "SIMPLE" && Action(d.onUpdate) && Action(d.onDelete)
  }

  predicate PassTogether(a: View, b: View) {
    && a.id != b.id
    && !(a.declaredName.Some? && b.declaredName.Some? && SameLetters(a.declaredName.value, b.declaredName.value))
    && !(a.kind.PrimaryKey? && b.kind.PrimaryKey?)
  }

  lemma SizedIs(s: Bytes)
    ensures Sized(s) <==> Identifier(s)
  {
  }

  lemma SizedPathIs(path: Path)
    ensures SizedPath(path) <==> GoodPath(path)
  {
    forall i | 0 <= i < |path| { SizedIs(path[i]); }
  }

  lemma PassesHeaderIs(owner: Option<Owner>, v: View)
    ensures GoodHeader(owner, v) <==> PassesHeader(owner, v)
  {
    forall i | 0 <= i < |v.columns| { SizedPathIs(v.columns[i]); }
  }

  lemma PassesKindIs(raw: seq<Field>, required: set<Path>, grammar: Grammar, d: Decoded)
    requires forall i :: 0 <= i < |d.view.columns| ==> d.view.columns[i] != []
    ensures GoodKind(ServeSchema(raw, required), grammar, d) <==> PassesKind(raw, required, grammar, d)
  {
    TopLevelOnlyIs(raw, required, d.view.columns);
    if |d.view.columns| == 1 {
      ServedNames(raw, required, d.view.columns[0]);
      ResolveIs(ServeSchema(raw, required), d.view.columns[0]);
    }
  }

  lemma PassesIs(owner: Option<Owner>, raw: seq<Field>, required: set<Path>, grammar: Grammar, d: Decoded)
    ensures GoodRecord(owner, ServeSchema(raw, required), grammar, d) <==> Passes(owner, raw, required, grammar, d)
  {
    PassesHeaderIs(owner, d.view);
    if PassesHeader(owner, d.view) { PassesKindIs(raw, required, grammar, d); }
  }

  /** All records of a table pass, each and together. */
  ghost predicate AllPass(owner: Option<Owner>, raw: seq<Field>, grammar: Grammar, ds: seq<Decoded>) {
    && (forall i :: 0 <= i < |ds| ==> Passes(owner, raw, Required(ds), grammar, ds[i]))
    && (forall i, j :: 0 <= i < j < |ds| ==> PassTogether(ds[i].view, ds[j].view))
  }

  lemma VerdictIsAccept(owner: Option<Owner>, raw: seq<Field>, blobs: seq<Blob>, grammar: Grammar)
    ensures SetVerdict(owner, raw, blobs, grammar) == Accept <==> Accepts(owner, raw, blobs, grammar)
  {
  }

  /** The exact acceptance of a table, whatever its records: how many and how
      big they are, that each reads and passes, and that they pass together. */
  lemma AcceptedExactly(owner: Option<Owner>, raw: seq<Field>, blobs: seq<Blob>, sizes: seq<nat>, grammar: Grammar)
    requires |sizes| == |blobs| && forall i :: 0 <= i < |blobs| ==> blobs[i].size == sizes[i]
    ensures SetVerdict(owner, raw, blobs, grammar) == Accept <==>
      && |blobs| <= 1024 && SumOf(sizes) <= 8 * 1024 * 1024 && (forall i :: 0 <= i < |sizes| ==> sizes[i] > 0)
      && DecodeAll(blobs).Some? && AllPass(owner, raw, grammar, DecodeAll(blobs).value)
  {
    VerdictIsAccept(owner, raw, blobs, grammar);
    SizesAdd(blobs, sizes);
    if DecodeAll(blobs).Some? { AllPassIs(owner, raw, grammar, DecodeAll(blobs).value); }
  }

  lemma PassTogetherIs(a: View, b: View)
    ensures Together(a, b) <==> PassTogether(a, b)
  {
    if a.declaredName.Some? && b.declaredName.Some? { LowerExact(a.declaredName.value, b.declaredName.value); }
  }

  lemma AllPassIs(owner: Option<Owner>, raw: seq<Field>, grammar: Grammar, ds: seq<Decoded>)
    ensures GoodRecords(owner, ServeSchema(raw, Required(ds)), grammar, ds) <==> AllPass(owner, raw, grammar, ds)
  {
    var served, required := ServeSchema(raw, Required(ds)), Required(ds);
    forall i | 0 <= i < |ds|
      ensures GoodRecord(owner, served, grammar, ds[i]) <==> Passes(owner, raw, required, grammar, ds[i])
    {
      PassesIs(owner, raw, required, grammar, ds[i]);
    }
    forall i, j | 0 <= i < j < |ds|
      ensures Together(ds[i].view, ds[j].view) <==> PassTogether(ds[i].view, ds[j].view)
    {
      PassTogetherIs(ds[i].view, ds[j].view);
    }
  }

  // ---- Decoding any record ----

  predicate NoNulls(w: WirePaths) {
    w.Some? && forall i :: 0 <= i < |w.value| ==>
      w.value[i].Some? && forall j :: 0 <= j < |w.value[i].value| ==> w.value[i].value[j].Some?
  }

  /** The paths a list says. */
  predicate Says(w: WirePaths, paths: seq<Path>) {
    && NoNulls(w) && |paths| == |w.value|
    && forall i :: 0 <= i < |paths| ==>
         && |paths[i]| == |w.value[i].value|
         && forall j :: 0 <= j < |paths[i]| ==> w.value[i].value[j] == Some(paths[i][j])
  }

  lemma {:induction false} ReadPathIs(w: seq<Option<Bytes>>)
    ensures ReadPath(w).Some? <==> forall j :: 0 <= j < |w| ==> w[j].Some?
    ensures ReadPath(w).Some? ==>
      |ReadPath(w).value| == |w| && forall j :: 0 <= j < |w| ==> w[j] == Some(ReadPath(w).value[j])
  {
    if w != [] {
      ReadPathIs(w[1..]);
      assert forall j :: 0 < j < |w| ==> w[j] == w[1..][j - 1];
      assert forall j :: 0 <= j < |w[1..]| ==> w[1..][j] == w[j + 1];
    }
  }

  lemma {:induction false} ReadPathsIs(w: WirePaths)
    requires w.Some?
    ensures ReadPaths(w).Some? <==> NoNulls(w)
    ensures ReadPaths(w).Some? ==> Says(w, ReadPaths(w).value)
    decreases if w.Some? then |w.value| else 0
  {
    if w.value != [] {
      var tail := w.value[1..];
      assert forall i :: 0 < i < |w.value| ==> w.value[i] == tail[i - 1];
      assert forall i :: 0 <= i < |tail| ==> tail[i] == w.value[i + 1];
      ReadPathsIs(Some(tail));
      if w.value[0].Some? { ReadPathIs(w.value[0].value); }
    }
  }

  lemma SaysOnce(w: WirePaths, a: seq<Path>, b: seq<Path>)
    requires Says(w, a) && Says(w, b)
    ensures a == b
  {
    forall i | 0 <= i < |a| ensures a[i] == b[i] {
      forall j | 0 <= j < |a[i]| ensures a[i][j] == b[i][j] {
        assert w.value[i].value[j] == Some(a[i][j]) == Some(b[i][j]);
      }
    }
  }

  function KindName(k: Kind): string {
    match k
    case NotNull => "NOT_NULL"
    case PrimaryKey => "PRIMARY_KEY"
    case Unique => "UNIQUE"
    case Check => "CHECK"
    case ForeignKey => "FOREIGN_KEY"
  }

  function EnforcementName(e: Enforcement): string {
    match e case Enforced => "ENFORCED" case MetadataOnly => "METADATA_ONLY"
  }

  function ValidationName(v: Validation): string {
    match v case AllRows => "ALL_ROWS" case FutureWrites => "FUTURE_WRITES" case Unvalidated => "UNVALIDATED"
  }

  lemma KindReads(text: string, k: Kind)
    ensures Parse(KINDS, text) == Some(k) <==> text == KindName(k)
  {
    TablesOneToOne();
    ParseExact(KINDS, k, text);
    assert KINDS[0] in KINDS && KINDS[1] in KINDS && KINDS[2] in KINDS && KINDS[3] in KINDS && KINDS[4] in KINDS;
  }

  lemma EnforcementReads(text: string, e: Enforcement)
    ensures Parse(ENFORCEMENTS, text) == Some(e) <==> text == EnforcementName(e)
  {
    TablesOneToOne();
    ParseExact(ENFORCEMENTS, e, text);
    assert ENFORCEMENTS[0] in ENFORCEMENTS && ENFORCEMENTS[1] in ENFORCEMENTS;
  }

  lemma ValidationReads(text: string, v: Validation)
    ensures Parse(VALIDATIONS, text) == Some(v) <==> text == ValidationName(v)
  {
    TablesOneToOne();
    ParseExact(VALIDATIONS, v, text);
    assert VALIDATIONS[0] in VALIDATIONS && VALIDATIONS[1] in VALIDATIONS && VALIDATIONS[2] in VALIDATIONS;
  }

  /** What a wire record says, field by field. */
  ghost predicate RecordSays(info: Info, d: Decoded) {
    var v, definition := d.view, info.definition;
    && info.ref.kind == "constraint" && v.schemaPath == info.ref.schemaPath && v.id == info.ref.name
    && v.table == (if info.ref.owner.Some? then info.ref.owner.value else [])
    && definition.kind == KindName(v.kind) && Says(definition.columnPaths, v.columns)
    && info.enforcement == EnforcementName(v.enforcement) && info.validation == ValidationName(v.validation)
    && v.declaredName == definition.declaredName
    && SaysCheck(definition.check, d) && SaysKey(definition.foreignKey, info.referencedConstraint, d)
  }

  predicate SaysCheck(check: Option<SqlExpression>, d: Decoded) {
    match check
    case None => d.view.checkSql == None && d.checkProfile == "" && d.checkSchemaPath == [] && !d.defaultContext
    case Some(c) =>
      && d.view.checkSql == Some(c.sql) && d.checkProfile == c.profile && d.checkSchemaPath == c.schemaPath
      && (d.defaultContext <==> c.context == Some(Context("UTC", "binary", "asc", "nulls_last", Some(true))))
  }

  predicate SaysKey(fk: Option<ForeignKeyDefinition>, key: Option<ObjectRef>, d: Decoded) {
    match fk
    case None =>
      && key.None? && d.view.references == None && !d.hasKey && d.keySchemaPath == [] && d.keyOwner == []
      && d.matchType == "" && d.onUpdate == "" && d.onDelete == ""
    case Some(f) =>
      && f.referencedTable.kind == "table" && f.referencedTable.owner.None?
      && d.view.references.Some?
      && var r := d.view.references.value;
      && r.schemaPath == f.referencedTable.schemaPath && r.table == f.referencedTable.name
      && Says(f.columnPaths, r.columns)
      && d.matchType == f.matchType && d.onUpdate == f.onUpdate && d.onDelete == f.onDelete
      && d.hasKey == key.Some?
      && match key
         case None => r.constraintId == [] && d.keySchemaPath == [] && d.keyOwner == []
         case Some(k) =>
           && k.kind == "constraint" && r.constraintId == k.name && d.keySchemaPath == k.schemaPath
           && d.keyOwner == (if k.owner.Some? then k.owner.value else [])
  }

  lemma PathsReadAs(w: WirePaths, paths: seq<Path>)
    ensures ReadPaths(w) == Some(paths) <==> Says(w, paths)
  {
    if w.Some? {
      ReadPathsIs(w);
      if Says(w, paths) { SaysOnce(w, paths, ReadPaths(w).value); }
    }
  }

  /** A record decodes to exactly what it says, and to nothing if it says
      nothing. */
  lemma DecodeExact(info: Info, d: Decoded)
    ensures Decode(info) == Some(d) <==> RecordSays(info, d)
  {
    KindReads(info.definition.kind, d.view.kind);
    EnforcementReads(info.enforcement, d.view.enforcement);
    ValidationReads(info.validation, d.view.validation);
    PathsReadAs(info.definition.columnPaths, d.view.columns);
    if info.definition.foreignKey.Some? && d.view.references.Some? {
      PathsReadAs(info.definition.foreignKey.value.columnPaths, d.view.references.value.columns);
    }
  }
}
