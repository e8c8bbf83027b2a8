/** Canonical constraint records (src/constraints.cpp): the builder, the
    decoder, and the enum spellings between them. */
module ConstraintRecords {
  import opened Basics
  import opened NulSeparated

  datatype Kind = NotNull | PrimaryKey | Unique | Check | ForeignKey
  datatype Enforcement = Enforced | MetadataOnly
  datatype Validation = AllRows | FutureWrites | Unvalidated

  datatype Reference = Reference(schemaPath: Path, table: Bytes, columns: seq<Path>, constraintId: Bytes)

  /** `ConstraintRecordSpec`: what a worker states. */
  datatype Spec = Spec(
    schemaPath: Path, table: Bytes, id: Bytes, kind: Kind, columns: seq<Path>,
    enforcement: Option<Enforcement>, validation: Option<Validation>,
    declaredName: Option<Bytes>, checkSql: Option<Bytes>, references: Option<Reference>)

  /** `ConstraintRecordView`: what a record says. */
  datatype View = View(
    schemaPath: Path, table: Bytes, id: Bytes, kind: Kind, columns: seq<Path>,
    enforcement: Enforcement, validation: Validation,
    declaredName: Option<Bytes>, checkSql: Option<Bytes>, references: Option<Reference>)

  // ---- The wire records ----

  datatype ObjectRef = ObjectRef(kind: string, schemaPath: Path, name: Bytes, owner: Option<Bytes>)

  datatype Context = Context(timezone: string, collation: string, order: string, nullOrder: string,
                             preserveInsertionOrder: Option<bool>)

  datatype SqlExpression = SqlExpression(sql: Bytes, profile: string, schemaPath: Path, context: Option<Context>)

  /** A list of lists of strings, any of which may be null. */
  type WirePaths = Option<seq<Option<seq<Option<Bytes>>>>>

  datatype ForeignKeyDefinition = ForeignKeyDefinition(
    referencedTable: ObjectRef, columnPaths: WirePaths, matchType: string, onUpdate: string, onDelete: string)

  datatype Definition = Definition(
    kind: string, columnPaths: WirePaths, declaredName: Option<Bytes>,
    check: Option<SqlExpression>, foreignKey: Option<ForeignKeyDefinition>)

  datatype Info = Info(ref: ObjectRef, definition: Definition, enforcement: string, validation: string,
                       referencedConstraint: Option<ObjectRef>)

  // ---- Spellings ----

  const KINDS: seq<(Kind, string)> := [
    (NotNull, "NOT_NULL"), (PrimaryKey, "PRIMARY_KEY"), (Unique, "UNIQUE"), (Check, "CHECK"),
    (ForeignKey, "FOREIGN_KEY")]
  const ENFORCEMENTS: seq<(Enforcement, string)> := [(Enforced, "ENFORCED"), (MetadataOnly, "METADATA_ONLY")]
  const VALIDATIONS: seq<(Validation, string)> := [
    (AllRows, "ALL_ROWS"), (FutureWrites, "FUTURE_WRITES"), (Unvalidated, "UNVALIDATED")]

  function Spell<E(==)>(table: seq<(E, string)>, value: E): Option<string> {
    if table == [] then None
    else if table[0].0 == value then Some(table[0].1)
    else Spell(table[1..], value)
  }

  function Parse<E>(table: seq<(E, string)>, text: string): Option<E> {
    if table == [] then None
    else if table[0].1 == text then Some(table[0].0)
    else Parse(table[1..], text)
  }

  /** No value and no spelling appears twice. */
  ghost predicate OneToOne<E>(table: seq<(E, string)>) {
    forall i, j :: 0 <= i < j < |table| ==> table[i].0 != table[j].0 && table[i].1 != table[j].1
  }

  lemma OneToOneTail<E>(table: seq<(E, string)>)
    requires OneToOne(table) && table != []
    ensures OneToOne(table[1..]) && table == [table[0]] + table[1..]
    ensures forall x :: x in table[1..] ==> x.0 != table[0].0 && x.1 != table[0].1
  {
    var tail := table[1..];
    forall i, j | 0 <= i < j < |tail| ensures tail[i].0 != tail[j].0 && tail[i].1 != tail[j].1 {
      assert table[i + 1].0 != table[j + 1].0 && table[i + 1].1 != table[j + 1].1;
    }
    forall x | x in tail ensures x.0 != table[0].0 && x.1 != table[0].1 {
      var i :| 0 <= i < |tail| && tail[i] == x;
      assert table[i + 1] == x;
    }
  }

  lemma {:induction false} SpellExact<E>(table: seq<(E, string)>, value: E, text: string)
    requires OneToOne(table)
    ensures Spell(table, value) == Some(text) <==> (value, text) in table
  {
    if table != [] {
      OneToOneTail(table);
      SpellExact(table[1..], value, text);
    }
  }

  lemma {:induction false} ParseExact<E>(table: seq<(E, string)>, value: E, text: string)
    requires OneToOne(table)
    ensures Parse(table, text) == Some(value) <==> (value, text) in table
  {
    if table != [] {
      OneToOneTail(table);
      ParseExact(table[1..], value, text);
    }
  }

  /** Spelling and parsing invert each other on a one-to-one table. */
  lemma SpellingsInvert<E>(table: seq<(E, string)>, value: E, text: string)
    requires OneToOne(table)
    ensures Spell(table, value) == Some(text) <==> Parse(table, text) == Some(value)
  {
    SpellExact(table, value, text);
    ParseExact(table, value, text);
  }

  lemma TablesOneToOne()
    ensures OneToOne(KINDS) && OneToOne(ENFORCEMENTS) && OneToOne(VALIDATIONS)
  {
    assert |KINDS[0].1| == 8 && |KINDS[1].1| == 11 && |KINDS[2].1| == 6 && |KINDS[3].1| == 5 && |KINDS[4].1| == 11;
    assert KINDS[1].1[0] == 'P' && KINDS[4].1[0] == 'F';
    assert |VALIDATIONS[0].1| == 8 && |VALIDATIONS[1].1| == 13 && |VALIDATIONS[2].1| == 11;
    assert |ENFORCEMENTS[0].1| == 8 && |ENFORCEMENTS[1].1| == 13;
  }

  function KindText(k: Kind): (s: string)
    ensures Spell(KINDS, k) == Some(s)
  {
    assert Spell(KINDS, k).Some? by { SpellTotal(); }
    Spell(KINDS, k).value
  }

  function EnforcementText(v: Enforcement): (s: string)
    ensures Spell(ENFORCEMENTS, v) == Some(s)
  {
    assert Spell(ENFORCEMENTS, v).Some? by { SpellTotal(); }
    Spell(ENFORCEMENTS, v).value
  }

  function ValidationText(v: Validation): (s: string)
    ensures Spell(VALIDATIONS, v) == Some(s)
  {
    assert Spell(VALIDATIONS, v).Some? by { SpellTotal(); }
    Spell(VALIDATIONS, v).value
  }

  lemma {:induction false} SpellPresent<E>(table: seq<(E, string)>, value: E, i: nat)
    requires i < |table| && table[i].0 == value
    ensures Spell(table, value).Some?
  {
    if i > 0 { SpellPresent(table[1..], value, i - 1); }
  }

  /** Every enum value has a spelling. */
  lemma SpellTotal()
    ensures forall k :: Spell(KINDS, k).Some?
    ensures forall v :: Spell(ENFORCEMENTS, v).Some?
    ensures forall v :: Spell(VALIDATIONS, v).Some?
  {
    forall k ensures Spell(KINDS, k).Some? {
      SpellPresent(KINDS, k,
                   match k
                   case NotNull => 0 case PrimaryKey => 1 case Unique => 2 case Check => 3 case ForeignKey => 4);
    }
    forall v ensures Spell(ENFORCEMENTS, v).Some? {
      SpellPresent(ENFORCEMENTS, v, match v case Enforced => 0 case MetadataOnly => 1);
    }
    forall v ensures Spell(VALIDATIONS, v).Some? {
      SpellPresent(VALIDATIONS, v, match v case AllRows => 0 case FutureWrites => 1 case Unvalidated => 2);
    }
  }

  // ---- The builder ----

  const SCALAR_EXPRESSION_READ := "vgi.expression.duckdb.scalar.v1"

  predicate IsName(s: Bytes) { s != [] && NulFree(s) }

  predicate AllNames(path: Path) { forall i :: 0 <= i < |path| ==> IsName(path[i]) }

  /** Nonempty paths of names, none twice. */
  predicate GoodPaths(paths: seq<Path>) {
    && (forall i :: 0 <= i < |paths| ==> paths[i] != [] && AllNames(paths[i]))
    && (forall i, j :: 0 <= i < j < |paths| ==> paths[i] != paths[j])
  }

  /** What `constraint_record` asks of a specification. */
  predicate Consistent(s: Spec) {
    && s.schemaPath != [] && AllNames(s.schemaPath) && IsName(s.table) && IsName(s.id)
    && s.enforcement.Some? && s.validation.Some?
    && (s.kind.Check? <==> s.checkSql.Some?) && (s.kind.Check? ==> s.checkSql.value != [])
    && (s.kind.Check? <==> s.columns == []) && (s.kind.NotNull? ==> |s.columns| == 1)
    && GoodPaths(s.columns)
    && (s.kind.ForeignKey? <==> s.references.Some?)
    && (s.declaredName.Some? ==> IsName(s.declaredName.value))
    && (s.references.Some? ==>
          var r := s.references.value;
          r.schemaPath != [] && IsName(r.table) && IsName(r.constraintId)
          && GoodPaths(r.columns) && |r.columns| == |s.columns|)
  }

  function WirePath(path: Path): (w: Option<seq<Option<Bytes>>>)
    ensures w.Some? && |w.value| == |path|
  {
    Some(seq(|path|, i requires 0 <= i < |path| => Some(path[i])))
  }

  function ToWire(paths: seq<Path>): WirePaths {
    Some(seq(|paths|, i requires 0 <= i < |paths| => WirePath(paths[i])))
  }

  const DEFAULT_CONTEXT := Context("UTC", "binary", "asc", "nulls_last", Some(true))

  function InfoOf(s: Spec): Info
    requires Consistent(s)
  {
    Info(
      ObjectRef("constraint", s.schemaPath, s.id, Some(s.table)),
      Definition(
        KindText(s.kind), ToWire(s.columns), s.declaredName,
        if s.kind.Check? then
          Some(SqlExpression(s.checkSql.value, SCALAR_EXPRESSION_READ, s.schemaPath, Some(DEFAULT_CONTEXT)))
        else None,
        if s.kind.ForeignKey? then
          var r := s.references.value;
          Some(ForeignKeyDefinition(ObjectRef("table", r.schemaPath, r.table, None), ToWire(r.columns),
                                    "SIMPLE", "NO_ACTION", "NO_ACTION"))
        else None),
      EnforcementText(s.enforcement.value),
      ValidationText(s.validation.value),
      if s.kind.ForeignKey? then
        var r := s.references.value;
        Some(ObjectRef("constraint", r.schemaPath, r.constraintId, Some(r.table)))
      else None)
  }

  /** `require_paths`, with its set of paths seen. */
  method RequirePaths(paths: seq<Path>) returns (ok: bool)
    ensures ok <==> GoodPaths(paths)
  {
    var seen: set<Path> := {};
    for i := 0 to |paths|
      invariant seen == set k | 0 <= k < i :: paths[k]
      invariant GoodPaths(paths[..i])
    {
      var path := paths[i];
      if path == [] { return false; }
      for j := 0 to |path|
        invariant forall k :: 0 <= k < j ==> IsName(path[k])
      {
        if !IsName(path[j]) {
          assert !AllNames(paths[i]);
          return false;
        }
      }
      if path in seen { return false; }
      seen := seen + {path};
      assert paths[..i + 1] == paths[..i] + [path];
    }
    assert paths[..|paths|] == paths;
    return true;
  }

  /** `constraint_record`: a record, or a refusal of an inconsistent
      specification. */
  method ConstraintRecord(s: Spec) returns (r: Option<Info>)
    ensures r == if Consistent(s) then Some(InfoOf(s)) else None
  {
    if s.schemaPath == [] || !AllNames(s.schemaPath) || !IsName(s.table) || !IsName(s.id) { return None; }
    if s.enforcement.None? || s.validation.None? { return None; }
    var check, foreign := s.kind.Check?, s.kind.ForeignKey?;
    if check != s.checkSql.Some? || (check && s.checkSql.value == []) { return None; }
    if (if check then s.columns != [] else s.columns == []) { return None; }
    if s.kind.NotNull? && |s.columns| != 1 { return None; }
    var ok := RequirePaths(s.columns);
    if !ok || foreign != s.references.Some? { return None; }
    if s.declaredName.Some? && !IsName(s.declaredName.value) { return None; }
    if foreign {
      var ref := s.references.value;
      if ref.schemaPath == [] || !IsName(ref.table) || !IsName(ref.constraintId) { return None; }
      ok := RequirePaths(ref.columns);
      if !ok || |ref.columns| != |s.columns| { return None; }
    }
    return Some(InfoOf(s));
  }

  // ---- The decoder ----

  /** A decoded record, with what the view leaves out and is still checked. */
  datatype Decoded = Decoded(
    view: View, hasKey: bool, keySchemaPath: Path, keyOwner: Bytes,
    matchType: string, onUpdate: string, onDelete: string,
    checkProfile: string, checkSchemaPath: Path, defaultContext: bool)

  function ReadPath(w: seq<Option<Bytes>>): Option<Path> {
    if w == [] then Some([])
    else if w[0].None? then None
    else
      var rest :- ReadPath(w[1..]);
      Some([w[0].value] + rest)
  }

  function ReadPathList(w: seq<Option<seq<Option<Bytes>>>>): Option<seq<Path>> {
    if w == [] then Some([])
    else if w[0].None? then None
    else
      var first :- ReadPath(w[0].value);
      var rest :- ReadPathList(w[1..]);
      Some([first] + rest)
  }

  /** `get_paths`: any null is refused. */
  function ReadPaths(w: WirePaths): Option<seq<Path>> {
    if w.None? then None else ReadPathList(w.value)
  }

  predicate IsDefault(c: Option<Context>) { c == Some(DEFAULT_CONTEXT) }

  /** The foreign key half of a record: its reference, if it has one. */
  function ReadReference(info: Info): Option<Option<Reference>> {
    match info.definition.foreignKey
    case None => if info.referencedConstraint.Some? then None else Some(None)
    case Some(fk) =>
      if fk.referencedTable.kind != "table" || fk.referencedTable.owner.Some? then None else
      var columns :- ReadPaths(fk.columnPaths);
      if info.referencedConstraint.Some? && info.referencedConstraint.value.kind != "constraint" then None else
      Some(Some(Reference(fk.referencedTable.schemaPath, fk.referencedTable.name, columns,
                          if info.referencedConstraint.Some? then info.referencedConstraint.value.name else [])))
  }

  /** `decode_constraint_record`. */
  function Decode(info: Info): Option<Decoded> {
    if info.ref.kind != "constraint" then None else
    var definition := info.definition;
    var kind :- Parse(KINDS, definition.kind);
    var columns :- ReadPaths(definition.columnPaths);
    var enforcement :- Parse(ENFORCEMENTS, info.enforcement);
    var validation :- Parse(VALIDATIONS, info.validation);
    var references :- ReadReference(info);
    var check := definition.check;
    var fk := definition.foreignKey;
    var key := if fk.Some? then info.referencedConstraint else None;
    Some(Decoded(
      View(info.ref.schemaPath, OrEmpty(info.ref.owner), info.ref.name, kind, columns, enforcement, validation,
           definition.declaredName, if check.Some? then Some(check.value.sql) else None, references),
      key.Some?,
      if key.Some? then key.value.schemaPath else [],
      if key.Some? then OrEmpty(key.value.owner) else [],
      if fk.Some? then fk.value.matchType else "",
      if fk.Some? then fk.value.onUpdate else "",
      if fk.Some? then fk.value.onDelete else "",
      if check.Some? then check.value.profile else "",
      if check.Some? then check.value.schemaPath else [],
      check.Some? && IsDefault(check.value.context)))
  }

  // ---- The round trip ----

  lemma {:induction false} ReadPathOfWire(path: Path)
    ensures ReadPath(WirePath(path).value) == Some(path)
  {
    if path != [] {
      assert WirePath(path).value[1..] == WirePath(path[1..]).value;
      ReadPathOfWire(path[1..]);
      assert path == [path[0]] + path[1..];
    }
  }

  lemma {:induction false} ReadPathsOfWire(paths: seq<Path>)
    ensures ReadPaths(ToWire(paths)) == Some(paths)
  {
    if paths != [] {
      assert ToWire(paths).value[1..] == ToWire(paths[1..]).value;
      ReadPathOfWire(paths[0]);
      ReadPathsOfWire(paths[1..]);
      assert paths == [paths[0]] + paths[1..];
    }
  }

  function ViewOf(s: Spec): View
    requires Consistent(s)
  {
    View(s.schemaPath, s.table, s.id, s.kind, s.columns, s.enforcement.value, s.validation.value,
         s.declaredName, s.checkSql, s.references)
  }

  /** What the builder always puts around a CHECK and a foreign key: the
      envelope the serve-time checks ask for. */
  predicate GoodEnvelope(d: Decoded) {
    && (d.view.kind.Check? ==>
          d.checkProfile == SCALAR_EXPRESSION_READ && d.checkSchemaPath == d.view.schemaPath && d.defaultContext)
    && (d.view.kind.ForeignKey? ==>
          && d.view.references.Some? && d.hasKey
          && d.keySchemaPath == d.view.references.value.schemaPath
          && d.keyOwner == d.view.references.value.table
          && d.matchType == "SIMPLE" && d.onUpdate == "NO_ACTION" && d.onDelete == "NO_ACTION")
  }

  /** Every specification the builder accepts decodes to a view that says the
      same, in an envelope that passes. */
  lemma RecordRoundTrip(s: Spec)
    requires Consistent(s)
    ensures Decode(InfoOf(s)).Some?
    ensures Decode(InfoOf(s)).value.view == ViewOf(s) && GoodEnvelope(Decode(InfoOf(s)).value)
  {
    TablesOneToOne();
    SpellingsInvert(KINDS, s.kind, KindText(s.kind));
    SpellingsInvert(ENFORCEMENTS, s.enforcement.value, EnforcementText(s.enforcement.value));
    SpellingsInvert(VALIDATIONS, s.validation.value, ValidationText(s.validation.value));
    ReadPathsOfWire(s.columns);
    if s.kind.ForeignKey? { ReadPathsOfWire(s.references.value.columns); }
  }

  /** Distinct specifications give distinct records. */
  lemma RecordsAreDistinct(s: Spec, t: Spec)
    requires Consistent(s) && Consistent(t) && InfoOf(s) == InfoOf(t)
    ensures s == t
  {
    RecordRoundTrip(s);
    RecordRoundTrip(t);
  }
}
