/** Which tables of built constraint records are accepted, said of their
    specifications and columns alone (src/constraints.cpp). */
module BuiltRecords {
  import opened Basics
  import opened NulSeparated
  import opened ConstraintRecords
  import opened ServedSchema
  import opened RecordValidation
  import opened RecordsExact

  // ---- Specifications ----

  /** A name within the size that is read. */
  predicate Short(s: Bytes) { |s| <= 4096 }

  predicate ShortPath(path: Path) { |path| <= 64 && forall i :: 0 <= i < |path| ==> Short(path[i]) }

  /** What is asked of one specification of a table, whatever its kind. */
  predicate FitsTable(owner: Owner, s: Spec) {
    && s.schemaPath == owner.schemaPath && |s.schemaPath| == 1 && s.table == owner.table
    && Short(s.id) && Short(s.schemaPath[0]) && Short(s.table) && (s.declaredName.Some? ==> Short(s.declaredName.value))
    && s.enforcement == Some(Enforced) && s.validation == Some(AllRows)
    && |s.columns| <= 1024 && forall i :: 0 <= i < |s.columns| ==> ShortPath(s.columns[i])
  }

  /** What its kind asks: a column for every path, top-level except for
      NOT_NULL; a foreign key within the schema, to top-level columns; a CHECK
      that the served columns support. */
  ghost predicate FitsColumns(columns: seq<Field>, required: set<Path>, grammar: Grammar, s: Spec) {
    && (forall i :: 0 <= i < |s.columns| ==>
          NamesColumn(columns, s.columns[i]) && (s.kind.NotNull? || |s.columns[i]| == 1))
    && (s.references.Some? ==>
          var r := s.references.value;
          && r.schemaPath == s.schemaPath && Short(r.table) && Short(r.constraintId)
          && forall i :: 0 <= i < |r.columns| ==> |r.columns[i]| == 1)
    && (s.checkSql.Some? ==> grammar(s.checkSql.value, ServeSchema(columns, required)))
  }

  /** What two specifications of one table may not share. */
  predicate FitTogether(s: Spec, t: Spec) {
    && s.id != t.id
    && !(s.declaredName.Some? && t.declaredName.Some? && SameLetters(s.declaredName.value, t.declaredName.value))
    && !(s.kind.PrimaryKey? && t.kind.PrimaryKey?)
  }

  /** The columns that the specifications make non-nullable. */
  function RequiredBy(specs: seq<Spec>): set<Path> {
    set i, j | 0 <= i < |specs| && (specs[i].kind.NotNull? || specs[i].kind.PrimaryKey?)
               && 0 <= j < |specs[i].columns| :: specs[i].columns[j]
  }

  /** The conditions on a whole table. */
  ghost predicate Fitting(owner: Owner, columns: seq<Field>, specs: seq<Spec>, sizes: seq<nat>, grammar: Grammar) {
    && |specs| <= 1024
    && (forall i :: 0 <= i < |sizes| ==> sizes[i] > 0) && SumOf(sizes) <= 8 * 1024 * 1024
    && (forall i :: 0 <= i < |specs| ==>
          FitsTable(owner, specs[i]) && FitsColumns(columns, RequiredBy(specs), grammar, specs[i]))
    && (forall i, j :: 0 <= i < j < |specs| ==> FitTogether(specs[i], specs[j]))
  }

  // ---- What is built ----

  /** A name: not empty, and no NUL in it. */
  predicate Proper(b: Bytes) { b != [] && forall i :: 0 <= i < |b| ==> b[i] != 0 }

  predicate ProperPath(path: Path) { path != [] && forall i :: 0 <= i < |path| ==> Proper(path[i]) }

  predicate ProperPaths(paths: seq<Path>) {
    && (forall i :: 0 <= i < |paths| ==> ProperPath(paths[i]))
    && forall i, j :: 0 <= i < |paths| && 0 <= j < |paths| && i != j ==> paths[i] != paths[j]
  }

  /** What each kind is a record of. */
  predicate KindBuilds(s: Spec) {
    match s.kind
    case Check => s.columns == [] && s.references.None? && s.checkSql.Some? && s.checkSql.value != []
    case NotNull => |s.columns| == 1 && ProperPath(s.columns[0]) && s.references.None? && s.checkSql.None?
    case ForeignKey =>
      && s.columns != [] && ProperPaths(s.columns) && s.checkSql.None? && s.references.Some?
      && var r := s.references.value;
      && r.schemaPath != [] && Proper(r.table) && Proper(r.constraintId)
      && ProperPaths(r.columns) && |r.columns| == |s.columns|
    case _ => s.columns != [] && ProperPaths(s.columns) && s.references.None? && s.checkSql.None?
  }

  lemma ProperIs(b: Bytes)
    ensures Proper(b) <==> IsName(b)
  {
  }

  lemma ProperPathsAre(paths: seq<Path>)
    ensures ProperPaths(paths) <==> GoodPaths(paths)
  {
    forall i, j | 0 <= i < |paths| && 0 <= j < |paths[i]| { ProperIs(paths[i][j]); }
    forall i | 0 <= i < |paths| ensures ProperPath(paths[i]) <==> paths[i] != [] && AllNames(paths[i]) {}
  }

  /** The specifications a record is built of, kind by kind. */
  lemma BuildableExactly(s: Spec)
    ensures Consistent(s) <==>
      && ProperPath(s.schemaPath) && Proper(s.table) && Proper(s.id)
      && (s.declaredName.Some? ==> Proper(s.declaredName.value))
      && s.enforcement.Some? && s.validation.Some? && KindBuilds(s)
  {
    ProperPathsAre(s.columns);
    if s.references.Some? { ProperPathsAre(s.references.value.columns); }
  }

  // ---- Acceptance ----

  predicate AllBuildable(specs: seq<Spec>) { forall i :: 0 <= i < |specs| ==> Consistent(specs[i]) }

  /** The records of the specifications, with the sizes of their bytes. */
  function Built(specs: seq<Spec>, sizes: seq<nat>): (blobs: seq<Blob>)
    requires AllBuildable(specs) && |sizes| == |specs|
    ensures |blobs| == |specs|
  {
    seq(|specs|, i requires 0 <= i < |specs| => Blob(sizes[i], Some(InfoOf(specs[i]))))
  }

  function Read(s: Spec): Decoded
    requires Consistent(s)
  {
    RecordRoundTrip(s);
    Decode(InfoOf(s)).value
  }

  function ReadAll(specs: seq<Spec>): (ds: seq<Decoded>)
    requires AllBuildable(specs)
    ensures |ds| == |specs|
  {
    seq(|specs|, i requires 0 <= i < |specs| => Read(specs[i]))
  }

  lemma ReadIs(s: Spec)
    requires Consistent(s)
    ensures Read(s).view == ViewOf(s) && GoodEnvelope(Read(s))
    ensures forall size :: ReadBlob(Blob(size, Some(InfoOf(s)))) == Ok(Read(s))
  {
    RecordRoundTrip(s);
  }

  lemma BuiltReads(specs: seq<Spec>, sizes: seq<nat>)
    requires AllBuildable(specs) && |sizes| == |specs|
    ensures DecodeAll(Built(specs, sizes)) == Some(ReadAll(specs))
  {
    var blobs := Built(specs, sizes);
    forall i | 0 <= i < |specs| ensures ReadBlob(blobs[i]) == Ok(ReadAll(specs)[i]) { ReadIs(specs[i]); }
    TryMapAll(blobs, ReadBlob, ReadAll(specs));
  }

  lemma RequiredIs(specs: seq<Spec>)
    requires AllBuildable(specs)
    ensures Required(ReadAll(specs)) == RequiredBy(specs)
  {
    forall i | 0 <= i < |specs| ensures ReadAll(specs)[i].view == ViewOf(specs[i]) { ReadIs(specs[i]); }
  }

  lemma HeaderIs(owner: Owner, s: Spec)
    requires Consistent(s)
    ensures GoodHeader(Some(owner), ViewOf(s)) <==> FitsTable(owner, s)
  {
    forall i | 0 <= i < |s.columns| ensures GoodPath(s.columns[i]) <==> ShortPath(s.columns[i]) {
      assert AllNames(s.columns[i]);
    }
    assert AllNames(s.schemaPath);
  }

  lemma ReferenceIs(s: Spec)
    requires Consistent(s) && s.kind.ForeignKey?
    ensures var r := s.references.value;
      GoodReference(Read(s), r) <==>
        && r.schemaPath == s.schemaPath && Short(r.table) && Short(r.constraintId)
        && forall i :: 0 <= i < |r.columns| ==> |r.columns[i]| == 1
  {
    ReadIs(s);
  }

  /** A built record passes the checks of its kind exactly when its columns are
      there and the rest of it fits. */
  lemma KindIs(raw: seq<Field>, required: set<Path>, grammar: Grammar, s: Spec)
    requires Consistent(s)
    ensures GoodKind(ServeSchema(raw, required), grammar, Read(s)) <==> FitsColumns(raw, required, grammar, s)
  {
    ReadIs(s);
    assert forall i :: 0 <= i < |s.columns| ==> s.columns[i] != [];
    match s.kind
    case NotNull =>
      ServedNames(raw, required, s.columns[0]);
      ResolveIs(ServeSchema(raw, required), s.columns[0]);
    case PrimaryKey => TopLevelOnlyIs(raw, required, s.columns);
    case Unique => TopLevelOnlyIs(raw, required, s.columns);
    case ForeignKey =>
      TopLevelOnlyIs(raw, required, s.columns);
      ReferenceIs(s);
    case Check =>
  }

  lemma TogetherIs(s: Spec, t: Spec)
    requires Consistent(s) && Consistent(t)
    ensures Together(ViewOf(s), ViewOf(t)) <==> FitTogether(s, t)
  {
    if s.declaredName.Some? && t.declaredName.Some? { LowerExact(s.declaredName.value, t.declaredName.value); }
  }

  lemma GoodIs(owner: Owner, raw: seq<Field>, specs: seq<Spec>, grammar: Grammar)
    requires AllBuildable(specs)
    ensures GoodRecords(Some(owner), ServeSchema(raw, RequiredBy(specs)), grammar, ReadAll(specs)) <==>
      && (forall i :: 0 <= i < |specs| ==>
            FitsTable(owner, specs[i]) && FitsColumns(raw, RequiredBy(specs), grammar, specs[i]))
      && (forall i, j :: 0 <= i < j < |specs| ==> FitTogether(specs[i], specs[j]))
  {
    var ds, served := ReadAll(specs), ServeSchema(raw, RequiredBy(specs));
    forall i | 0 <= i < |specs|
      ensures ds[i].view == ViewOf(specs[i])
      ensures GoodRecord(Some(owner), served, grammar, ds[i]) <==>
        FitsTable(owner, specs[i]) && FitsColumns(raw, RequiredBy(specs), grammar, specs[i])
    {
      ReadIs(specs[i]);
      HeaderIs(owner, specs[i]);
      KindIs(raw, RequiredBy(specs), grammar, specs[i]);
    }
    forall i, j | 0 <= i < j < |specs|
      ensures Together(ds[i].view, ds[j].view) <==> FitTogether(specs[i], specs[j])
    {
      TogetherIs(specs[i], specs[j]);
    }
  }

  /** A table whose constraints are the records of specifications is accepted if
      and only if the specifications fit it; otherwise it is refused, and never
      undefined. */
  lemma BuiltAccepted(owner: Owner, raw: seq<Field>, specs: seq<Spec>, sizes: seq<nat>, grammar: Grammar)
    requires AllBuildable(specs) && |sizes| == |specs|
    ensures SetVerdict(Some(owner), raw, Built(specs, sizes), grammar) ==
      if Fitting(owner, raw, specs, sizes, grammar) then Accept else Reject
  {
    BuiltReads(specs, sizes);
    SizesAdd(Built(specs, sizes), sizes);
    RequiredIs(specs);
    GoodIs(owner, raw, specs, grammar);
    BuiltDefined(owner, ServeSchema(raw, RequiredBy(specs)), specs, grammar);
  }

  lemma BuiltDefined(owner: Owner, columns: seq<Field>, specs: seq<Spec>, grammar: Grammar)
    requires AllBuildable(specs)
    ensures !SomeUndefined(Some(owner), columns, grammar, ReadAll(specs))
  {
    forall i: nat | i < |specs| ensures KindVerdict(columns, grammar, ReadAll(specs)[i]) != Undefined {
      BuiltNeverUndefined(columns, grammar, specs[i]);
    }
  }
}
