/** The serve-time checks of a table's constraint records (src/constraints.cpp,
    `validate_records`), and what an accepted set guarantees. */
module RecordValidation {
  import opened Basics
  import opened NulSeparated
  import opened ConstraintRecords
  import opened ServedSchema

  const MAX_RECORDS := 1024
  const MAX_TOTAL_BYTES := 8 * 1024 * 1024

  /** An entry of `TableInfo.constraints`: its size, and the record its bytes
      hold, if they hold one. */
  datatype Blob = Blob(size: nat, info: Option<Info>)

  /** The table the records must belong to, when that is checked. */
  datatype Owner = Owner(schemaPath: Path, table: Bytes)

  /** The CHECK expressions the served columns support. */
  type Grammar = (Bytes, seq<Field>) -> bool

  /** A verdict is undefined where the source reads an optional that holds
      nothing. */
  datatype Verdict = Accept | Reject | Undefined

  function DecodeBlob(b: Blob): Option<Decoded> {
    if b.info.None? then None else Decode(b.info.value)
  }

  predicate Identifier(s: Bytes) { s != [] && |s| <= 4096 && NulFree(s) }

  /** `required_paths`: every NOT_NULL and PRIMARY_KEY column path. */
  function Required(records: seq<Decoded>): set<Path> {
    set i, j | 0 <= i < |records| && (records[i].view.kind.NotNull? || records[i].view.kind.PrimaryKey?)
               && 0 <= j < |records[i].view.columns| :: records[i].view.columns[j]
  }

  // ---- One record ----

  predicate GoodHeader(owner: Option<Owner>, v: View) {
    && Identifier(v.id) && |v.schemaPath| == 1 && Identifier(v.schemaPath[0]) && Identifier(v.table)
    && (owner.Some? ==> v.schemaPath == owner.value.schemaPath && v.table == owner.value.table)
    && (v.declaredName.Some? ==> Identifier(v.declaredName.value))
    && v.enforcement.Enforced? && v.validation.AllRows?
    && |v.columns| <= 1024
    && (forall i :: 0 <= i < |v.columns| ==> GoodPath(v.columns[i]))
  }

  predicate GoodPath(path: Path) {
    path != [] && |path| <= 64 && forall i :: 0 <= i < |path| ==> Identifier(path[i])
  }

  predicate TopLevelOnly(columns: seq<Field>, paths: seq<Path>) {
    forall i :: 0 <= i < |paths| ==> |paths[i]| == 1 && TopLevel(columns, paths[i][0]).Some?
  }

  predicate IsAction(s: string) { s == "NO_ACTION" || s == "RESTRICT" }

  predicate GoodReference(d: Decoded, ref: Reference) {
    && ref.schemaPath == d.view.schemaPath && d.hasKey
    && d.keySchemaPath == ref.schemaPath && d.keyOwner == ref.table
    && Identifier(ref.table) && Identifier(ref.constraintId)
    && |ref.columns| == |d.view.columns|
    && (forall i :: 0 <= i < |ref.columns| ==> |ref.columns[i]| == 1)
    && d.matchType == "SIMPLE" && IsAction(d.onUpdate) && IsAction(d.onDelete)
  }

  /** What the kind of a record asks of the served columns. */
  predicate GoodKind(columns: seq<Field>, grammar: Grammar, d: Decoded) {
    match d.view.kind
    case NotNull =>
      |d.view.columns| == 1 && d.view.columns[0] != [] && Resolve(columns, d.view.columns[0]).Some?
    case PrimaryKey => TopLevelOnly(columns, d.view.columns)
    case Unique => TopLevelOnly(columns, d.view.columns)
    case ForeignKey =>
      TopLevelOnly(columns, d.view.columns) && d.view.references.Some? && GoodReference(d, d.view.references.value)
    case Check =>
      && d.checkProfile == SCALAR_EXPRESSION_READ && d.checkSchemaPath == d.view.schemaPath && d.defaultContext
      && d.view.checkSql.Some? && grammar(d.view.checkSql.value, columns)
  }

  predicate GoodRecord(owner: Option<Owner>, columns: seq<Field>, grammar: Grammar, d: Decoded) {
    GoodHeader(owner, d.view) && GoodKind(columns, grammar, d)
  }

  /** The `switch` on the kind, in the source's order. */
  function KindVerdict(columns: seq<Field>, grammar: Grammar, d: Decoded): Verdict {
    match d.view.kind
    case NotNull =>
      if |d.view.columns| == 1 && d.view.columns[0] != [] && Resolve(columns, d.view.columns[0]).Some?
      then Accept else Reject
    case PrimaryKey => if TopLevelOnly(columns, d.view.columns) then Accept else Reject
    case Unique => if TopLevelOnly(columns, d.view.columns) then Accept else Reject
    case ForeignKey =>
      if !TopLevelOnly(columns, d.view.columns) then Reject
      else if d.view.references.None? then Undefined
      else if GoodReference(d, d.view.references.value) then Accept else Reject
    case Check =>
      if d.checkProfile != SCALAR_EXPRESSION_READ || d.checkSchemaPath != d.view.schemaPath || !d.defaultContext
      then Reject
      else if d.view.checkSql.None? then Undefined
      else if grammar(d.view.checkSql.value, columns) then Accept else Reject
  }

  /** The undefined read happens for a FOREIGN_KEY record that carries no
      foreign key definition, over columns that are otherwise fine, and for
      nothing else a decoder can produce. */
  lemma UndefinedExactly(columns: seq<Field>, grammar: Grammar, info: Info)
    requires Decode(info).Some?
    ensures KindVerdict(columns, grammar, Decode(info).value) == Undefined
      <==> Decode(info).value.view.kind.ForeignKey? && info.definition.foreignKey.None?
           && TopLevelOnly(columns, Decode(info).value.view.columns)
  {
    assert |SCALAR_EXPRESSION_READ| > 0;
  }

  /** A record from `constraint_record` never gets there. */
  lemma BuiltNeverUndefined(columns: seq<Field>, grammar: Grammar, s: Spec)
    requires Consistent(s)
    ensures Decode(InfoOf(s)).Some? && KindVerdict(columns, grammar, Decode(InfoOf(s)).value) != Undefined
  {
    RecordRoundTrip(s);
  }

  // ---- A set of records ----

  function TotalSize(blobs: seq<Blob>): nat {
    if blobs == [] then 0 else TotalSize(blobs[..|blobs| - 1]) + blobs[|blobs| - 1].size
  }

  function ReadBlob(b: Blob): Result<Decoded, ()> {
    match DecodeBlob(b) case Some(d) => Ok(d) case None => Err(())
  }

  function DecodeAll(blobs: seq<Blob>): Option<seq<Decoded>> {
    match TryMap(blobs, ReadBlob) case Ok(records) => Some(records) case Err(_) => None
  }

  predicate GoodSizes(blobs: seq<Blob>) {
    TotalSize(blobs) <= MAX_TOTAL_BYTES && forall i :: 0 <= i < |blobs| ==> blobs[i].size > 0
  }

  /** No id twice, no declared name twice in any letter case, and at most one
      primary key. */
  predicate GoodTogether(records: seq<Decoded>) {
    forall i, j :: 0 <= i < j < |records| ==> Together(records[i].view, records[j].view)
  }

  predicate Together(a: View, b: View) {
    && a.id != b.id
    && (a.declaredName.Some? && b.declaredName.Some? ==> Lower(a.declaredName.value) != Lower(b.declaredName.value))
    && !(a.kind.PrimaryKey? && b.kind.PrimaryKey?)
  }

  predicate GoodRecords(owner: Option<Owner>, columns: seq<Field>, grammar: Grammar, records: seq<Decoded>) {
    GoodTogether(records) && forall i :: 0 <= i < |records| ==> GoodRecord(owner, columns, grammar, records[i])
  }

  /** The record sets `validate_records` accepts. */
  predicate Accepts(owner: Option<Owner>, raw: seq<Field>, blobs: seq<Blob>, grammar: Grammar) {
    && |blobs| <= MAX_RECORDS && GoodSizes(blobs) && DecodeAll(blobs).Some?
    && var records := DecodeAll(blobs).value;
    GoodRecords(owner, ServeSchema(raw, Required(records)), grammar, records)
  }

  lemma DecodeAllAt(blobs: seq<Blob>, i: nat)
    requires i < |blobs| && DecodeAll(blobs).Some?
    ensures |DecodeAll(blobs).value| == |blobs| && DecodeBlob(blobs[i]) == Some(DecodeAll(blobs).value[i])
  {
    TryMapAt(blobs, ReadBlob, i);
  }

  // ---- The validator ----

  method ReadRecords(blobs: seq<Blob>) returns (r: Option<seq<Decoded>>)
    ensures r == if GoodSizes(blobs) then DecodeAll(blobs) else None
  {
    var total: nat := 0;
    var records: seq<Decoded> := [];
    for i := 0 to |blobs|
      invariant SizesSoFar(blobs, i, total)
      invariant TryMap(blobs[..i], ReadBlob) == Ok(records)
    {
      SizesNext(blobs, i, total);
      total := total + blobs[i].size;
      if blobs[i].size == 0 || total > MAX_TOTAL_BYTES { return None; }
      var decoded := DecodeBlob(blobs[i]);
      TryMapNext(blobs, i, ReadBlob, records);
      if decoded.None? { return None; }
      records := records + [decoded.value];
    }
    assert blobs[..|blobs|] == blobs;
    return Some(records);
  }

  ghost predicate SizesSoFar(blobs: seq<Blob>, n: nat, total: nat)
    requires n <= |blobs|
  {
    && total == TotalSize(blobs[..n]) && total <= MAX_TOTAL_BYTES
    && (forall k :: 0 <= k < n ==> blobs[k].size > 0)
  }

  lemma SizesNext(blobs: seq<Blob>, n: nat, total: nat)
    requires n < |blobs| && SizesSoFar(blobs, n, total)
    ensures if blobs[n].size == 0 || total + blobs[n].size > MAX_TOTAL_BYTES then !GoodSizes(blobs)
            else SizesSoFar(blobs, n + 1, total + blobs[n].size)
  {
    assert blobs[..n + 1][..n] == blobs[..n];
    TotalGrows(blobs, n + 1);
  }

  lemma {:induction false} TotalGrows(blobs: seq<Blob>, i: nat)
    requires i <= |blobs|
    ensures TotalSize(blobs[..i]) <= TotalSize(blobs)
    decreases |blobs| - i
  {
    if i == |blobs| {
      assert blobs[..i] == blobs;
    } else {
      assert blobs[..i + 1][..i] == blobs[..i];
      TotalGrows(blobs, i + 1);
    }
  }

  /** The records before `i` are good, `i` is fine as far as it is read, and
      reading on reads what is not there. */
  ghost predicate UndefinedAt(owner: Option<Owner>, columns: seq<Field>, grammar: Grammar, records: seq<Decoded>,
                              i: nat)
  {
    && i < |records| && GoodUpTo(owner, columns, grammar, records, i) && TogetherUpTo(records, i + 1)
    && GoodHeader(owner, records[i].view) && KindVerdict(columns, grammar, records[i]) == Undefined
  }

  /** The record sets on which the check reads an absent optional. */
  ghost predicate Undefines(owner: Option<Owner>, raw: seq<Field>, blobs: seq<Blob>, grammar: Grammar) {
    && |blobs| <= MAX_RECORDS && GoodSizes(blobs) && DecodeAll(blobs).Some?
    && var records := DecodeAll(blobs).value;
    SomeUndefined(owner, ServeSchema(raw, Required(records)), grammar, records)
  }

  ghost predicate SomeUndefined(owner: Option<Owner>, columns: seq<Field>, grammar: Grammar, records: seq<Decoded>) {
    exists i: nat :: UndefinedAt(owner, columns, grammar, records, i)
  }

  /** The verdict on a set of records. */
  ghost function SetVerdict(owner: Option<Owner>, raw: seq<Field>, blobs: seq<Blob>, grammar: Grammar): Verdict {
    if Accepts(owner, raw, blobs, grammar) then Accept
    else if Undefines(owner, raw, blobs, grammar) then Undefined
    else Reject
  }

  /** `validate_records`: accepts exactly the good sets, is undefined exactly
      on those above, and the nullability walk at its end never fails. */
  method ValidateRecords(owner: Option<Owner>, raw: seq<Field>, blobs: seq<Blob>, grammar: Grammar)
    returns (verdict: Verdict)
    ensures verdict == SetVerdict(owner, raw, blobs, grammar)
  {
    if |blobs| > MAX_RECORDS { return Reject; }
    var read := ReadRecords(blobs);
    if read.None? { return Reject; }
    var records := read.value;
    var required := Required(records);
    var columns := ServeSchema(raw, required);
    verdict := CheckRecords(owner, columns, grammar, records);
    if !verdict.Accept? { return; }
    WalkNeverFails(raw, required);
    if !WalkSchema(columns, required) { return Reject; }
  }

  /** A FOREIGN_KEY record without a foreign key definition. */
  predicate LacksForeignKey(b: Blob) {
    b.info.Some? && b.info.value.definition.kind == "FOREIGN_KEY" && b.info.value.definition.foreignKey.None?
  }

  lemma UndefinedRecord(columns: seq<Field>, grammar: Grammar, blobs: seq<Blob>, i: nat)
    requires DecodeAll(blobs).Some? && i < |DecodeAll(blobs).value|
    requires KindVerdict(columns, grammar, DecodeAll(blobs).value[i]) == Undefined
    ensures i < |blobs| && LacksForeignKey(blobs[i])
  {
    DecodeAllAt(blobs, 0);
    DecodeAllAt(blobs, i);
    UndefinedExactly(columns, grammar, blobs[i].info.value);
    TablesOneToOne();
    ParseExact(KINDS, ForeignKey, blobs[i].info.value.definition.kind);
    ForeignKeySpelling(blobs[i].info.value.definition.kind);
  }

  lemma ForeignKeySpelling(text: string)
    ensures (ForeignKey, text) in KINDS ==> text == "FOREIGN_KEY"
  {
  }

  /** Only a set with a FOREIGN_KEY record that lacks its definition is
      undefined. */
  lemma UndefinedLacksForeignKey(owner: Option<Owner>, raw: seq<Field>, blobs: seq<Blob>, grammar: Grammar)
    requires SetVerdict(owner, raw, blobs, grammar) == Undefined
    ensures exists i :: 0 <= i < |blobs| && LacksForeignKey(blobs[i])
  {
    var records := DecodeAll(blobs).value;
    var columns := ServeSchema(raw, Required(records));
    var i: nat :| UndefinedAt(owner, columns, grammar, records, i);
    UndefinedRecord(columns, grammar, blobs, i);
  }

  /** Such a record: it decodes, and nothing else is wrong with it. */
  const HOLLOW := Blob(1, Some(Info(ObjectRef("constraint", [[97]], [98], Some([99])),
                                    Definition("FOREIGN_KEY", Some([]), None, None, None),
                                    "ENFORCED", "ALL_ROWS", None)))

  lemma HollowDecodes()
    ensures DecodeBlob(HOLLOW).Some?
    ensures DecodeBlob(HOLLOW).value.view ==
      View([[97]], [99], [98], ForeignKey, [], Enforced, AllRows, None, None, None)
  {
    TablesOneToOne();
    SpellingsInvert(KINDS, ForeignKey, KindText(ForeignKey));
    SpellingsInvert(ENFORCEMENTS, Enforced, EnforcementText(Enforced));
    SpellingsInvert(VALIDATIONS, AllRows, ValidationText(AllRows));
  }

  /** A table with any columns whose one record is that one: the check of it
      reads a reference that is not there. */
  lemma HollowIsUndefined(raw: seq<Field>, grammar: Grammar)
    ensures SetVerdict(Some(Owner([[97]], [99])), raw, [HOLLOW], grammar) == Undefined
  {
    var owner, blobs := Some(Owner([[97]], [99])), [HOLLOW];
    HollowDecodes();
    assert blobs[..0] == [];
    assert TotalSize(blobs) == 1;
    var d := DecodeBlob(HOLLOW).value;
    TryMapOne(HOLLOW, ReadBlob);
    var columns := ServeSchema(raw, Required([d]));
    assert KindVerdict(columns, grammar, [d][0]) == Undefined;
    assert UndefinedAt(owner, columns, grammar, [d], 0);
    UndefinedNotGood(owner, columns, grammar, [d], 0);
  }

  lemma UndefinedNotGood(owner: Option<Owner>, columns: seq<Field>, grammar: Grammar, records: seq<Decoded>, i: nat)
    requires UndefinedAt(owner, columns, grammar, records, i)
    ensures !GoodRecords(owner, columns, grammar, records)
  {
    VerdictIsGoodKind(columns, grammar, records[i]);
  }

  /** The loop over the decoded records, with the ids, labels and primary key
      seen so far. */
  method CheckRecords(owner: Option<Owner>, columns: seq<Field>, grammar: Grammar, records: seq<Decoded>)
    returns (verdict: Verdict)
    ensures verdict == Accept <==> GoodRecords(owner, columns, grammar, records)
    ensures verdict == Undefined <==> SomeUndefined(owner, columns, grammar, records)
  {
    var ids: set<Bytes> := {};
    var labels: set<Bytes> := {};
    var primary := false;
    for i := 0 to |records|
      invariant Seen(records, i, ids, labels, primary) && PassedUpTo(owner, columns, grammar, records, i)
    {
      verdict, ids, labels, primary := CheckRecord(owner, columns, grammar, records, i, ids, labels, primary);
      if verdict != Accept {
        StopsHere(owner, columns, grammar, records, i);
        return;
      }
    }
    verdict := Accept;
    PassedIsGood(owner, columns, grammar, records);
  }

  /** The records before `n` passed, each and together. */
  ghost predicate PassedUpTo(owner: Option<Owner>, columns: seq<Field>, grammar: Grammar, records: seq<Decoded>, n: nat)
    requires n <= |records|
  {
    GoodUpTo(owner, columns, grammar, records, n) && TogetherUpTo(records, n)
  }

  lemma PassedIsGood(owner: Option<Owner>, columns: seq<Field>, grammar: Grammar, records: seq<Decoded>)
    requires PassedUpTo(owner, columns, grammar, records, |records|)
    ensures GoodRecords(owner, columns, grammar, records) && !SomeUndefined(owner, columns, grammar, records)
  {
    forall i: nat | i < |records| ensures KindVerdict(columns, grammar, records[i]) != Undefined {
      VerdictIsGoodKind(columns, grammar, records[i]);
      assert GoodRecord(owner, columns, grammar, records[i]);
    }
  }

  /** Where the loop stops is the only place that can be undefined. */
  lemma StopsHere(owner: Option<Owner>, columns: seq<Field>, grammar: Grammar, records: seq<Decoded>, n: nat)
    requires n < |records| && PassedUpTo(owner, columns, grammar, records, n)
    requires !PassedUpTo(owner, columns, grammar, records, n + 1)
    ensures !GoodRecords(owner, columns, grammar, records)
    ensures SomeUndefined(owner, columns, grammar, records) <==> UndefinedAt(owner, columns, grammar, records, n)
  {
    forall i: nat | i < n ensures KindVerdict(columns, grammar, records[i]) != Undefined {
      VerdictIsGoodKind(columns, grammar, records[i]);
      assert GoodRecord(owner, columns, grammar, records[i]);
    }
    forall i: nat | UndefinedAt(owner, columns, grammar, records, i) ensures i == n {
      if i > n {
        assert GoodUpTo(owner, columns, grammar, records, n + 1);
        assert TogetherUpTo(records, n + 1);
      }
    }
  }

  ghost predicate GoodUpTo(owner: Option<Owner>, columns: seq<Field>, grammar: Grammar, records: seq<Decoded>, n: nat)
    requires n <= |records|
  {
    forall k :: 0 <= k < n ==> GoodRecord(owner, columns, grammar, records[k])
  }

  /** One turn of the loop. */
  method CheckRecord(owner: Option<Owner>, columns: seq<Field>, grammar: Grammar, records: seq<Decoded>, i: nat,
                     ids: set<Bytes>, labels: set<Bytes>, primary: bool)
    returns (verdict: Verdict, ids': set<Bytes>, labels': set<Bytes>, primary': bool)
    requires i < |records| && Seen(records, i, ids, labels, primary)
    requires PassedUpTo(owner, columns, grammar, records, i)
    ensures verdict == Accept ==> Seen(records, i + 1, ids', labels', primary')
    ensures verdict == Accept <==> PassedUpTo(owner, columns, grammar, records, i + 1)
    ensures verdict == Undefined <==> UndefinedAt(owner, columns, grammar, records, i)
  {
    var v := records[i].view;
    ids', labels', primary' := ids, labels, primary;
    TurnDecides(owner, columns, grammar, records, i, ids, labels, primary);
    if !GoodHeader(owner, v) { return Reject, ids', labels', primary'; }
    if v.id in ids { return Reject, ids', labels', primary'; }
    if v.declaredName.Some? && Lower(v.declaredName.value) in labels { return Reject, ids', labels', primary'; }
    verdict := KindVerdict(columns, grammar, records[i]);
    if verdict != Accept { return; }
    if v.kind.PrimaryKey? && primary { return Reject, ids', labels', primary'; }
    ids' := ids + {v.id};
    if v.declaredName.Some? { labels' := labels + {Lower(v.declaredName.value)}; }
    primary' := primary || v.kind.PrimaryKey?;
  }

  predicate Clashes(v: View, ids: set<Bytes>, labels: set<Bytes>) {
    v.id in ids || (v.declaredName.Some? && Lower(v.declaredName.value) in labels)
  }

  lemma TurnDecides(owner: Option<Owner>, columns: seq<Field>, grammar: Grammar, records: seq<Decoded>, i: nat,
                    ids: set<Bytes>, labels: set<Bytes>, primary: bool)
    requires i < |records| && Seen(records, i, ids, labels, primary)
    requires PassedUpTo(owner, columns, grammar, records, i)
    ensures var v := records[i].view;
      var fine := GoodHeader(owner, v) && !Clashes(v, ids, labels);
      var kind := KindVerdict(columns, grammar, records[i]);
      && (PassedUpTo(owner, columns, grammar, records, i + 1) <==>
            fine && kind == Accept && !(v.kind.PrimaryKey? && primary))
      && (UndefinedAt(owner, columns, grammar, records, i) <==> fine && kind == Undefined)
      && Seen(records, i + 1, ids + {v.id},
              if v.declaredName.Some? then labels + {Lower(v.declaredName.value)} else labels,
              primary || v.kind.PrimaryKey?)
  {
    SeenStep(records, i, ids, labels, primary);
    VerdictIsGoodKind(columns, grammar, records[i]);
  }

  lemma VerdictIsGoodKind(columns: seq<Field>, grammar: Grammar, d: Decoded)
    ensures KindVerdict(columns, grammar, d) == Accept <==> GoodKind(columns, grammar, d)
  {
  }

  ghost predicate TogetherUpTo(records: seq<Decoded>, n: nat)
    requires n <= |records|
  {
    forall i, j :: 0 <= i < j < n ==> Together(records[i].view, records[j].view)
  }

  /** What the loop remembers of the records before `n`. */
  ghost predicate Seen(records: seq<Decoded>, n: nat, ids: set<Bytes>, labels: set<Bytes>, primary: bool)
    requires n <= |records|
  {
    && (forall x :: x in ids <==> exists k :: 0 <= k < n && records[k].view.id == x)
    && (forall x :: x in labels <==> exists k :: 0 <= k < n && HasLabel(records[k].view, x))
    && (primary <==> exists k :: 0 <= k < n && records[k].view.kind.PrimaryKey?)
  }

  predicate HasLabel(v: View, folded: Bytes) { v.declaredName.Some? && Lower(v.declaredName.value) == folded }

  /** Whether the next record clashes with one seen, and what is seen after. */
  lemma SeenStep(records: seq<Decoded>, n: nat, ids: set<Bytes>, labels: set<Bytes>, primary: bool)
    requires n < |records| && Seen(records, n, ids, labels, primary) && TogetherUpTo(records, n)
    ensures var v := records[n].view;
      var clash := v.id in ids || (v.declaredName.Some? && Lower(v.declaredName.value) in labels)
                   || (v.kind.PrimaryKey? && primary);
      && (clash <==> !TogetherUpTo(records, n + 1))
      && Seen(records, n + 1, ids + {v.id},
              if v.declaredName.Some? then labels + {Lower(v.declaredName.value)} else labels,
              primary || v.kind.PrimaryKey?)
  {
    var v := records[n].view;
    if v.declaredName.Some? { assert HasLabel(v, Lower(v.declaredName.value)); }
    if Clashes(v, ids, labels) || (v.kind.PrimaryKey? && primary) {
      var k :| 0 <= k < n && (records[k].view.id == v.id
                              || (v.declaredName.Some? && HasLabel(records[k].view, Lower(v.declaredName.value)))
                              || (v.kind.PrimaryKey? && records[k].view.kind.PrimaryKey?));
      assert !Together(records[k].view, records[n].view);
    } else {
      forall k | 0 <= k < n ensures Together(records[k].view, v) {
        assert records[k].view.id in ids;
        if records[k].view.declaredName.Some? {
          assert HasLabel(records[k].view, Lower(records[k].view.declaredName.value));
        }
      }
    }
  }

  // ---- What acceptance guarantees ----

  /** Served with the records of an accepted set, a table's non-nullable
      reachable paths are exactly the paths those records name: none is
      missing, at any depth, and none is extra. */
  lemma AcceptedNullability(owner: Option<Owner>, raw: seq<Field>, blobs: seq<Blob>, grammar: Grammar)
    requires Accepts(owner, raw, blobs, grammar)
    ensures var required := Required(DecodeAll(blobs).value);
      NonNull(Walked(ServeSchema(raw, required)), []) == required
  {
    var records := DecodeAll(blobs).value;
    var required := Required(records);
    forall path | path in required ensures path in Reach(Walked(raw), []) {
      var i, j :| 0 <= i < |records| && (records[i].view.kind.NotNull? || records[i].view.kind.PrimaryKey?)
                  && 0 <= j < |records[i].view.columns| && records[i].view.columns[j] == path;
      assert GoodRecord(owner, ServeSchema(raw, required), grammar, records[i]);
      RequiredResolves(ServeSchema(raw, required), grammar, records[i], j);
      ResolveServed(raw, required, path);
      ResolvedIsReached(raw, path);
    }
    NonNullIsRequired(raw, required);
  }

  lemma RequiredResolves(columns: seq<Field>, grammar: Grammar, d: Decoded, j: nat)
    requires d.view.kind.NotNull? || d.view.kind.PrimaryKey?
    requires GoodKind(columns, grammar, d) && j < |d.view.columns|
    ensures d.view.columns[j] != [] && Resolve(columns, d.view.columns[j]).Some?
  {
    var path := d.view.columns[j];
    if d.view.kind.PrimaryKey? {
      assert path[1..] == [];
    }
  }

  /** Validating raw columns or already served ones gives the same verdict:
      acceptance, rejection or undefined. */
  lemma ServedVerdictIsRaw(owner: Option<Owner>, raw: seq<Field>, blobs: seq<Blob>, grammar: Grammar)
    requires DecodeAll(blobs).Some?
    ensures SetVerdict(owner, raw, blobs, grammar)
      == SetVerdict(owner, ServeSchema(raw, Required(DecodeAll(blobs).value)), blobs, grammar)
  {
    ServeSchemaIdempotent(raw, Required(DecodeAll(blobs).value));
  }
}
