/** The attach value (src/catalog.cpp): five NUL-separated fields, with the
    secret options kept server-side when the transport does not seal it. */
module AttachValue {
  import opened Basics
  import opened NulSeparated
  import opened Wire
  import opened Catalogs
  import opened TicketRedemption

  datatype Attachment = Attachment(catalog: Bytes, dataVersion: Bytes, alias: Bytes, id: Bytes,
                                   options: Option<seq<Column>>)

  /** The text form of an options record. */
  datatype Codec = Codec(ipc: Ipc, encode64: Bytes -> Bytes, decode64: Bytes -> Bytes)

  ghost predicate LawfulCodec(x: Codec) {
    && LawfulIpc(x.ipc)
    && x.encode64([]) == []
    && (forall b :: x.decode64(x.encode64(b)) == b)
    && (forall b :: NulFree(x.encode64(b)))
  }

  /** The secret options of each attachment, by its id. */
  type Store = map<Bytes, Bytes>

  // ---- Sealing ----

  predicate IsSecret(model: Option<CatalogModel>, name: Bytes) {
    && model.Some?
    && exists i :: 0 <= i < |model.value.options|
                   && model.value.options[i].secret && model.value.options[i].name == name
  }

  /** The columns that are secret, or those that are not, in order. */
  function Keep(model: Option<CatalogModel>, columns: seq<Column>, secret: bool): seq<Column> {
    if columns == [] then []
    else (if IsSecret(model, columns[0].name) == secret then [columns[0]] else [])
         + Keep(model, columns[1..], secret)
  }

  function OptionsText(x: Codec, options: Option<seq<Column>>): Bytes {
    if options.None? then [] else x.encode64(x.ipc.encode(Record(options.value, 1)))
  }

  /** What of the options rides in the value. */
  function Carried(model: Option<CatalogModel>, sealed: bool, options: Option<seq<Column>>): Option<seq<Column>> {
    if options.None? || sealed then options else Some(Keep(model, options.value, false))
  }

  function Join(a: Attachment, options: Bytes): Bytes {
    a.catalog + [0] + (a.dataVersion + [0] + (a.alias + [0] + (a.id + [0] + options)))
  }

  function SealedValue(catalogs: seq<CatalogModel>, x: Codec, sealed: bool, a: Attachment): Bytes {
    Join(a, OptionsText(x, Carried(FindCatalog(catalogs, a.catalog), sealed, a.options)))
  }

  function SealedStore(catalogs: seq<CatalogModel>, x: Codec, sealed: bool, a: Attachment, store: Store): Store {
    var secrets := if a.options.None? || sealed then []
                   else Keep(FindCatalog(catalogs, a.catalog), a.options.value, true);
    if secrets == [] then store else store[a.id := x.ipc.encode(Record(secrets, 1))]
  }

  // ---- Reading ----

  function Default(catalogs: seq<CatalogModel>): Attachment
    requires catalogs != []
  {
    Attachment(catalogs[0].name, [], [], [], None)
  }

  predicate Wants(model: CatalogModel, options: Option<seq<Column>>) {
    exists i :: 0 <= i < |model.options| && model.options[i].secret
      && (options.None? || Find(options.value, model.options[i].name).None?)
  }

  /** The options in declared order, each from the value if it is there and
      from the store otherwise. */
  function Gather(specs: seq<OptionSpec>, plain: seq<Column>, secrets: seq<Column>): seq<Column> {
    if specs == [] then []
    else (match Find(plain, specs[0].name)
          case Some(c) => [c]
          case None => match Find(secrets, specs[0].name) case Some(c) => [c] case None => [])
         + Gather(specs[1..], plain, secrets)
  }

  /** Why a value is not read: a sealing transport rejects what it did not
      seal, and bytes that should be an options record may be none. */
  datatype ReadError = Rejected | Unreadable

  /** An options record, or none when there are no bytes or no batch. */
  function ReadColumns(ipc: Ipc, bytes: Bytes): Result<Option<seq<Column>>, ReadError> {
    match ipc.decode(bytes)
    case Batch(r) => Ok(Some(r.columns))
    case NoBatch => Ok(None)
    case Malformed => Err(Unreadable)
  }

  /** `restore_secret_options`. */
  function RestoreOptions(catalogs: seq<CatalogModel>, x: Codec, store: Store, a: Attachment)
    : Result<Option<seq<Column>>, ReadError>
  {
    var model := FindCatalog(catalogs, a.catalog);
    if model.None? || a.id == [] || !Wants(model.value, a.options) || a.id !in store then Ok(a.options)
    else
      var secrets :- ReadColumns(x.ipc, store[a.id]);
      Ok(Some(Gather(model.value.options, OrNone(a.options), OrNone(secrets))))
  }

  function OrNone(columns: Option<seq<Column>>): seq<Column> { if columns.Some? then columns.value else [] }

  function DecodeOptions(x: Codec, text: Bytes): Result<Option<seq<Column>>, ReadError> {
    if text == [] then Ok(None) else ReadColumns(x.ipc, x.decode64(text))
  }

  /** `attachment_of`, on a value. */
  function Read(catalogs: seq<CatalogModel>, x: Codec, sealed: bool, store: Store, value: Bytes)
    : Result<Attachment, ReadError>
    requires catalogs != []
  {
    if value == [] then Ok(Default(catalogs)) else
    var fields := Split(value);
    if |fields| != 5 || FindCatalog(catalogs, fields[0]).None? then
      if sealed then Err(Rejected) else Ok(Default(catalogs))
    else
      var carried :- DecodeOptions(x, fields[4]);
      var a := Attachment(fields[0], fields[1], fields[2], fields[3], carried);
      var options :- RestoreOptions(catalogs, x, store, a);
      Ok(a.(options := options))
  }

  // ---- The pieces of the round trip ----

  lemma JoinSplit(a: Attachment, options: Bytes)
    requires NulFree(a.catalog) && NulFree(a.dataVersion) && NulFree(a.alias) && NulFree(a.id) && NulFree(options)
    ensures Split(Join(a, options)) == [a.catalog, a.dataVersion, a.alias, a.id, options]
  {
    Split3(a.alias, a.id, options);
    Split5(a.catalog, a.dataVersion, a.alias + [0] + (a.id + [0] + options), [a.alias, a.id, options]);
  }

  lemma Split3(c: Bytes, d: Bytes, e: Bytes)
    requires NulFree(c) && NulFree(d) && NulFree(e)
    ensures Split(c + [0] + (d + [0] + e)) == [c, d, e]
  {
    SplitOne(e);
    SplitCons(d, e);
    SplitCons(c, d + [0] + e);
  }

  lemma Split5(a: Bytes, b: Bytes, rest: Bytes, fields: seq<Bytes>)
    requires NulFree(a) && NulFree(b) && Split(rest) == fields
    ensures Split(a + [0] + (b + [0] + rest)) == [a, b] + fields
  {
    SplitCons(b, rest);
    SplitCons(a, b + [0] + rest);
  }

  lemma JoinCount(a: Attachment, options: Bytes)
    requires NulFree(options)
    ensures |Split(Join(a, options))| == 5
      <==> NulFree(a.catalog) && NulFree(a.dataVersion) && NulFree(a.alias) && NulFree(a.id)
  {
    SplitCount(a.id, options);
    SplitCount(a.alias, a.id + [0] + options);
    SplitCount(a.dataVersion, a.alias + [0] + (a.id + [0] + options));
    SplitCount(a.catalog, a.dataVersion + [0] + (a.alias + [0] + (a.id + [0] + options)));
    SplitCountOne(a.catalog);
    SplitCountOne(a.dataVersion);
    SplitCountOne(a.alias);
    SplitCountOne(a.id);
    SplitCountOne(options);
  }

  lemma OptionsRoundTrip(x: Codec, options: Option<seq<Column>>)
    requires LawfulCodec(x)
    ensures NulFree(OptionsText(x, options)) && DecodeOptions(x, OptionsText(x, options)) == Ok(options)
  {
    if options.Some? {
      var r := Record(options.value, 1);
      assert x.ipc.decode(x.ipc.encode(r)) == Batch(r);
      assert x.decode64(x.encode64(x.ipc.encode(r))) == x.ipc.encode(r);
      assert x.decode64(x.encode64([])) == [];
    }
  }

  lemma {:induction false} HasKeep(model: Option<CatalogModel>, columns: seq<Column>, secret: bool, name: Bytes)
    ensures Has(Keep(model, columns, secret), name) <==> IsSecret(model, name) == secret && Has(columns, name)
  {
    if columns != [] {
      var tail, kept := columns[1..], Keep(model, columns[1..], secret);
      HasKeep(model, tail, secret, name);
      var here := if IsSecret(model, columns[0].name) == secret then [columns[0]] else [];
      HasConcat(here, kept, name);
      HasConcat([columns[0]], tail, name);
      assert [columns[0]] + tail == columns;
    }
  }

  lemma HasConcat(a: seq<Column>, b: seq<Column>, name: Bytes)
    ensures Has(a + b, name) <==> Has(a, name) || Has(b, name)
  {
    var s := a + b;
    if Has(a, name) {
      var i :| 0 <= i < |a| && a[i].name == name;
      assert s[i].name == name;
    }
    if Has(b, name) {
      var i :| 0 <= i < |b| && b[i].name == name;
      assert s[|a| + i].name == name;
    }
  }

  /** A lookup in one half of the split is the lookup in the whole. */
  lemma {:induction false} FindKeep(model: Option<CatalogModel>, columns: seq<Column>, secret: bool, name: Bytes)
    ensures Find(Keep(model, columns, secret), name)
      == if IsSecret(model, name) == secret then Find(columns, name) else None
  {
    if columns == [] {
    } else if IsSecret(model, columns[0].name) == secret {
      FindKeep(model, columns[1..], secret, name);
      HasKeep(model, columns[1..], secret, name);
      assert Keep(model, columns, secret)[1..] == Keep(model, columns[1..], secret);
    } else {
      FindKeep(model, columns[1..], secret, name);
      assert Keep(model, columns, secret) == Keep(model, columns[1..], secret);
    }
  }

  /** The declared options a record holds under a name of its own. */
  function Select(specs: seq<OptionSpec>, columns: seq<Column>): seq<Column> {
    if specs == [] then []
    else (match Find(columns, specs[0].name) case Some(c) => [c] case None => []) + Select(specs[1..], columns)
  }

  lemma {:induction false} GatherOfSplit(model: Option<CatalogModel>, specs: seq<OptionSpec>, columns: seq<Column>)
    ensures Gather(specs, Keep(model, columns, false), Keep(model, columns, true)) == Select(specs, columns)
  {
    if specs != [] {
      FindKeep(model, columns, false, specs[0].name);
      FindKeep(model, columns, true, specs[0].name);
      GatherOfSplit(model, specs[1..], columns);
    }
  }

  /** The merged options of an attachment: one column per declared option, in
      declared order. */
  predicate Aligned(specs: seq<OptionSpec>, columns: seq<Column>) {
    |columns| == |specs| && forall i :: 0 <= i < |specs| ==> columns[i].name == specs[i].name
  }

  ghost predicate DistinctNames(columns: seq<Column>) {
    forall i, j :: 0 <= i < j < |columns| ==> columns[i].name != columns[j].name
  }

  lemma {:induction false} SelectAll(specs: seq<OptionSpec>, columns: seq<Column>, from: nat)
    requires Aligned(specs, columns) && DistinctNames(columns) && from <= |specs|
    ensures Select(specs[from..], columns) == columns[from..]
    decreases |specs| - from
  {
    if from < |specs| {
      FindOnly(columns, from);
      SelectAll(specs, columns, from + 1);
      assert specs[from..][1..] == specs[from + 1..];
      assert columns[from..] == [columns[from]] + columns[from + 1..];
    }
  }

  lemma {:induction false} SelectShort(specs: seq<OptionSpec>, columns: seq<Column>)
    ensures |Select(specs, columns)| <= |specs|
    ensures (exists i :: 0 <= i < |specs| && Find(columns, specs[i].name).None?) ==>
      |Select(specs, columns)| < |specs|
  {
    if specs != [] {
      SelectShort(specs[1..], columns);
      if exists i :: 0 <= i < |specs| && Find(columns, specs[i].name).None? {
        var i :| 0 <= i < |specs| && Find(columns, specs[i].name).None?;
        if i > 0 { assert specs[1..][i - 1] == specs[i]; }
      }
    }
  }

  /** Gathering puts the whole record back exactly when no name repeats. */
  lemma SelectExact(specs: seq<OptionSpec>, columns: seq<Column>)
    requires Aligned(specs, columns)
    ensures Select(specs, columns) == columns <==> DistinctNames(columns)
  {
    if DistinctNames(columns) {
      SelectAll(specs, columns, 0);
      assert specs[0..] == specs && columns[0..] == columns;
    } else {
      var i, j :| 0 <= i < j < |columns| && columns[i].name == columns[j].name;
      FindShared(columns, i, j);
      assert Find(columns, specs[i].name).None?;
      SelectShort(specs, columns);
    }
  }

  lemma {:induction false} KeepLength(model: Option<CatalogModel>, columns: seq<Column>)
    ensures |Keep(model, columns, false)| + |Keep(model, columns, true)| == |columns|
    ensures Keep(model, columns, true) == [] ==> Keep(model, columns, false) == columns
  {
    if columns != [] {
      KeepLength(model, columns[1..]);
      assert [columns[0]] + columns[1..] == columns;
    }
  }

  /** Whether a merged record has secret columns. */
  predicate HasSecrets(model: CatalogModel) {
    exists i :: 0 <= i < |model.options| && model.options[i].secret
  }

  lemma SecretColumns(model: CatalogModel, columns: seq<Column>)
    requires Aligned(model.options, columns)
    ensures Keep(Some(model), columns, true) != [] <==> HasSecrets(model)
    ensures HasSecrets(model) <==> Wants(model, Some(Keep(Some(model), columns, false)))
  {
    var secrets, plain := Keep(Some(model), columns, true), Keep(Some(model), columns, false);
    if HasSecrets(model) {
      var i :| 0 <= i < |model.options| && model.options[i].secret;
      var name := columns[i].name;
      assert IsSecret(Some(model), name) && Has(columns, name);
      HasKeep(Some(model), columns, true, name);
      FindKeep(Some(model), columns, false, name);
    }
    if secrets != [] {
      var name := secrets[0].name;
      assert Has(secrets, name);
      HasKeep(Some(model), columns, true, name);
    }
  }

  // ---- The round trip, exactly ----

  /** The attachment ATTACH makes of a served catalog: its options merged. */
  ghost predicate Merged(catalogs: seq<CatalogModel>, a: Attachment) {
    match FindCatalog(catalogs, a.catalog)
    case None => false
    case Some(model) =>
      if model.options == [] then a.options == None
      else a.options.Some? && Aligned(model.options, a.options.value)
  }

  predicate NulFreeFields(a: Attachment) {
    NulFree(a.catalog) && NulFree(a.dataVersion) && NulFree(a.alias) && NulFree(a.id)
  }

  /** Where secret options leave the value, they come back only under an id
      and under names of their own. */
  ghost predicate Restorable(model: CatalogModel, sealed: bool, a: Attachment) {
    sealed || !HasSecrets(model) || (a.id != [] && a.options.Some? && DistinctNames(a.options.value))
  }

  lemma OptionsRestored(catalogs: seq<CatalogModel>, x: Codec, sealed: bool, a: Attachment, store: Store)
    requires LawfulCodec(x) && Merged(catalogs, a) && a.id !in store
    ensures var model := FindCatalog(catalogs, a.catalog);
      var carried := a.(options := Carried(model, sealed, a.options));
      (RestoreOptions(catalogs, x, SealedStore(catalogs, x, sealed, a, store), carried) == Ok(a.options))
      <==> Restorable(model.value, sealed, a)
  {
    var model := FindCatalog(catalogs, a.catalog).value;
    if a.options.Some? && !sealed {
      var columns := a.options.value;
      var plain, secrets := Keep(Some(model), columns, false), Keep(Some(model), columns, true);
      SecretColumns(model, columns);
      KeepLength(Some(model), columns);
      if secrets != [] && a.id != [] {
        var r := Record(secrets, 1);
        assert x.ipc.decode(x.ipc.encode(r)) == Batch(r);
        GatherOfSplit(Some(model), model.options, columns);
        SelectExact(model.options, columns);
      }
    }
  }

  /** Reading a sealed value back gives the attachment exactly when its four
      plain fields are NUL-free and its options are restorable; a field with a
      NUL in it is refused on a sealing transport, and otherwise read as the
      primary catalog's default attachment. */
  lemma RoundTripExact(catalogs: seq<CatalogModel>, x: Codec, sealed: bool, a: Attachment, store: Store)
    requires catalogs != [] && LawfulCodec(x) && Merged(catalogs, a) && a.id !in store
    ensures var after := SealedStore(catalogs, x, sealed, a, store);
      var read := Read(catalogs, x, sealed, after, SealedValue(catalogs, x, sealed, a));
      && (NulFreeFields(a) ==>
            (read == Ok(a) <==> Restorable(FindCatalog(catalogs, a.catalog).value, sealed, a)))
      && (!NulFreeFields(a) ==>
            read == if sealed then Err(Rejected) else Ok(Attachment(catalogs[0].name, [], [], [], None)))
  {
    var model := FindCatalog(catalogs, a.catalog);
    var carried := Carried(model, sealed, a.options);
    var text := OptionsText(x, carried);
    OptionsRoundTrip(x, carried);
    JoinCount(a, text);
    assert Join(a, text)[|a.catalog|] == 0;
    if NulFreeFields(a) {
      JoinSplit(a, text);
      OptionsRestored(catalogs, x, sealed, a, store);
    }
  }

  /** Reading depends on the store only at the attachment's own id. */
  lemma ReadFrame(catalogs: seq<CatalogModel>, x: Codec, sealed: bool, s: Store, t: Store, a: Attachment,
                  options: Bytes)
    requires catalogs != [] && NulFreeFields(a) && NulFree(options)
    requires a.id in s <==> a.id in t
    requires a.id in s ==> s[a.id] == t[a.id]
    ensures Read(catalogs, x, sealed, s, Join(a, options)) == Read(catalogs, x, sealed, t, Join(a, options))
  {
    JoinSplit(a, options);
  }

  /** Sealing another attachment changes nothing about reading this one. */
  lemma OtherSealKeeps(catalogs: seq<CatalogModel>, x: Codec, sealed: bool, b: Attachment, store: Store, a: Attachment)
    requires catalogs != [] && LawfulCodec(x) && NulFreeFields(a) && b.id != a.id
    ensures Read(catalogs, x, sealed, SealedStore(catalogs, x, sealed, b, store), SealedValue(catalogs, x, sealed, a))
         == Read(catalogs, x, sealed, store, SealedValue(catalogs, x, sealed, a))
  {
    var carried := Carried(FindCatalog(catalogs, a.catalog), sealed, a.options);
    OptionsRoundTrip(x, carried);
    ReadFrame(catalogs, x, sealed, SealedStore(catalogs, x, sealed, b, store), store, a, OptionsText(x, carried));
  }

  /** Seal one attachment after another into the shared store. */
  function SealAll(catalogs: seq<CatalogModel>, x: Codec, sealed: bool, run: seq<Attachment>): Store {
    if run == [] then map[]
    else SealedStore(catalogs, x, sealed, run[|run| - 1], SealAll(catalogs, x, sealed, run[..|run| - 1]))
  }

  lemma {:induction false} SealAllKeys(catalogs: seq<CatalogModel>, x: Codec, sealed: bool, run: seq<Attachment>,
                                       id: Bytes)
    requires forall i :: 0 <= i < |run| ==> run[i].id != id
    ensures id !in SealAll(catalogs, x, sealed, run)
  {
    if run != [] { SealAllKeys(catalogs, x, sealed, run[..|run| - 1], id); }
  }

  /** Over any run of attaches with ids of their own, every attachment made so
      far still reads back as it was made. */
  lemma {:induction false} EveryAttachmentReadsBack(catalogs: seq<CatalogModel>, x: Codec, sealed: bool,
                                                    run: seq<Attachment>, k: nat)
    requires catalogs != [] && LawfulCodec(x) && k < |run|
    requires forall i, j :: 0 <= i < j < |run| ==> run[i].id != run[j].id
    requires Merged(catalogs, run[k]) && NulFreeFields(run[k])
    requires Restorable(FindCatalog(catalogs, run[k].catalog).value, sealed, run[k])
    ensures Read(catalogs, x, sealed, SealAll(catalogs, x, sealed, run), SealedValue(catalogs, x, sealed, run[k]))
      == Ok(run[k])
  {
    var init := run[..|run| - 1];
    var before := SealAll(catalogs, x, sealed, init);
    if k == |run| - 1 {
      SealAllKeys(catalogs, x, sealed, init, run[k].id);
      RoundTripExact(catalogs, x, sealed, run[k], before);
    } else {
      assert init[k] == run[k];
      EveryAttachmentReadsBack(catalogs, x, sealed, init, k);
      OtherSealKeeps(catalogs, x, sealed, run[|run| - 1], before, run[k]);
    }
  }

  /** What a restored record holds: for each declared option its value, from the
      attach value if it is there, from the store otherwise, and nothing else. */
  lemma {:induction false} GatherExact(specs: seq<OptionSpec>, plain: seq<Column>, secrets: seq<Column>, c: Column)
    ensures c in Gather(specs, plain, secrets) <==> exists spec ::
      && spec in specs
      && (Find(plain, spec.name) == Some(c) || (Find(plain, spec.name).None? && Find(secrets, spec.name) == Some(c)))
  {
    if specs != [] {
      GatherExact(specs[1..], plain, secrets, c);
      assert specs == [specs[0]] + specs[1..];
    }
  }

  // ---- Secrets stay home ----

  /** The catalog declares a secret option of this name. */
  predicate DeclaredSecret(model: Option<CatalogModel>, name: Bytes) {
    model.Some? && exists spec :: spec in model.value.options && spec.secret && spec.name == name
  }

  lemma SecretIs(model: Option<CatalogModel>, name: Bytes)
    ensures IsSecret(model, name) <==> DeclaredSecret(model, name)
  {
    if DeclaredSecret(model, name) {
      var spec :| spec in model.value.options && spec.secret && spec.name == name;
      var i :| 0 <= i < |model.value.options| && model.value.options[i] == spec;
    }
  }

  lemma {:induction false} KeepExact(model: Option<CatalogModel>, columns: seq<Column>, secret: bool)
    ensures forall c :: c in Keep(model, columns, secret) <==> c in columns && DeclaredSecret(model, c.name) == secret
  {
    if columns != [] {
      SecretIs(model, columns[0].name);
      KeepExact(model, columns[1..], secret);
      assert columns == [columns[0]] + columns[1..];
    }
  }

  /** What leaves the worker and what stays, on a transport that does not seal:
      the value's fifth field reads as the options the catalog does not declare
      secret, and the store has the others under the attachment's id, or is
      unchanged where there are none. */
  lemma UnsealedParts(catalogs: seq<CatalogModel>, x: Codec, a: Attachment, store: Store)
      returns (plain: seq<Column>, secrets: seq<Column>)
    requires LawfulCodec(x) && NulFreeFields(a) && a.options.Some?
    ensures var model := FindCatalog(catalogs, a.catalog);
      && (forall c :: c in plain <==> c in a.options.value && !DeclaredSecret(model, c.name))
      && (forall c :: c in secrets <==> c in a.options.value && DeclaredSecret(model, c.name))
    ensures var fields := Split(SealedValue(catalogs, x, false, a));
      && |fields| == 5 && fields[..4] == [a.catalog, a.dataVersion, a.alias, a.id]
      && DecodeOptions(x, fields[4]) == Ok(Some(plain))
    ensures SealedStore(catalogs, x, false, a, store) ==
      if secrets == [] then store else store[a.id := x.ipc.encode(Record(secrets, 1))]
  {
    var model := FindCatalog(catalogs, a.catalog);
    plain, secrets := Keep(model, a.options.value, false), Keep(model, a.options.value, true);
    KeepExact(model, a.options.value, false);
    KeepExact(model, a.options.value, true);
    OptionsRoundTrip(x, Some(plain));
    JoinSplit(a, OptionsText(x, Some(plain)));
  }

  /** On a sealing transport all options ride in the value, and nothing is
      stored. */
  lemma SealedParts(catalogs: seq<CatalogModel>, x: Codec, a: Attachment, store: Store)
    requires LawfulCodec(x) && NulFreeFields(a)
    ensures var fields := Split(SealedValue(catalogs, x, true, a));
      && |fields| == 5 && fields[..4] == [a.catalog, a.dataVersion, a.alias, a.id]
      && DecodeOptions(x, fields[4]) == Ok(a.options)
    ensures SealedStore(catalogs, x, true, a, store) == store
  {
    OptionsRoundTrip(x, a.options);
    JoinSplit(a, OptionsText(x, a.options));
  }

  /** No value is the primary catalog with nothing else; so is, unless the
      transport seals, a value that is not of five fields or names no catalog
      of this worker. */
  lemma ForeignValue(catalogs: seq<CatalogModel>, x: Codec, sealed: bool, store: Store, value: Bytes)
    requires catalogs != []
    ensures value == [] ==>
      Read(catalogs, x, sealed, store, value) == Ok(Attachment(catalogs[0].name, [], [], [], None))
    ensures value != [] && (|Split(value)| == 5 ==> forall m :: m in catalogs ==> m.name != Split(value)[0]) ==>
      Read(catalogs, x, sealed, store, value) ==
        if sealed then Err(Rejected) else Ok(Attachment(catalogs[0].name, [], [], [], None))
  {
    if value != [] && |Split(value)| == 5 && forall m :: m in catalogs ==> m.name != Split(value)[0] {
      FindCatalogIs(catalogs, Split(value)[0], |catalogs|);
    }
  }

  /** The same attachment up to the values of secret options. */
  ghost predicate SameButSecrets(model: Option<CatalogModel>, a: seq<Column>, b: seq<Column>) {
    |a| == |b| && forall i :: 0 <= i < |a| ==>
      a[i].name == b[i].name && (a[i].cell == b[i].cell || DeclaredSecret(model, a[i].name))
  }

  lemma {:induction false} PlainIgnoresSecrets(model: Option<CatalogModel>, a: seq<Column>, b: seq<Column>)
    requires SameButSecrets(model, a, b)
    ensures Keep(model, a, false) == Keep(model, b, false)
  {
    if a != [] {
      assert a[0].name == b[0].name;
      SecretIs(model, a[0].name);
      forall i | 0 <= i < |a[1..]|
        ensures a[1..][i].name == b[1..][i].name
          && (a[1..][i].cell == b[1..][i].cell || DeclaredSecret(model, a[1..][i].name))
      {
        assert a[1..][i] == a[i + 1] && b[1..][i] == b[i + 1];
      }
      PlainIgnoresSecrets(model, a[1..], b[1..]);
    }
  }

  /** On a transport that does not seal it, the value says nothing about the
      secret options: two attachments that differ only there have one value. */
  lemma UnsealedValueHidesSecrets(catalogs: seq<CatalogModel>, x: Codec, a: Attachment, b: Attachment)
    requires a.options.Some? && b == a.(options := b.options) && b.options.Some?
    requires SameButSecrets(FindCatalog(catalogs, a.catalog), a.options.value, b.options.value)
    ensures SealedValue(catalogs, x, false, a) == SealedValue(catalogs, x, false, b)
  {
    PlainIgnoresSecrets(FindCatalog(catalogs, a.catalog), a.options.value, b.options.value);
  }

  /** What `merge_attach_options` answers is aligned with the declaration, so
      the attachments ATTACH makes are merged ones. */
  lemma {:induction false} MergeIsAligned(w: Worker, specs: seq<OptionSpec>, supplied: Option<Record>)
    requires MergeAll(w, specs, supplied).Ok?
    ensures Aligned(specs, MergeAll(w, specs, supplied).value)
  {
    if specs != [] { MergeIsAligned(w, specs[1..], supplied); }
  }

  // ---- The dispatcher's own form ----

  class Dispatcher {
    const catalogs: seq<CatalogModel>
    const codec: Codec
    const sealing: bool
    var secrets: Store

    constructor (catalogs: seq<CatalogModel>, codec: Codec, sealing: bool)
      requires catalogs != []
      ensures this.catalogs == catalogs && this.codec == codec && this.sealing == sealing && secrets == map[]
    {
      this.catalogs, this.codec, this.sealing := catalogs, codec, sealing;
      secrets := map[];
    }

    method SealAttachment(a: Attachment) returns (value: Bytes)
      modifies this`secrets
      ensures value == SealedValue(catalogs, codec, sealing, a)
      ensures secrets == SealedStore(catalogs, codec, sealing, a, old(secrets))
    {
      var carried := a.options;
      if carried.Some? && !sealing {
        var model := FindCatalog(catalogs, a.catalog);
        var secret, plain := SplitColumns(model, carried.value);
        KeepLength(model, carried.value);
        if secret != [] {
          secrets := secrets[a.id := codec.ipc.encode(Record(secret, 1))];
          carried := Some(plain);
        }
      }
      var text := OptionsText(codec, carried);
      value := Join(a, text);
    }

    method AttachmentOf(value: Bytes) returns (r: Result<Attachment, ReadError>)
      requires catalogs != []
      ensures r == Read(catalogs, codec, sealing, secrets, value)
    {
      if value == [] { return Ok(Default(catalogs)); }
      var fields := SplitFields(value);
      if |fields| != 5 || FindCatalog(catalogs, fields[0]).None? {
        return if sealing then Err(Rejected) else Ok(Default(catalogs));
      }
      var carried :- DecodeOptions(codec, fields[4]);
      var a := Attachment(fields[0], fields[1], fields[2], fields[3], carried);
      var options :- RestoreSecretOptions(a);
      return Ok(a.(options := options));
    }

    method RestoreSecretOptions(a: Attachment) returns (r: Result<Option<seq<Column>>, ReadError>)
      ensures r == RestoreOptions(catalogs, codec, secrets, a)
    {
      var model := FindCatalog(catalogs, a.catalog);
      if model.None? || a.id == [] { return Ok(a.options); }
      if !Wants(model.value, a.options) || a.id !in secrets { return Ok(a.options); }
      var stored :- ReadColumns(codec.ipc, secrets[a.id]);
      var columns := GatherColumns(model.value.options, OrNone(a.options), OrNone(stored));
      return Ok(Some(columns));
    }
  }

  lemma KeepStep(model: Option<CatalogModel>, columns: seq<Column>, i: nat, secret: bool, done: seq<Column>)
    requires i < |columns|
    ensures done + Keep(model, columns[i..], secret) ==
      (if IsSecret(model, columns[i].name) == secret then done + [columns[i]] else done)
      + Keep(model, columns[i + 1..], secret)
  {
    assert columns[i..][1..] == columns[i + 1..];
  }

  method SplitColumns(model: Option<CatalogModel>, columns: seq<Column>)
      returns (secret: seq<Column>, plain: seq<Column>)
    ensures secret == Keep(model, columns, true) && plain == Keep(model, columns, false)
  {
    secret, plain := [], [];
    for i := 0 to |columns|
      invariant secret + Keep(model, columns[i..], true) == Keep(model, columns, true)
      invariant plain + Keep(model, columns[i..], false) == Keep(model, columns, false)
    {
      KeepStep(model, columns, i, true, secret);
      KeepStep(model, columns, i, false, plain);
      if IsSecret(model, columns[i].name) {
        secret := secret + [columns[i]];
      } else {
        plain := plain + [columns[i]];
      }
    }
    assert columns[|columns|..] == [];
  }

  lemma GatherStep(specs: seq<OptionSpec>, i: nat, plain: seq<Column>, secrets: seq<Column>, done: seq<Column>)
    requires i < |specs|
    ensures var found := if Find(plain, specs[i].name).Some? then Find(plain, specs[i].name)
                         else Find(secrets, specs[i].name);
      done + Gather(specs[i..], plain, secrets) ==
      (if found.Some? then done + [found.value] else done) + Gather(specs[i + 1..], plain, secrets)
  {
    assert specs[i..][1..] == specs[i + 1..];
  }

  method GatherColumns(specs: seq<OptionSpec>, plain: seq<Column>, secrets: seq<Column>) returns (columns: seq<Column>)
    ensures columns == Gather(specs, plain, secrets)
  {
    columns := [];
    for i := 0 to |specs|
      invariant columns + Gather(specs[i..], plain, secrets) == Gather(specs, plain, secrets)
    {
      GatherStep(specs, i, plain, secrets, columns);
      var column := Find(plain, specs[i].name);
      if column.None? { column := Find(secrets, specs[i].name); }
      if column.Some? { columns := columns + [column.value]; }
    }
    assert specs[|specs|..] == [];
  }
}
