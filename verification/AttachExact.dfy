/** What issuing, redeeming and ATTACH decide, said of their inputs alone
    (src/attach_ticket_service.cpp, src/attach_ticket.cpp, src/catalog.cpp). */
module AttachExact {
  import opened Basics
  import opened TicketPayload
  import opened Ticket
  import opened Wire
  import opened Catalogs
  import opened TicketRedemption

  // ---- Options, merged ----

  /** Column `k` is the first supplied one of an option's name, in whatever
      letter case. */
  predicate FirstMatch(columns: seq<Column>, name: Bytes, k: nat) {
    && k < |columns| && SameLetters(columns[k].name, name)
    && forall j :: 0 <= j < k ==> !SameLetters(columns[j].name, name)
  }

  predicate NoMatch(columns: seq<Column>, name: Bytes) {
    forall j :: 0 <= j < |columns| ==> !SameLetters(columns[j].name, name)
  }

  lemma SameIsSame(a: Bytes, b: Bytes)
    ensures SameIgnoringCase(a, b) <==> SameLetters(a, b)
  {
    SameLower(a, b);
    LowerExact(a, b);
  }

  lemma {:induction false} SuppliedIs(columns: seq<Column>, name: Bytes)
    ensures Supplied(columns, name).None? <==> NoMatch(columns, name)
    ensures forall k: nat :: FirstMatch(columns, name, k) ==> Supplied(columns, name) == Some(columns[k].cell)
  {
    if columns != [] {
      var tail := columns[1..];
      SuppliedIs(tail, name);
      SameIsSame(columns[0].name, name);
      assert NoMatch(columns, name) <==> !SameLetters(columns[0].name, name) && NoMatch(tail, name) by {
        assert forall j :: 0 < j < |columns| ==> columns[j] == tail[j - 1];
        assert forall j :: 0 <= j < |tail| ==> tail[j] == columns[j + 1];
      }
      forall k: nat | FirstMatch(columns, name, k) ensures Supplied(columns, name) == Some(columns[k].cell) {
        if k > 0 {
          assert tail[k - 1] == columns[k];
          forall j | 0 <= j < k - 1 ensures !SameLetters(tail[j].name, name) { assert tail[j] == columns[j + 1]; }
          assert FirstMatch(tail, name, k - 1);
        }
      }
    }
  }

  lemma {:induction false} SomeFirst(columns: seq<Column>, name: Bytes)
    ensures NoMatch(columns, name) || exists k: nat :: FirstMatch(columns, name, k)
  {
    if columns != [] {
      var n := |columns| - 1;
      var init := columns[..n];
      SomeFirst(init, name);
      if k: nat :| FirstMatch(init, name, k) {
        assert FirstMatch(columns, name, k);
      } else if SameLetters(columns[n].name, name) {
        assert forall j :: 0 <= j < n ==> columns[j] == init[j];
        assert FirstMatch(columns, name, n);
      }
    }
  }

  function ColumnsOf(supplied: Option<Record>): seq<Column> { if supplied.Some? then supplied.value.columns else [] }

  /** What a merged option holds: the first supplied column of its name, cast;
      else its default; else null, and then it is not required. */
  ghost predicate Merges(w: Worker, spec: OptionSpec, supplied: Option<Record>, cell: Cell) {
    var columns := ColumnsOf(supplied);
    && (forall k: nat :: FirstMatch(columns, spec.name, k) ==>
          supplied.value.rows == 1 && w.cast(columns[k].cell, spec.ty) == Some(cell))
    && (NoMatch(columns, spec.name) ==>
          if spec.default.Some? then cell == spec.default.value else cell == Null && !spec.required)
  }

  /** No value at all will do for an option. */
  ghost predicate Fails(w: Worker, spec: OptionSpec, supplied: Option<Record>) {
    forall cell :: !Merges(w, spec, supplied, cell)
  }

  lemma MergeOneIs(w: Worker, spec: OptionSpec, supplied: Option<Record>)
    ensures var r := MergeOne(w, spec, supplied);
      && (r.Ok? ==> r.value.name == spec.name && Merges(w, spec, supplied, r.value.cell))
      && (r.Err? <==> Fails(w, spec, supplied))
  {
    var columns := ColumnsOf(supplied);
    SuppliedIs(columns, spec.name);
    SomeFirst(columns, spec.name);
    if k: nat :| FirstMatch(columns, spec.name, k) {
      MatchedIs(w, spec, supplied, k);
    } else {
      UnmatchedIs(w, spec, supplied);
    }
  }

  lemma MatchedIs(w: Worker, spec: OptionSpec, supplied: Option<Record>, k: nat)
    requires FirstMatch(ColumnsOf(supplied), spec.name, k)
    ensures MergeOne(w, spec, supplied).Err? <==> Fails(w, spec, supplied)
    ensures MergeOne(w, spec, supplied).Ok? ==> Merges(w, spec, supplied, MergeOne(w, spec, supplied).value.cell)
  {
    var columns := ColumnsOf(supplied);
    SuppliedIs(columns, spec.name);
    forall j: nat | FirstMatch(columns, spec.name, j) ensures j == k { assert !(j < k) && !(k < j); }
    assert !NoMatch(columns, spec.name);
    assert Supplied(columns, spec.name) == Some(columns[k].cell);
    var r := MergeOne(w, spec, supplied);
    if r.Ok? {
      assert Merges(w, spec, supplied, r.value.cell);
    } else {
      forall cell ensures !Merges(w, spec, supplied, cell) { assert FirstMatch(columns, spec.name, k); }
    }
  }

  lemma UnmatchedIs(w: Worker, spec: OptionSpec, supplied: Option<Record>)
    requires NoMatch(ColumnsOf(supplied), spec.name)
    ensures MergeOne(w, spec, supplied).Err? <==> Fails(w, spec, supplied)
    ensures MergeOne(w, spec, supplied).Ok? ==> Merges(w, spec, supplied, MergeOne(w, spec, supplied).value.cell)
  {
    var columns := ColumnsOf(supplied);
    SuppliedIs(columns, spec.name);
    assert forall j: nat :: !FirstMatch(columns, spec.name, j);
    var r := MergeOne(w, spec, supplied);
    if r.Ok? { assert Merges(w, spec, supplied, r.value.cell); }
  }

  /** The merged options: one for each declared, in that order. */
  ghost predicate MergesAll(w: Worker, specs: seq<OptionSpec>, supplied: Option<Record>, merged: seq<Column>) {
    && |merged| == |specs|
    && forall i :: 0 <= i < |specs| ==> MergesAt(w, specs[i], supplied, merged[i])
  }

  ghost predicate MergesAt(w: Worker, spec: OptionSpec, supplied: Option<Record>, column: Column) {
    column.name == spec.name && Merges(w, spec, supplied, column.cell)
  }

  lemma {:induction false} MergeGives(w: Worker, specs: seq<OptionSpec>, supplied: Option<Record>)
    requires MergeAll(w, specs, supplied).Ok?
    ensures MergesAll(w, specs, supplied, MergeAll(w, specs, supplied).value)
  {
    if specs != [] {
      MergeOneIs(w, specs[0], supplied);
      MergeGives(w, specs[1..], supplied);
      var merged, rest := MergeAll(w, specs, supplied).value, MergeAll(w, specs[1..], supplied).value;
      assert MergesAt(w, specs[0], supplied, merged[0]);
      forall i | 0 < i < |specs| ensures MergesAt(w, specs[i], supplied, merged[i]) {
        assert specs[1..][i - 1] == specs[i] && rest[i - 1] == merged[i];
      }
    }
  }

  lemma {:induction false} MergeFails(w: Worker, specs: seq<OptionSpec>, supplied: Option<Record>)
    ensures MergeAll(w, specs, supplied).Err? <==> exists i :: 0 <= i < |specs| && Fails(w, specs[i], supplied)
  {
    if specs != [] {
      var tail := specs[1..];
      MergeOneIs(w, specs[0], supplied);
      MergeFails(w, tail, supplied);
      assert forall i :: 0 < i < |specs| ==> specs[i] == tail[i - 1];
      assert forall i :: 0 <= i < |tail| ==> tail[i] == specs[i + 1];
    }
  }

  /** The merged options of a request, one by one and in declared order; the
      merge fails exactly when some option can hold nothing. */
  lemma MergeExact(w: Worker, specs: seq<OptionSpec>, supplied: Option<Record>)
    ensures var r := MergeAll(w, specs, supplied);
      && (r.Ok? ==> MergesAll(w, specs, supplied, r.value))
      && (r.Err? <==> exists i :: 0 <= i < |specs| && Fails(w, specs[i], supplied))
  {
    MergeFails(w, specs, supplied);
    if MergeAll(w, specs, supplied).Ok? { MergeGives(w, specs, supplied); }
  }

  // ---- Fields of a request ----

  /** Column `i` alone has the name. */
  predicate OnlyColumn(request: seq<Column>, name: Bytes, i: nat) {
    && i < |request| && request[i].name == name
    && forall j :: 0 <= j < |request| && j != i ==> request[j].name != name
  }

  lemma {:induction false} FindsOnly(request: seq<Column>, name: Bytes)
    ensures Find(request, name).Some? ==>
      exists i: nat :: OnlyColumn(request, name, i) && Find(request, name) == Some(request[i])
  {
    if request != [] && Find(request, name).Some? {
      var tail := request[1..];
      assert forall j :: 0 < j < |request| ==> request[j] == tail[j - 1];
      if request[0].name == name {
        assert OnlyColumn(request, name, 0);
      } else {
        FindsOnly(tail, name);
        var i: nat :| OnlyColumn(tail, name, i) && Find(tail, name) == Some(tail[i]);
        assert OnlyColumn(request, name, i + 1);
      }
    }
  }

  /** An optional field is read from the one column of its name: a value of its
      own type, nothing where it is null or where no one column has the name,
      and no other type. */
  lemma FieldReads(request: seq<Column>, name: Bytes)
    ensures forall i: nat :: OnlyColumn(request, name, i) ==>
      && (forall t :: OptionalText(request, name) == Ok(Some(t)) <==> request[i].cell == Text(t))
      && (forall b :: OptionalBinary(request, name) == Ok(Some(b)) <==> request[i].cell == Binary(b))
      && (OptionalText(request, name) == Ok(None) <==> request[i].cell.Null?)
      && (OptionalBinary(request, name) == Ok(None) <==> request[i].cell.Null?)
    ensures (forall i: nat :: !OnlyColumn(request, name, i)) ==>
      OptionalText(request, name) == Ok(None) && OptionalBinary(request, name) == Ok(None)
  {
    FindsOnly(request, name);
    forall i: nat | OnlyColumn(request, name, i) ensures Find(request, name) == Some(request[i]) {
      FindOnly(request, i);
    }
  }

  // ---- What ATTACH selects ----

  /** The catalog a name attaches: the first of that name, or else the primary. */
  ghost predicate Chosen(catalogs: seq<CatalogModel>, name: Bytes, model: CatalogModel)
    requires catalogs != []
  {
    || (exists i: nat :: FirstAt(catalogs, name, i) && model == catalogs[i])
    || ((forall i :: 0 <= i < |catalogs| ==> catalogs[i].name != name) && model == catalogs[0])
  }

  lemma {:induction false} FindIsFirst(catalogs: seq<CatalogModel>, name: Bytes)
    ensures match FindCatalog(catalogs, name)
            case Some(m) => exists i: nat :: FirstAt(catalogs, name, i) && m == catalogs[i]
            case None => forall i :: 0 <= i < |catalogs| ==> catalogs[i].name != name
  {
    if catalogs != [] && catalogs[0].name != name {
      var tail := catalogs[1..];
      FindIsFirst(tail, name);
      assert forall i :: 0 < i < |catalogs| ==> catalogs[i] == tail[i - 1];
      if i: nat :| FirstAt(tail, name, i) && FindCatalog(tail, name) == Some(tail[i]) {
        forall j | 0 <= j < i + 1 ensures catalogs[j].name != name { if j > 0 { assert catalogs[j] == tail[j - 1]; } }
        assert FirstAt(catalogs, name, i + 1);
      }
    } else if catalogs != [] {
      assert FirstAt(catalogs, name, 0);
    }
  }

  /** What an ATTACH that succeeds selects, field by field. */
  lemma AttachIs(w: Worker, ipc: Ipc, request: seq<Column>)
    requires w.catalogs != [] && AttachOf(w, ipc, request).Ok?
    ensures match AttachOf(w, ipc, request).value
            case MemoryCatalog(name) => name in w.memory && OptionalText(request, NAME) == Ok(Some(name))
            case Declared(catalog, alias, data, implementation, options) =>
              && alias !in w.memory && OptionalText(request, NAME) == Ok(Some(alias))
              && OptionalText(request, DATA_VERSION) == Ok(data)
              && OptionalText(request, IMPLEMENTATION) == Ok(implementation)
              && exists model :: Chosen(w.catalogs, alias, model) && catalog == model.name
                   && OptionsAre(w, ipc, model, request, options)
  {
    var name := OptionalText(request, NAME).value.value;
    FindIsFirst(w.catalogs, name);
    if name !in w.memory {
      var found := FindCatalog(w.catalogs, name);
      var model := if found.Some? then found.value else w.catalogs[0];
      assert Chosen(w.catalogs, name, model);
      var encoded := OptionalBinary(request, OPTIONS).value;
      if model.options != [] {
        MergeExact(w, model.options, SuppliedRecord(ipc, encoded).value);
        assert Carries(ipc, encoded, SuppliedRecord(ipc, encoded).value);
      }
      assert OptionsAre(w, ipc, model, request, AttachOf(w, ipc, request).value.options);
    }
  }

  /** When an ATTACH fails: a field that is not of its type, options that are no
      record, or an option of the chosen catalog that can hold nothing. */
  lemma AttachFails(w: Worker, ipc: Ipc, request: seq<Column>, model: CatalogModel)
    requires w.catalogs != []
    requires var name := OptionalText(request, NAME);
      name.Ok? && name.value.Some? ==> Chosen(w.catalogs, name.value.value, model)
    ensures var name, encoded := OptionalText(request, NAME), OptionalBinary(request, OPTIONS);
      AttachOf(w, ipc, request).Err? <==>
        || !(name.Ok? && name.value.Some?)
        || (&& name.value.value !in w.memory
            && (|| OptionalText(request, DATA_VERSION).Err? || OptionalText(request, IMPLEMENTATION).Err?
                || encoded.Err?
                || (model.options != [] &&
                    forall supplied :: Carries(ipc, encoded.value, supplied) ==>
                      exists i :: 0 <= i < |model.options| && Fails(w, model.options[i], supplied))))
  {
    var name, encoded := OptionalText(request, NAME), OptionalBinary(request, OPTIONS);
    if name.Ok? && name.value.Some? {
      FindIsFirst(w.catalogs, name.value.value);
      ChosenOnce(w.catalogs, name.value.value, model);
      if encoded.Ok? {
        var record := SuppliedRecord(ipc, encoded.value);
        if record.Ok? {
          MergeFails(w, model.options, record.value);
          assert Carries(ipc, encoded.value, record.value);
        }
      }
    }
  }

  lemma ChosenOnce(catalogs: seq<CatalogModel>, name: Bytes, model: CatalogModel)
    requires catalogs != [] && Chosen(catalogs, name, model)
    ensures model == match FindCatalog(catalogs, name) case Some(m) => m case None => catalogs[0]
  {
    FindIsFirst(catalogs, name);
    forall i: nat, j: nat | FirstAt(catalogs, name, i) && FirstAt(catalogs, name, j) ensures i == j {
      assert !(i < j) && !(j < i);
    }
  }

  /** The options record a request leads to: none for a catalog that declares
      no options, and otherwise every declared one, merged with the record the
      request carries. */
  ghost predicate OptionsAre(w: Worker, ipc: Ipc, model: CatalogModel, request: seq<Column>,
                             options: Option<seq<Column>>)
  {
    var encoded := OptionalBinary(request, OPTIONS);
    if model.options == [] then options == None
    else
      && encoded.Ok? && options.Some?
      && exists supplied ::
           Carries(ipc, encoded.value, supplied) && MergesAll(w, model.options, supplied, options.value)
  }

  /** The record some bytes carry, if they carry one. */
  predicate Carries(ipc: Ipc, encoded: Option<Bytes>, supplied: Option<Record>) {
    if encoded.None? || encoded.value == [] then supplied == None
    else match ipc.decode(encoded.value)
      case Batch(r) => supplied == Some(r)
      case NoBatch => supplied == None
      case Malformed => false
  }

  // ---- Violations ----

  /** The options a catalog name stands for: those of the first served catalog
      of the name, or none at all for a memory catalog. */
  ghost predicate DeclaredAre(w: Worker, name: Bytes, specs: seq<OptionSpec>) {
    || (exists i: nat :: FirstAt(w.catalogs, name, i) && specs == w.catalogs[i].options)
    || ((forall i :: 0 <= i < |w.catalogs| ==> w.catalogs[i].name != name) && name in w.memory && specs == [])
  }

  /** The columns that are options: those of a record of one row. */
  function OptionColumns(options: Option<Record>): seq<Column> {
    if options.Some? && options.value.rows == 1 then options.value.columns else []
  }

  predicate Spells(columns: seq<Column>, name: Bytes) {
    exists i :: 0 <= i < |columns| && columns[i].name == name
  }

  predicate DeclaresName(specs: seq<OptionSpec>, name: Bytes) {
    exists i :: 0 <= i < |specs| && SameLetters(specs[i].name, name)
  }

  /** What each violation says of a request. */
  ghost predicate Violates(w: Worker, request: SealRequest, options: Option<Record>, v: Violation) {
    var columns := OptionColumns(options);
    match v
    case NegativeTtl => request.ttl < 0
    case ManyRows => options.Some? && options.value.rows > 1
    case UnknownCatalog => !exists specs :: DeclaredAre(w, request.catalogName, specs)
    case NestedTicket(name) =>
      && (exists specs :: DeclaredAre(w, request.catalogName, specs))
      && Spells(columns, name) && SameLetters(name, Ascii("vgi_attach_ticket"))
    case Undeclared(name) =>
      && Spells(columns, name) && !SameLetters(name, Ascii("vgi_attach_ticket"))
      && exists specs :: DeclaredAre(w, request.catalogName, specs) && !DeclaresName(specs, name)
    case Required(name) =>
      NoMatch(columns, name)
      && exists specs :: DeclaredAre(w, request.catalogName, specs) && RequiresName(specs, name)
    case OptionsTooBig => columns != [] && request.options.Some? && |request.options.value| > 16384
  }

  predicate RequiresName(specs: seq<OptionSpec>, name: Bytes) {
    exists i :: 0 <= i < |specs| && specs[i].required && specs[i].name == name
  }

  lemma ReservedIs(name: Bytes)
    ensures IsReserved(name) <==> SameLetters(name, Ascii("vgi_attach_ticket"))
  {
    assert Lower(TICKET_OPTION) == TICKET_OPTION;
    LowerExact(name, TICKET_OPTION);
  }

  lemma {:induction false} NameViolationsAre(names: seq<Bytes>, known: set<Bytes>, v: Violation)
    ensures v in NameViolations(names, known) <==>
      || (v.NestedTicket? && v.option in names && IsReserved(v.option))
      || (v.Undeclared? && v.option in names && !IsReserved(v.option) && Lower(v.option) !in known)
  {
    if names != [] {
      var init := names[..|names| - 1];
      assert names == init + [names[|names| - 1]];
      NameViolationsAre(init, known, v);
    }
  }

  lemma {:induction false} RequiredViolationsAre(specs: seq<OptionSpec>, supplied: set<Bytes>, v: Violation)
    ensures v in RequiredViolations(specs, supplied) <==>
      v.Required? && RequiresName(specs, v.option) && Lower(v.option) !in supplied
  {
    if specs != [] {
      var init, last := specs[..|specs| - 1], specs[|specs| - 1];
      RequiredViolationsAre(init, supplied, v);
      assert forall i :: 0 <= i < |init| ==> init[i] == specs[i];
      if v.Required? {
        assert RequiresName(specs, v.option) <==>
          RequiresName(init, v.option) || (last.required && last.name == v.option);
      }
    }
  }

  lemma InLowerNames(names: seq<Bytes>, name: Bytes)
    ensures Lower(name) in LowerNames(names) <==> exists i :: 0 <= i < |names| && SameLetters(names[i], name)
  {
    forall i | 0 <= i < |names| ensures Lower(names[i]) == Lower(name) <==> SameLetters(names[i], name) {
      LowerExact(names[i], name);
    }
  }

  lemma DeclaredIs(w: Worker, name: Bytes)
    ensures match DeclaredOptions(w, name)
            case Some(specs) => forall other :: DeclaredAre(w, name, other) <==> other == specs
            case None => forall other :: !DeclaredAre(w, name, other)
  {
    FindIsFirst(w.catalogs, name);
    forall i: nat, j: nat | FirstAt(w.catalogs, name, i) && FirstAt(w.catalogs, name, j) ensures i == j {
      assert !(i < j) && !(j < i);
    }
  }

  lemma NamesAre(options: Option<Record>, name: Bytes)
    ensures name in SuppliedNames(options) <==> Spells(OptionColumns(options), name)
    ensures Lower(name) !in LowerNames(SuppliedNames(options)) <==> NoMatch(OptionColumns(options), name)
  {
    var names, columns := SuppliedNames(options), OptionColumns(options);
    assert |names| == |columns| && forall i :: 0 <= i < |columns| ==> names[i] == columns[i].name;
    InLowerNames(names, name);
  }

  lemma KnownIs(specs: seq<OptionSpec>, name: Bytes)
    ensures Lower(name) in LowerNames(SpecNames(specs)) <==> DeclaresName(specs, name)
  {
    var names := SpecNames(specs);
    assert forall i :: 0 <= i < |specs| ==> names[i] == specs[i].name;
    InLowerNames(names, name);
  }

  lemma DeclaredPart(w: Worker, request: SealRequest, options: Option<Record>, specs: seq<OptionSpec>, v: Violation)
    requires DeclaredOptions(w, request.catalogName) == Some(specs)
    ensures v in DeclaredViolations(SuppliedNames(options), specs) <==>
      (v.NestedTicket? || v.Undeclared? || v.Required?) && Violates(w, request, options, v)
  {
    var names := SuppliedNames(options);
    DeclaredIs(w, request.catalogName);
    assert DeclaredAre(w, request.catalogName, specs);
    NameViolationsAre(names, LowerNames(SpecNames(specs)), v);
    RequiredViolationsAre(specs, LowerNames(names), v);
    if v.NestedTicket? || v.Undeclared? || v.Required? {
      NamesAre(options, v.option);
      ReservedIs(v.option);
      KnownIs(specs, v.option);
    }
  }

  lemma PlainParts(w: Worker, request: SealRequest, options: Option<Record>)
    requires request.options.None? ==> options.None?
    ensures Violates(w, request, options, UnknownCatalog) <==> DeclaredOptions(w, request.catalogName).None?
    ensures Violates(w, request, options, OptionsTooBig) <==>
      |SealedOptions(request, SuppliedNames(options))| > MAX_OPTIONS_BYTES
    ensures DeclaredOptions(w, request.catalogName).None? ==>
      forall v: Violation :: v.NestedTicket? || v.Undeclared? || v.Required? ==> !Violates(w, request, options, v)
  {
    DeclaredIs(w, request.catalogName);
    if DeclaredOptions(w, request.catalogName).Some? {
      assert DeclaredAre(w, request.catalogName, DeclaredOptions(w, request.catalogName).value);
    }
    assert SuppliedNames(options) == [] <==> OptionColumns(options) == [];
  }

  /** The violations reported are exactly those that hold. */
  lemma ViolationsExact(w: Worker, request: SealRequest, options: Option<Record>, v: Violation)
    requires request.options.None? ==> options.None?
    ensures v in AllViolations(w, request, options) <==> Violates(w, request, options, v)
  {
    PlainParts(w, request, options);
    var declared := DeclaredOptions(w, request.catalogName);
    if declared.Some? { DeclaredPart(w, request, options, declared.value, v); }
  }

  // ---- Issuing ----

  /** Where a violation comes in the report. */
  function Rank(v: Violation): nat {
    match v
    case NegativeTtl => 0
    case ManyRows => 1
    case UnknownCatalog => 2
    case NestedTicket(_) => 2
    case Undeclared(_) => 2
    case Required(_) => 3
    case OptionsTooBig => 4
  }

  predicate InOrder(list: seq<Violation>) { forall i, j :: 0 <= i < j < |list| ==> Rank(list[i]) <= Rank(list[j]) }

  lemma OrderJoins(a: seq<Violation>, b: seq<Violation>, r: nat)
    requires InOrder(a) && InOrder(b)
    requires (forall v :: v in a ==> Rank(v) <= r) && forall v :: v in b ==> Rank(v) >= r
    ensures InOrder(a + b)
  {
    forall i, j | 0 <= i < j < |a + b| ensures Rank((a + b)[i]) <= Rank((a + b)[j]) {
      assert i < |a| ==> a[i] in a;
      assert j >= |a| ==> b[j - |a|] in b;
    }
  }

  lemma OneRank(list: seq<Violation>, r: nat)
    requires forall v :: v in list ==> Rank(v) == r
    ensures InOrder(list)
  {
  }

  lemma DeclaredInOrder(names: seq<Bytes>, specs: seq<OptionSpec>)
    ensures InOrder(DeclaredViolations(names, specs))
    ensures forall v :: v in DeclaredViolations(names, specs) ==> 2 <= Rank(v) <= 3
  {
    var a, b := NameViolations(names, LowerNames(SpecNames(specs))), RequiredViolations(specs, LowerNames(names));
    forall v | v in a ensures Rank(v) == 2 { NameViolationsAre(names, LowerNames(SpecNames(specs)), v); }
    forall v | v in b ensures Rank(v) == 3 { RequiredViolationsAre(specs, LowerNames(names), v); }
    OneRank(a, 2);
    OneRank(b, 3);
    OrderJoins(a, b, 2);
  }

  lemma FourParts(a: seq<Violation>, b: seq<Violation>, c: seq<Violation>, d: seq<Violation>)
    requires (forall v :: v in a ==> Rank(v) == 0) && (forall v :: v in b ==> Rank(v) == 1)
    requires (forall v :: v in c ==> 2 <= Rank(v) <= 3) && InOrder(c) && forall v :: v in d ==> Rank(v) == 4
    ensures InOrder(a + b + c + d)
  {
    OneRank(a, 0);
    OneRank(b, 1);
    OneRank(d, 4);
    OrderJoins(a, b, 0);
    OrderJoins(a + b, c, 1);
    OrderJoins(a + b + c, d, 3);
  }

  /** They are reported in order: the lifetime, the number of rows, the catalog
      or the names supplied, the options that are missing, the size. */
  lemma ViolationsInOrder(w: Worker, request: SealRequest, options: Option<Record>)
    ensures InOrder(AllViolations(w, request, options))
  {
    var names := SuppliedNames(options);
    var ttl := if request.ttl < 0 then [NegativeTtl] else [];
    var rows := if options.Some? && options.value.rows > 1 then [ManyRows] else [];
    var declared := match DeclaredOptions(w, request.catalogName)
      case None => [UnknownCatalog]
      case Some(specs) => DeclaredViolations(names, specs);
    var size := if |SealedOptions(request, names)| > MAX_OPTIONS_BYTES then [OptionsTooBig] else [];
    if DeclaredOptions(w, request.catalogName).Some? {
      DeclaredInOrder(names, DeclaredOptions(w, request.catalogName).value);
    }
    FourParts(ttl, rows, declared, size);
  }

  /** The claims that a request seals. */
  predicate Sealed(request: SealRequest, options: Option<Record>, issued: int64, id: Bytes, c: Claims) {
    && c.issuedAt == issued && c.ticketId == id && c.catalogName == request.catalogName
    && c.dataVersionSpec == request.dataVersionSpec && c.implementationVersion == request.implementationVersion
    && c.optionsIpc == if OptionColumns(options) == [] then [] else OrEmpty(request.options)
  }

  /** Issuing succeeds only for a caller with a principal, options that read and
      a request without a violation; it then mints the request's own claims,
      which end in time. */
  lemma SealIs(w: Worker, x: Crypto, ipc: Ipc, key: Bytes, ceiling: Option<int64>, principal: Bytes,
               request: SealRequest, issued: int64, id: Bytes, nonce: Bytes, options: Option<Record>)
    requires Carries(ipc, request.options, options)
    ensures var r := Seal(w, x, ipc, key, ceiling, principal, request, issued, id, nonce);
      && (r == Err(Denied) <==> principal == [])
      && (r.Err? && r.error.Violations? ==>
            r.error.list != [] && forall v :: v in r.error.list <==> Violates(w, request, options, v))
      && (principal != [] && (exists v :: Violates(w, request, options, v)) ==> r.Err? && r.error.Violations?)
      && (r.Ok? ==>
            && (forall v :: !Violates(w, request, options, v))
            && Sealed(request, options, issued, id, r.value.1)
            && EndsRight(request.ttl, ceiling, issued, r.value.1)
            && Mint(x, key, principal, r.value.1, nonce) == Ok(r.value.0))
  {
    forall v { ViolationsExact(w, request, options, v); }
    var violations := AllViolations(w, request, options);
    assert violations != [] ==> violations[0] in violations;
  }

  /** With no violation, issuing fails only where the lifetime overflows or the
      claims cannot be minted. */
  lemma SealSucceeds(w: Worker, x: Crypto, ipc: Ipc, key: Bytes, ceiling: Option<int64>, principal: Bytes,
                     request: SealRequest, issued: int64, id: Bytes, nonce: Bytes, options: Option<Record>, c: Claims)
    requires Carries(ipc, request.options, options) && principal != []
    requires forall v :: !Violates(w, request, options, v)
    requires Sealed(request, options, issued, id, c) && EndsRight(request.ttl, ceiling, issued, c)
    ensures Seal(w, x, ipc, key, ceiling, principal, request, issued, id, nonce) ==
      match Mint(x, key, principal, c, nonce)
      case Ok(token) => Ok((token, c))
      case Err(cause) => Err(Unmintable(cause))
  {
    forall v { ViolationsExact(w, request, options, v); }
    NoneMeansEmpty(AllViolations(w, request, options));
    assert !Violates(w, request, options, NegativeTtl);
    EndsOnce(request.ttl, ceiling, issued, c);
    var sealed := SealedOptions(request, SuppliedNames(options));
    assert SuppliedNames(options) == [] <==> OptionColumns(options) == [];
    assert c == ClaimsOf(request, sealed, issued, Expiry(request.ttl, ceiling, issued), id);
  }

  lemma NoneMeansEmpty(violations: seq<Violation>)
    ensures (forall v :: v !in violations) <==> violations == []
  {
    if violations != [] { assert violations[0] in violations; }
  }

  lemma EndsOnce(ttl: int64, ceiling: Option<int64>, issued: int64, c: Claims)
    requires ttl >= 0 && EndsRight(ttl, ceiling, issued, c)
    ensures Representable(ttl, ceiling, issued) && c.expiresAt == Expiry(ttl, ceiling, issued)
  {
  }

  // ---- Redeeming ----

  /** A request whose options carry no ticket. */
  predicate NoTicket(ipc: Ipc, encoded: Option<Bytes>) {
    || encoded.None? || encoded.value == []
    || match ipc.decode(encoded.value)
       case NoBatch => true
       case Malformed => false
       case Batch(o) => o.rows < 1 || NoMatch(o.columns, Ascii("vgi_attach_ticket"))
  }

  /** The options a request carries, if there is a ticket among them. */
  predicate HasTicket(ipc: Ipc, encoded: Option<Bytes>, o: Record) {
    && encoded.Some? && encoded.value != [] && ipc.decode(encoded.value) == Batch(o)
    && o.rows >= 1 && !NoMatch(o.columns, Ascii("vgi_attach_ticket"))
  }

  lemma ReservedAmong(columns: seq<Column>)
    ensures AnyReserved(columns) <==> !NoMatch(columns, Ascii("vgi_attach_ticket"))
  {
    forall i | 0 <= i < |columns|
      ensures IsReserved(columns[i].name) <==> SameLetters(columns[i].name, Ascii("vgi_attach_ticket"))
    {
      ReservedIs(columns[i].name);
    }
  }

  /** A request is left alone exactly when it carries no ticket; a ticket beside
      other options is refused as such, one that cannot be opened at all as
      invalid, and options that do not read as malformed. */
  lemma RedeemIs(x: Crypto, ipc: Ipc, request: seq<Column>, key: Option<Bytes>, principal: Bytes, now: real, o: Record)
    ensures var encoded, r := OptionalBinary(request, OPTIONS), Redeem(x, ipc, request, key, principal, now);
      && (r == Ok(None) <==> encoded.Ok? && NoTicket(ipc, encoded.value))
      && (r == Err(MalformedRequest) <==>
            || encoded.Err?
            || (encoded.value.Some? && encoded.value.value != [] && ipc.decode(encoded.value.value) == Malformed))
      && (encoded.Ok? && HasTicket(ipc, encoded.value, o) ==>
            && (r == Err(NotAlone) <==> |o.columns| > 1)
            && (|o.columns| == 1 && (key.None? || !o.columns[0].cell.Text?) ==> r == Err(TicketInvalid)))
  {
    var encoded := OptionalBinary(request, OPTIONS);
    if encoded.Ok? && encoded.value.Some? && encoded.value.value != [] && ipc.decode(encoded.value.value).Batch? {
      ReservedAmong(ipc.decode(encoded.value.value).record.columns);
    }
  }

  /** The whole outcome of redeeming a minted ticket: for every key of the
      worker, every caller and every time. */
  lemma RedeemOfMint(x: Crypto, ipc: Ipc, runner: seq<Column>, key: Bytes, principal: Bytes, c: Claims, nonce: Bytes,
                     token: Bytes, key': Option<Bytes>, principal': Bytes, now: real)
    requires IdealAead(x) && LawfulBase64(x) && IsNonce(nonce)
    requires Mint(x, key, principal, c, nonce) == Ok(token) && PresentsTicket(ipc, runner, token)
    requires c.optionsIpc != [] ==> ipc.decode(c.optionsIpc) != Malformed
    ensures Redeem(x, ipc, runner, key', principal', now) ==
      if key' != Some(key) || principal' != principal || !TextsAreUtf8(c) then Err(TicketInvalid)
      else if now < c.issuedAt as real - 60.0 then Err(TicketExpired)
      else if c.expiresAt != 0 && now >= c.expiresAt as real + 60.0 then Err(TicketExpired)
      else Ok(Some(Restore(runner, c)))
  {
    if key'.Some? { OpenOfMint(x, key, principal, c, nonce, token, key'.value, principal', now); }
  }
}
