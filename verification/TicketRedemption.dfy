/** Sealing an ATTACH into a ticket (src/attach_ticket_service.cpp), redeeming
    it (src/attach_ticket.cpp) and what the catalog then reads from the request
    (src/catalog.cpp). */
module TicketRedemption {
  import opened Basics
  import opened Utf8
  import opened TicketPayload
  import opened Ticket
  import opened Wire
  import opened Catalogs

  // ---- Names ----

  /** `equals_ignore_case`, byte by byte. */
  predicate SameIgnoringCase(a: Bytes, b: Bytes) {
    |a| == |b| && forall i :: 0 <= i < |a| ==> LowerByte(a[i]) == LowerByte(b[i])
  }

  /** The two spellings of case-insensitive comparison agree. */
  lemma SameLower(a: Bytes, b: Bytes)
    ensures SameIgnoringCase(a, b) <==> Lower(a) == Lower(b)
  {
    if Lower(a) == Lower(b) {
      forall i | 0 <= i < |a| ensures LowerByte(a[i]) == LowerByte(b[i]) {
        assert Lower(a)[i] == Lower(b)[i];
      }
    }
  }

  const TICKET_OPTION: Bytes := Ascii("vgi_attach_ticket")
  const NAME: Bytes := Ascii("name")
  const OPTIONS: Bytes := Ascii("options")
  const DATA_VERSION: Bytes := Ascii("data_version_spec")
  const IMPLEMENTATION: Bytes := Ascii("implementation_version")

  predicate IsReserved(name: Bytes) { Lower(name) == TICKET_OPTION }

  lemma ColumnNamesDiffer()
    ensures NAME != OPTIONS && NAME != DATA_VERSION && NAME != IMPLEMENTATION
    ensures OPTIONS != DATA_VERSION && OPTIONS != IMPLEMENTATION && DATA_VERSION != IMPLEMENTATION
  {
    assert |NAME| == 4 && |OPTIONS| == 7 && |DATA_VERSION| == 17 && |IMPLEMENTATION| == 22;
  }

  // ---- Redemption ----

  datatype RedeemError = NotAlone | TicketInvalid | TicketExpired | MalformedRequest

  /** An optional binary or text field of a request: absent and null are the
      same; another type is a malformed request. */
  function OptionalBinary(request: seq<Column>, name: Bytes): Result<Option<Bytes>, ()> {
    match Find(request, name)
    case None => Ok(None)
    case Some(c) => match c.cell
      case Null => Ok(None)
      case Binary(b) => Ok(Some(b))
      case _ => Err(())
  }

  function OptionalText(request: seq<Column>, name: Bytes): Result<Option<Bytes>, ()> {
    match Find(request, name)
    case None => Ok(None)
    case Some(c) => match c.cell
      case Null => Ok(None)
      case Text(t) => Ok(Some(t))
      case _ => Err(())
  }

  function TextOrNull(t: Bytes): Cell { if t == [] then Null else Text(t) }

  /** One column of the restored request: the four the ticket seals are
      replaced, every other one is kept. */
  function RestoreColumn(c: Column, claims: Claims): Column {
    if c.name == NAME then Column(c.name, Text(claims.catalogName))
    else if c.name == OPTIONS then
      Column(c.name, if claims.optionsIpc == [] then Null else Binary(claims.optionsIpc))
    else if c.name == DATA_VERSION then Column(c.name, TextOrNull(claims.dataVersionSpec))
    else if c.name == IMPLEMENTATION then Column(c.name, TextOrNull(claims.implementationVersion))
    else c
  }

  function Restore(request: seq<Column>, claims: Claims): (r: seq<Column>)
    ensures |r| == |request|
  {
    seq(|request|, i requires 0 <= i < |request| => RestoreColumn(request[i], claims))
  }

  predicate AnyReserved(columns: seq<Column>) {
    exists i :: 0 <= i < |columns| && IsReserved(columns[i].name)
  }

  /** `redeem_attach_ticket`: `Ok(None)` leaves the request alone. */
  ghost function Redeem(x: Crypto, ipc: Ipc, request: seq<Column>, key: Option<Bytes>,
                        principal: Bytes, now: real): Result<Option<seq<Column>>, RedeemError>
  {
    match OptionalBinary(request, OPTIONS)
    case Err(_) => Err(MalformedRequest)
    case Ok(None) => Ok(None)
    case Ok(Some(encoded)) =>
      if encoded == [] then Ok(None) else
      match ipc.decode(encoded)
      case Malformed => Err(MalformedRequest)
      case NoBatch => Ok(None)
      case Batch(options) =>
        if options.rows < 1 || !AnyReserved(options.columns) then Ok(None)
        else if |options.columns| != 1 then Err(NotAlone)
        else if !options.columns[0].cell.Text? || key.None? then Err(TicketInvalid)
        else match Open(x, key.value, options.columns[0].cell.text, principal, now)
          case Err(Invalid) => Err(TicketInvalid)
          case Err(Expired) => Err(TicketExpired)
          case Ok(claims) =>
            if claims.optionsIpc != [] && ipc.decode(claims.optionsIpc) == Malformed
            then Err(TicketInvalid)
            else Ok(Some(Restore(request, claims)))
  }

  /** The first spelling of the ticket key is the ticket. */
  method FindTicket(options: seq<Column>) returns (ticket: Option<nat>)
    ensures ticket.None? <==> !AnyReserved(options)
    ensures ticket.Some? ==> ticket.value < |options| && IsReserved(options[ticket.value].name)
    ensures ticket.Some? ==> forall j :: 0 <= j < ticket.value ==> !IsReserved(options[j].name)
  {
    for i := 0 to |options|
      invariant forall j :: 0 <= j < i ==> !IsReserved(options[j].name)
    {
      if IsReserved(options[i].name) { return Some(i); }
    }
    return None;
  }

  /** Anything beside the ticket is refused before it is opened. */
  method CountOthers(options: seq<Column>, ticket: nat) returns (others: nat)
    requires ticket < |options|
    ensures others == |options| - 1
  {
    others := 0;
    for k := 0 to |options|
      invariant others == if ticket < k then k - 1 else k
    {
      if k != ticket { others := others + 1; }
    }
  }

  method RebuildColumns(request: seq<Column>, claims: Claims) returns (columns: seq<Column>)
    ensures columns == Restore(request, claims)
  {
    columns := [];
    for n := 0 to |request|
      invariant columns == Restore(request, claims)[..n]
    {
      columns := columns + [RestoreColumn(request[n], claims)];
    }
  }

  method RedeemAttachTicket(x: Crypto, ipc: Ipc, request: seq<Column>, key: Option<Bytes>,
                            principal: Bytes, now: real)
    returns (r: Result<Option<seq<Column>>, RedeemError>)
    ensures r == Redeem(x, ipc, request, key, principal, now)
  {
    var field := OptionalBinary(request, OPTIONS);
    if field.Err? { return Err(MalformedRequest); }
    if field.value.None? || field.value.value == [] { return Ok(None); }
    var decoded := ipc.decode(field.value.value);
    if decoded.Malformed? { return Err(MalformedRequest); }
    if decoded.NoBatch? || decoded.record.rows < 1 { return Ok(None); }
    var options := decoded.record.columns;

    var ticket := FindTicket(options);
    if ticket.None? { return Ok(None); }
    var others := CountOthers(options, ticket.value);
    if others > 0 { return Err(NotAlone); }
    if !options[0].cell.Text? || key.None? { return Err(TicketInvalid); }
    var claims := OpenAttachTicket(x, key.value, options[0].cell.text, principal, now);
    if claims == Err(Invalid) { return Err(TicketInvalid); }
    if claims == Err(Expired) { return Err(TicketExpired); }
    if claims.value.optionsIpc != [] && ipc.decode(claims.value.optionsIpc) == Malformed {
      return Err(TicketInvalid);
    }
    var columns := RebuildColumns(request, claims.value);
    return Ok(Some(columns));
  }

  // ---- What ATTACH reads ----

  /** The catalogs a worker serves, the primary first, and the names of its
      memory catalogs; `cast` is the cast to a declared option type. */
  datatype Worker = Worker(catalogs: seq<CatalogModel>, memory: set<Bytes>,
                           cast: (Cell, Bytes) -> Option<Cell>)

  /** Why a request selects nothing. Merging checks no row count: a supplied
      record of another length than one puts columns of that length into a
      one-row batch, an outcome (`Ragged`) the source leaves undefined. */
  datatype AttachError = MissingRequired(option: Bytes) | CastFailed(option: Bytes)
    | Ragged | BadRequest

  /** The first supplied column an option's name matches. */
  function Supplied(columns: seq<Column>, name: Bytes): Option<Cell> {
    if columns == [] then None
    else if SameIgnoringCase(columns[0].name, name) then Some(columns[0].cell)
    else Supplied(columns[1..], name)
  }

  /** One merged option: the supplied value cast to the declared type, else
      the default, else null unless required. */
  function MergeOne(w: Worker, option: OptionSpec, supplied: Option<Record>): Result<Column, AttachError> {
    match if supplied.Some? then Supplied(supplied.value.columns, option.name) else None
    case Some(cell) =>
      if supplied.value.rows != 1 then Err(Ragged) else
      (match w.cast(cell, option.ty)
       case None => Err(CastFailed(option.name))
       case Some(value) => Ok(Column(option.name, value)))
    case None =>
      match option.default
      case Some(value) => Ok(Column(option.name, value))
      case None => if option.required then Err(MissingRequired(option.name)) else Ok(Column(option.name, Null))
  }

  function MergeAll(w: Worker, options: seq<OptionSpec>, supplied: Option<Record>): Result<seq<Column>, AttachError> {
    if options == [] then Ok([])
    else
      var first :- MergeOne(w, options[0], supplied);
      var rest :- MergeAll(w, options[1..], supplied);
      Ok([first] + rest)
  }

  /** `merge_attach_options`; no record when the catalog declares none. */
  function MergeOptions(w: Worker, ipc: Ipc, model: CatalogModel, encoded: Option<Bytes>)
    : Result<Option<seq<Column>>, AttachError>
  {
    if model.options == [] then Ok(None) else
    match SuppliedRecord(ipc, encoded)
    case Err(_) => Err(BadRequest)
    case Ok(supplied) =>
      var merged :- MergeAll(w, model.options, supplied);
      Ok(Some(merged))
  }

  function SuppliedRecord(ipc: Ipc, encoded: Option<Bytes>): Result<Option<Record>, ()> {
    if encoded.None? || encoded.value == [] then Ok(None) else
    match ipc.decode(encoded.value)
    case Malformed => Err(())
    case NoBatch => Ok(None)
    case Batch(r) => Ok(Some(r))
  }

  /** What an ATTACH request selects: everything `catalog_attach` reads of it
      but the client's capabilities. */
  datatype Attach =
    | MemoryCatalog(name: Bytes)
    | Declared(catalog: Bytes, alias: Bytes, dataVersion: Option<Bytes>, implementation: Option<Bytes>,
               options: Option<seq<Column>>)

  /** Routing to a memory catalog, then the reads of `catalog_attach`. */
  function AttachOf(w: Worker, ipc: Ipc, request: seq<Column>): Result<Attach, AttachError>
    requires w.catalogs != []
  {
    match OptionalText(request, NAME)
    case Err(_) => Err(BadRequest)
    case Ok(None) => Err(BadRequest)
    case Ok(Some(name)) =>
      if name in w.memory then Ok(MemoryCatalog(name)) else
      var model := match FindCatalog(w.catalogs, name) case Some(m) => m case None => w.catalogs[0];
      match (OptionalText(request, DATA_VERSION), OptionalText(request, IMPLEMENTATION),
             OptionalBinary(request, OPTIONS))
      case (Ok(data), Ok(implementation), Ok(encoded)) =>
        var options :- MergeOptions(w, ipc, model, encoded);
        Ok(Declared(model.name, name, data, implementation, options))
      case _ => Err(BadRequest)
  }

  // ---- Sealing ----

  /** `SealAttachRequest`. */
  datatype SealRequest = SealRequest(catalogName: Bytes, options: Option<Bytes>, dataVersionSpec: Bytes,
                                     implementationVersion: Bytes, ttl: int64)

  datatype Violation =
    | NegativeTtl | ManyRows | UnknownCatalog
    | NestedTicket(option: Bytes) | Undeclared(option: Bytes) | Required(option: Bytes) | OptionsTooBig

  /** `Overflow` is the outcome of a signed sum past 64 bits, which the source
      leaves undefined. */
  datatype SealError =
    | Denied | MalformedOptions | Violations(list: seq<Violation>) | Overflow | Unmintable(cause: MintError)

  /** The declared options of a served catalog; a memory catalog has none. */
  function DeclaredOptions(w: Worker, name: Bytes): Option<seq<OptionSpec>> {
    match FindCatalog(w.catalogs, name)
    case Some(model) => Some(model.options)
    case None => if name in w.memory then Some([]) else None
  }

  function LowerNames(names: seq<Bytes>): set<Bytes> {
    set i | 0 <= i < |names| :: Lower(names[i])
  }

  function SpecNames(specs: seq<OptionSpec>): (r: seq<Bytes>)
    ensures |r| == |specs|
  {
    seq(|specs|, i requires 0 <= i < |specs| => specs[i].name)
  }

  function NameViolations(names: seq<Bytes>, known: set<Bytes>): seq<Violation> {
    if names == [] then [] else
    var init := names[..|names| - 1];
    var name := names[|names| - 1];
    NameViolations(init, known)
    + if IsReserved(name) then [NestedTicket(name)]
      else if Lower(name) !in known then [Undeclared(name)] else []
  }

  function RequiredViolations(specs: seq<OptionSpec>, supplied: set<Bytes>): seq<Violation> {
    if specs == [] then [] else
    var spec := specs[|specs| - 1];
    RequiredViolations(specs[..|specs| - 1], supplied)
    + if spec.required && Lower(spec.name) !in supplied then [Required(spec.name)] else []
  }

  function ColumnNames(columns: seq<Column>): (r: seq<Bytes>)
    ensures |r| == |columns|
  {
    seq(|columns|, i requires 0 <= i < |columns| => columns[i].name)
  }

  /** The option names a request supplies: those of a one-row record. */
  function SuppliedNames(options: Option<Record>): seq<Bytes> {
    if options.Some? && options.value.rows == 1 then ColumnNames(options.value.columns) else []
  }

  /** The option bytes a ticket carries: what the caller sent, if it names
      anything. */
  function SealedOptions(request: SealRequest, names: seq<Bytes>): Bytes {
    if names == [] || request.options.None? then [] else request.options.value
  }

  function DeclaredViolations(names: seq<Bytes>, specs: seq<OptionSpec>): seq<Violation> {
    NameViolations(names, LowerNames(SpecNames(specs))) + RequiredViolations(specs, LowerNames(names))
  }

  function AllViolations(w: Worker, request: SealRequest, options: Option<Record>): seq<Violation> {
    var names := SuppliedNames(options);
    (if request.ttl < 0 then [NegativeTtl] else [])
    + (if options.Some? && options.value.rows > 1 then [ManyRows] else [])
    + (match DeclaredOptions(w, request.catalogName)
       case None => [UnknownCatalog]
       case Some(specs) => DeclaredViolations(names, specs))
    + (if |SealedOptions(request, names)| > MAX_OPTIONS_BYTES then [OptionsTooBig] else [])
  }

  /** 0 asks for the ceiling; otherwise the request, capped at it. */
  function Lifetime(ttl: int64, ceiling: Option<int64>): Option<int64> {
    if ttl == 0 then ceiling
    else if ceiling.Some? && ceiling.value < ttl then ceiling
    else Some(ttl)
  }

  function ClaimsOf(request: SealRequest, options: Bytes, issued: int64, expires: int64, id: Bytes): Claims {
    Claims(issued, expires, id, request.catalogName, request.dataVersionSpec,
           request.implementationVersion, options)
  }

  /** `seal_attach`: either every violation, reported together and in order,
      or a ticket for the caller's own principal whose claims are the request
      and whose lifetime is what was asked, capped. The clock, the random id
      and the nonce are inputs. */
  function Seal(w: Worker, x: Crypto, ipc: Ipc, key: Bytes, ceiling: Option<int64>, principal: Bytes,
                request: SealRequest, issued: int64, id: Bytes, nonce: Bytes)
    : Result<(Bytes, Claims), SealError>
  {
    if principal == [] then Err(Denied) else
    match SuppliedRecord(ipc, request.options)
    case Err(_) => Err(MalformedOptions)
    case Ok(options) =>
      var violations := AllViolations(w, request, options);
      if violations != [] then Err(Violations(violations))
      else if !Representable(request.ttl, ceiling, issued) then Err(Overflow) else
      var c := ClaimsOf(request, SealedOptions(request, SuppliedNames(options)), issued,
                        Expiry(request.ttl, ceiling, issued), id);
      match Mint(x, key, principal, c, nonce)
      case Ok(token) => Ok((token, c))
      case Err(cause) => Err(Unmintable(cause))
  }

  /** The sum of clock and lifetime is a 64-bit integer. */
  predicate Representable(ttl: int64, ceiling: Option<int64>, issued: int64) {
    match Lifetime(ttl, ceiling)
    case Some(life) => -TWO63 <= issued + life < TWO63
    case None => true
  }

  function Expiry(ttl: int64, ceiling: Option<int64>, issued: int64): int64
    requires Representable(ttl, ceiling, issued)
  {
    match Lifetime(ttl, ceiling) case Some(life) => issued + life case None => 0
  }

  /** How long issued claims last: never beyond the ceiling or what was asked,
      and as long as one of the two; without end only if neither says. */
  predicate EndsRight(ttl: int64, ceiling: Option<int64>, issued: int64, c: Claims) {
    if ttl == 0 && ceiling.None? then c.expiresAt == 0
    else
      var life := c.expiresAt - issued;
      && (ceiling.Some? ==> life <= ceiling.value)
      && (ttl > 0 ==> life <= ttl)
      && ((ceiling.Some? && life == ceiling.value) || (ttl > 0 && life == ttl))
  }

  method SealAttach(w: Worker, x: Crypto, ipc: Ipc, key: Bytes, ceiling: Option<int64>,
                    principal: Bytes, request: SealRequest, issued: int64, id: Bytes, nonce: Bytes)
    returns (r: Result<(Bytes, Claims), SealError>)
    ensures r == Seal(w, x, ipc, key, ceiling, principal, request, issued, id, nonce)
    ensures r.Ok? ==> r.value.1.issuedAt == issued && EndsRight(request.ttl, ceiling, issued, r.value.1)
  {
    if principal == [] { return Err(Denied); }
    var supplied := SuppliedRecord(ipc, request.options);
    if supplied.Err? { return Err(MalformedOptions); }
    var violations, sealed := Validate(w, request, supplied.value);
    if violations != [] { return Err(Violations(violations)); }
    if !Representable(request.ttl, ceiling, issued) { return Err(Overflow); }
    var c := ClaimsOf(request, sealed, issued, Expiry(request.ttl, ceiling, issued), id);
    match Mint(x, key, principal, c, nonce) {
      case Ok(token) => return Ok((token, c));
      case Err(cause) => return Err(Unmintable(cause));
    }
  }

  /** Every violation, accumulated in the order they are reported. */
  method Validate(w: Worker, request: SealRequest, options: Option<Record>)
    returns (violations: seq<Violation>, sealed: Bytes)
    ensures violations == AllViolations(w, request, options)
    ensures sealed == SealedOptions(request, SuppliedNames(options))
  {
    violations := [];
    if request.ttl < 0 { violations := violations + [NegativeTtl]; }
    var names: seq<Bytes> := [];
    if options.Some? {
      if options.value.rows > 1 {
        violations := violations + [ManyRows];
      } else if options.value.rows == 1 {
        names := CollectNames(options.value.columns);
      }
    }
    var specs := DeclaredOptions(w, request.catalogName);
    if specs.None? {
      violations := violations + [UnknownCatalog];
    } else {
      violations := CheckNames(names, specs.value, violations);
    }
    sealed := SealedOptions(request, names);
    if |sealed| > MAX_OPTIONS_BYTES { violations := violations + [OptionsTooBig]; }
  }

  method CollectNames(columns: seq<Column>) returns (names: seq<Bytes>)
    ensures names == ColumnNames(columns)
  {
    names := [];
    for i := 0 to |columns|
      invariant names == ColumnNames(columns)[..i]
    {
      names := names + [columns[i].name];
    }
  }

  /** The checks of the supplied names, then of the required ones. */
  method CheckNames(names: seq<Bytes>, specs: seq<OptionSpec>, before: seq<Violation>)
    returns (violations: seq<Violation>)
    ensures violations == before + DeclaredViolations(names, specs)
  {
    var specNames: seq<Bytes> := [];
    for i := 0 to |specs|
      invariant specNames == SpecNames(specs)[..i]
    {
      specNames := specNames + [specs[i].name];
    }
    assert specNames == SpecNames(specs);
    var known := CollectLower(specNames);
    violations := CheckSupplied(names, known, before);
    var supplied := CollectLower(names);
    violations := CheckRequired(specs, supplied, violations);
  }

  method CollectLower(names: seq<Bytes>) returns (known: set<Bytes>)
    ensures known == LowerNames(names)
  {
    known := {};
    for i := 0 to |names|
      invariant known == LowerNames(names[..i])
    {
      LowerNamesSnoc(names[..i], names[i]);
      assert names[..i + 1] == names[..i] + [names[i]];
      known := known + {Lower(names[i])};
    }
    assert names[..|names|] == names;
  }

  method CheckSupplied(names: seq<Bytes>, known: set<Bytes>, before: seq<Violation>)
    returns (violations: seq<Violation>)
    ensures violations == before + NameViolations(names, known)
  {
    violations := before;
    for i := 0 to |names|
      invariant violations == before + NameViolations(names[..i], known)
    {
      assert names[..i + 1][..i] == names[..i];
      if IsReserved(names[i]) {
        violations := violations + [NestedTicket(names[i])];
      } else if Lower(names[i]) !in known {
        violations := violations + [Undeclared(names[i])];
      }
    }
    assert names[..|names|] == names;
  }

  method CheckRequired(specs: seq<OptionSpec>, supplied: set<Bytes>, before: seq<Violation>)
    returns (violations: seq<Violation>)
    ensures violations == before + RequiredViolations(specs, supplied)
  {
    violations := before;
    for i := 0 to |specs|
      invariant violations == before + RequiredViolations(specs[..i], supplied)
    {
      assert specs[..i + 1][..i] == specs[..i];
      if specs[i].required && Lower(specs[i].name) !in supplied {
        violations := violations + [Required(specs[i].name)];
      }
    }
    assert specs[..|specs|] == specs;
  }

  lemma LowerNamesSnoc(names: seq<Bytes>, name: Bytes)
    ensures LowerNames(names + [name]) == LowerNames(names) + {Lower(name)}
  {
    var all := names + [name];
    assert all[|names|] == name;
    forall i | 0 <= i < |names| ensures Lower(names[i]) in LowerNames(all) {
      assert all[i] == names[i];
    }
  }

  // ---- The ticketed path equals the direct path ----

  lemma {:induction false} FindRestore(request: seq<Column>, claims: Claims, name: Bytes)
    ensures Find(Restore(request, claims), name) ==
      match Find(request, name) case None => None case Some(c) => Some(RestoreColumn(c, claims))
  {
    if request != [] {
      var tail := request[1..];
      assert Restore(request, claims)[1..] == Restore(tail, claims);
      FindRestore(tail, claims, name);
      HasRestore(tail, claims, name);
    }
  }

  lemma HasRestore(request: seq<Column>, claims: Claims, name: Bytes)
    ensures Has(Restore(request, claims), name) <==> Has(request, name)
  {
    var r := Restore(request, claims);
    if Has(request, name) {
      var i :| 0 <= i < |request| && request[i].name == name;
      assert r[i].name == name;
    }
    if Has(r, name) {
      var i :| 0 <= i < |r| && r[i].name == name;
      assert request[i].name == name;
    }
  }

  /** Every column but the four sealed ones comes through untouched, in place. */
  lemma RestoreKeeps(request: seq<Column>, claims: Claims, i: nat)
    requires i < |request|
    ensures Restore(request, claims)[i].name == request[i].name
    ensures request[i].name !in {NAME, OPTIONS, DATA_VERSION, IMPLEMENTATION} ==>
      Restore(request, claims)[i] == request[i]
  {
  }

  /** What the four sealed columns read as afterwards, where they exist. */
  lemma RestoredReads(request: seq<Column>, claims: Claims)
    ensures Find(request, NAME).Some? ==>
      OptionalText(Restore(request, claims), NAME) == Ok(Some(claims.catalogName))
    ensures Find(request, OPTIONS).Some? ==>
      OptionalBinary(Restore(request, claims), OPTIONS) == Ok(TextOption(claims.optionsIpc))
    ensures OptionalText(Restore(request, claims), DATA_VERSION) ==
      Ok(if Find(request, DATA_VERSION).None? || claims.dataVersionSpec == [] then None
         else Some(claims.dataVersionSpec))
    ensures OptionalText(Restore(request, claims), IMPLEMENTATION) ==
      Ok(if Find(request, IMPLEMENTATION).None? || claims.implementationVersion == [] then None
         else Some(claims.implementationVersion))
  {
    ColumnNamesDiffer();
    FindRestore(request, claims, NAME);
    FindRestore(request, claims, OPTIONS);
    FindRestore(request, claims, DATA_VERSION);
    FindRestore(request, claims, IMPLEMENTATION);
    if Find(request, NAME).Some? { FindFound(request, NAME); }
    if Find(request, OPTIONS).Some? { FindFound(request, OPTIONS); }
    if Find(request, DATA_VERSION).Some? { FindFound(request, DATA_VERSION); }
    if Find(request, IMPLEMENTATION).Some? { FindFound(request, IMPLEMENTATION); }
  }

  /** No violation of a name means that every name is declared and none is the
      ticket's own. */
  lemma {:induction false} NoNameViolation(names: seq<Bytes>, known: set<Bytes>)
    ensures NameViolations(names, known) == []
      <==> forall i :: 0 <= i < |names| ==> !IsReserved(names[i]) && Lower(names[i]) in known
  {
    if names != [] {
      var init := names[..|names| - 1];
      NoNameViolation(init, known);
      assert forall i :: 0 <= i < |init| ==> init[i] == names[i];
    }
  }

  lemma {:induction false} NoRequiredViolation(specs: seq<OptionSpec>, supplied: set<Bytes>)
    ensures RequiredViolations(specs, supplied) == []
      <==> forall i :: 0 <= i < |specs| && specs[i].required ==> Lower(specs[i].name) in supplied
  {
    if specs != [] {
      var init := specs[..|specs| - 1];
      NoRequiredViolation(init, supplied);
      assert forall i :: 0 <= i < |init| ==> init[i] == specs[i];
    }
  }

  /** A supplied name, in any letter case, is a supplied value. */
  lemma {:induction false} SuppliedFound(columns: seq<Column>, name: Bytes)
    requires Lower(name) in LowerNames(ColumnNames(columns))
    ensures Supplied(columns, name).Some?
  {
    var i :| 0 <= i < |columns| && Lower(ColumnNames(columns)[i]) == Lower(name);
    SameLower(columns[0].name, name);
    if !SameIgnoringCase(columns[0].name, name) {
      var tail := columns[1..];
      assert ColumnNames(tail)[i - 1] == ColumnNames(columns)[i];
      SuppliedFound(tail, name);
    }
  }

  lemma {:induction false} MergeNeverMissing(w: Worker, options: seq<OptionSpec>, supplied: Option<Record>)
    requires forall i :: 0 <= i < |options| && options[i].required ==>
      supplied.Some? && Supplied(supplied.value.columns, options[i].name).Some?
    ensures var m := MergeAll(w, options, supplied); m.Err? ==> !m.error.MissingRequired?
  {
    if options != [] {
      assert options[0].required ==> supplied.Some? && Supplied(supplied.value.columns, options[0].name).Some?;
      forall i | 0 <= i < |options[1..]| && options[1..][i].required
        ensures supplied.Some? && Supplied(supplied.value.columns, options[1..][i].name).Some?
      {
        assert options[1..][i] == options[i + 1];
      }
      MergeNeverMissing(w, options[1..], supplied);
    }
  }

  /** A record without columns supplies what no record does. */
  lemma {:induction false} MergeOfEmptyRecord(w: Worker, options: seq<OptionSpec>, rows: nat)
    ensures MergeAll(w, options, Some(Record([], rows))) == MergeAll(w, options, None)
  {
    if options != [] { MergeOfEmptyRecord(w, options[1..], rows); }
  }

  /** The runner's request: the ticket, under some spelling of the reserved
      name, as its only option. */
  ghost predicate PresentsTicket(ipc: Ipc, request: seq<Column>, token: Bytes) {
    match OptionalBinary(request, OPTIONS)
    case Ok(Some(encoded)) =>
      && encoded != []
      && (match ipc.decode(encoded)
          case Batch(r) => r.rows >= 1 && |r.columns| == 1 && IsReserved(r.columns[0].name)
                           && r.columns[0].cell == Text(token)
          case _ => false)
    case _ => false
  }

  function TextOption(t: Bytes): Option<Bytes> { if t == [] then None else Some(t) }

  /** The attach the user made directly: the same catalog, versions and option
      bytes; its other columns do not matter. */
  ghost predicate IsDirect(direct: seq<Column>, request: SealRequest) {
    && OptionalText(direct, NAME) == Ok(Some(request.catalogName))
    && OptionalText(direct, DATA_VERSION) == Ok(TextOption(request.dataVersionSpec))
    && OptionalText(direct, IMPLEMENTATION) == Ok(TextOption(request.implementationVersion))
    && OptionalBinary(direct, OPTIONS) == Ok(request.options)
  }

  /** The options are a one-row record, or there is none. */
  ghost predicate OneRowOptions(ipc: Ipc, options: Option<Bytes>) {
    match SuppliedRecord(ipc, options)
    case Ok(None) => true
    case Ok(Some(r)) => r.rows == 1
    case Err(_) => false
  }

  lemma {:induction false} AsciiIsUtf8(s: Bytes)
    requires forall i :: 0 <= i < |s| ==> s[i] < 0x80
    ensures IsUtf8(s)
  {
    if s == [] {
      assert EncodeText([]) == s;
    } else {
      AsciiIsUtf8(s[1..]);
      assert Begins(s, s[0]);
      Utf8Cons(s, s[0]);
    }
  }

  /** The options restored from a ticket merge as the ones sealed in it. */
  lemma SealedOptionsMerge(w: Worker, ipc: Ipc, model: CatalogModel, request: SealRequest)
    requires LawfulIpc(ipc) && OneRowOptions(ipc, request.options)
    ensures var options := SuppliedRecord(ipc, request.options).value;
      var sealed := SealedOptions(request, SuppliedNames(options));
      MergeOptions(w, ipc, model, TextOption(sealed)) == MergeOptions(w, ipc, model, request.options)
  {
    var options := SuppliedRecord(ipc, request.options).value;
    if options.Some? && SuppliedNames(options) == [] {
      assert options.value.columns == [];
      MergeOfEmptyRecord(w, model.options, options.value.rows);
    }
  }

  /** A sealed request never lacks a required option, and never holds a
      ticket. */
  lemma SealedIsComplete(w: Worker, ipc: Ipc, model: CatalogModel, request: SealRequest)
    requires OneRowOptions(ipc, request.options)
    requires DeclaredOptions(w, request.catalogName) == Some(model.options)
    requires AllViolations(w, request, SuppliedRecord(ipc, request.options).value) == []
    ensures var m := MergeOptions(w, ipc, model, request.options); m.Err? ==> !m.error.MissingRequired?
  {
    var options := SuppliedRecord(ipc, request.options).value;
    var names := SuppliedNames(options);
    assert DeclaredViolations(names, model.options) == [];
    NoRequiredViolation(model.options, LowerNames(names));
    forall i | 0 <= i < |model.options| && model.options[i].required
      ensures options.Some? && Supplied(options.value.columns, model.options[i].name).Some?
    {
      assert Lower(model.options[i].name) in LowerNames(names);
      assert options.Some?;
      SuppliedFound(options.value.columns, model.options[i].name);
    }
    MergeNeverMissing(w, model.options, options);
  }

  lemma SealedHoldsNoTicket(w: Worker, ipc: Ipc, request: SealRequest)
    requires OneRowOptions(ipc, request.options)
    requires AllViolations(w, request, SuppliedRecord(ipc, request.options).value) == []
    ensures match SuppliedRecord(ipc, request.options).value
            case Some(r) => !AnyReserved(r.columns)
            case None => true
  {
    var options := SuppliedRecord(ipc, request.options).value;
    if options.Some? {
      var specs := DeclaredOptions(w, request.catalogName).value;
      var names := ColumnNames(options.value.columns);
      assert DeclaredViolations(names, specs) == [];
      NoNameViolation(names, LowerNames(SpecNames(specs)));
      forall i | 0 <= i < |options.value.columns| ensures !IsReserved(options.value.columns[i].name) {
        assert names[i] == options.value.columns[i].name;
      }
    }
  }

  /** A ticket `seal_attach` issued opens, for its own principal and inside
      its window, to exactly the claims it sealed. */
  lemma SealedOpens(w: Worker, x: Crypto, ipc: Ipc, key: Bytes, ceiling: Option<int64>, principal: Bytes,
                    request: SealRequest, issued: int64, id: Bytes, nonce: Bytes,
                    token: Bytes, claims: Claims, now: real)
    requires IdealAead(x) && LawfulBase64(x) && IsNonce(nonce)
    requires Seal(w, x, ipc, key, ceiling, principal, request, issued, id, nonce) == Ok((token, claims))
    requires IsUtf8(request.catalogName) && IsUtf8(request.dataVersionSpec) && IsUtf8(request.implementationVersion)
    requires InWindow(claims, now)
    ensures Open(x, key, token, principal, now) == Ok(claims)
  {
    AsciiIsUtf8(id);
    OpenOfMint(x, key, principal, claims, nonce, token, key, principal, now);
  }

  /** The claims a validated request seals, lifetime and id aside. */
  ghost predicate SealedFrom(w: Worker, ipc: Ipc, request: SealRequest, claims: Claims) {
    && SuppliedRecord(ipc, request.options).Ok?
    && var options := SuppliedRecord(ipc, request.options).value;
    && AllViolations(w, request, options) == []
    && claims.catalogName == request.catalogName
    && claims.dataVersionSpec == request.dataVersionSpec
    && claims.implementationVersion == request.implementationVersion
    && claims.optionsIpc == SealedOptions(request, SuppliedNames(options))
  }

  lemma SealGives(w: Worker, x: Crypto, ipc: Ipc, key: Bytes, ceiling: Option<int64>, principal: Bytes,
                  request: SealRequest, issued: int64, id: Bytes, nonce: Bytes)
    requires Seal(w, x, ipc, key, ceiling, principal, request, issued, id, nonce).Ok?
    ensures var claims := Seal(w, x, ipc, key, ceiling, principal, request, issued, id, nonce).value.1;
      && SealedFrom(w, ipc, request, claims)
      && (claims.optionsIpc != [] ==> ipc.decode(claims.optionsIpc) != Malformed)
  {
  }

  lemma RedeemsTo(x: Crypto, ipc: Ipc, runner: seq<Column>, key: Bytes, principal: Bytes, now: real,
                  token: Bytes, claims: Claims)
    requires Open(x, key, token, principal, now) == Ok(claims) && PresentsTicket(ipc, runner, token)
    requires claims.optionsIpc != [] ==> ipc.decode(claims.optionsIpc) != Malformed
    ensures Redeem(x, ipc, runner, Some(key), principal, now) == Ok(Some(Restore(runner, claims)))
    ensures Find(runner, OPTIONS).Some?
  {
  }

  lemma RestoredAttach(w: Worker, ipc: Ipc, request: SealRequest, claims: Claims,
                       runner: seq<Column>, direct: seq<Column>)
    requires LawfulIpc(ipc) && w.catalogs != [] && SealedFrom(w, ipc, request, claims)
    requires OneRowOptions(ipc, request.options) && IsDirect(direct, request)
    requires Find(runner, NAME).Some? && Find(runner, OPTIONS).Some?
    requires Find(runner, DATA_VERSION).Some? || request.dataVersionSpec == []
    requires Find(runner, IMPLEMENTATION).Some? || request.implementationVersion == []
    ensures AttachOf(w, ipc, Restore(runner, claims)) == AttachOf(w, ipc, direct)
    ensures var a := AttachOf(w, ipc, direct); a.Err? ==> !a.error.MissingRequired?
  {
    RestoredReads(runner, claims);
    if request.catalogName !in w.memory {
      var model := FindCatalog(w.catalogs, request.catalogName).value;
      SealedOptionsMerge(w, ipc, model, request);
      SealedIsComplete(w, ipc, model, request);
    }
  }

  lemma RestoredHoldsNoTicket(w: Worker, x: Crypto, ipc: Ipc, request: SealRequest, claims: Claims,
                              runner: seq<Column>, key: Option<Bytes>, principal: Bytes, now: real)
    requires SealedFrom(w, ipc, request, claims) && OneRowOptions(ipc, request.options)
    requires Find(runner, OPTIONS).Some?
    ensures Redeem(x, ipc, Restore(runner, claims), key, principal, now) == Ok(None)
  {
    RestoredReads(runner, claims);
    SealedHoldsNoTicket(w, ipc, request);
  }

  /** Attaching with a ticket issued by `seal_attach` selects exactly what
      attaching directly does: the same catalog, version requests and merged
      options, whatever else the runner's request carries. It never fails for
      a missing required option, and the restored request holds no further
      ticket. A version the ticket pins is restored only into a column the
      runner sent. */
  lemma TicketedEqualsDirect(w: Worker, x: Crypto, ipc: Ipc, key: Bytes, ceiling: Option<int64>,
                             principal: Bytes, request: SealRequest, issued: int64, id: Bytes, nonce: Bytes,
                             token: Bytes, claims: Claims, runner: seq<Column>, direct: seq<Column>, now: real)
    requires IdealAead(x) && LawfulBase64(x) && LawfulIpc(ipc) && IsNonce(nonce) && w.catalogs != []
    requires Seal(w, x, ipc, key, ceiling, principal, request, issued, id, nonce) == Ok((token, claims))
    requires IsUtf8(request.catalogName) && IsUtf8(request.dataVersionSpec) && IsUtf8(request.implementationVersion)
    requires OneRowOptions(ipc, request.options)
    requires InWindow(claims, now)
    requires PresentsTicket(ipc, runner, token) && Find(runner, NAME).Some?
    requires Find(runner, DATA_VERSION).Some? || request.dataVersionSpec == []
    requires Find(runner, IMPLEMENTATION).Some? || request.implementationVersion == []
    requires IsDirect(direct, request)
    ensures Redeem(x, ipc, runner, Some(key), principal, now) == Ok(Some(Restore(runner, claims)))
    ensures AttachOf(w, ipc, Restore(runner, claims)) == AttachOf(w, ipc, direct)
    ensures var a := AttachOf(w, ipc, direct); a.Err? ==> !a.error.MissingRequired?
    ensures forall key', principal', now' ::
      Redeem(x, ipc, Restore(runner, claims), key', principal', now') == Ok(None)
  {
    SealedOpens(w, x, ipc, key, ceiling, principal, request, issued, id, nonce, token, claims, now);
    SealGives(w, x, ipc, key, ceiling, principal, request, issued, id, nonce);
    RedeemsTo(x, ipc, runner, key, principal, now, token, claims);
    RestoredAttach(w, ipc, request, claims, runner, direct);
    forall key', principal', now'
      ensures Redeem(x, ipc, Restore(runner, claims), key', principal', now') == Ok(None)
    {
      RestoredHoldsNoTicket(w, x, ipc, request, claims, runner, key', principal', now');
    }
  }

  /** The condition on version columns is exact: an attach by ticket is the
      direct one if and only if the runner sent a column for each version the
      ticket pins. Without it the pinned version is lost. */
  lemma PinnedVersionsExact(w: Worker, ipc: Ipc, request: SealRequest, claims: Claims,
                            runner: seq<Column>, direct: seq<Column>)
    requires LawfulIpc(ipc) && w.catalogs != [] && SealedFrom(w, ipc, request, claims)
    requires OneRowOptions(ipc, request.options) && IsDirect(direct, request)
    requires Find(runner, NAME).Some? && Find(runner, OPTIONS).Some?
    requires AttachOf(w, ipc, direct).Ok? && AttachOf(w, ipc, direct).value.Declared?
    ensures AttachOf(w, ipc, Restore(runner, claims)) == AttachOf(w, ipc, direct) <==>
      && (Find(runner, DATA_VERSION).Some? || request.dataVersionSpec == [])
      && (Find(runner, IMPLEMENTATION).Some? || request.implementationVersion == [])
  {
    if (Find(runner, DATA_VERSION).Some? || request.dataVersionSpec == [])
       && (Find(runner, IMPLEMENTATION).Some? || request.implementationVersion == [])
    {
      RestoredAttach(w, ipc, request, claims, runner, direct);
    } else {
      RestoredReads(runner, claims);
    }
  }
}
