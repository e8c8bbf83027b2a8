/** Referential closure of a catalog's foreign keys (src/catalog.cpp,
    `validate_catalogs`), over tables whose records are validated first. */
module ForeignKeys {
  import opened Basics
  import opened ConstraintRecords
  import opened ServedSchema
  import opened RecordValidation

  /** What a table offers at one of its versions: its columns, if declared, and
      its records; `before` and `after` say that the other checks of it pass,
      those ahead of the records and those behind. */
  datatype Offer = Offer(before: bool, after: bool, columns: Option<seq<Field>>, records: seq<Blob>)

  /** A version of a time-travelling table: its own records, or the table's. */
  datatype Version = Version(number: int64, before: bool, after: bool, columns: Option<seq<Field>>,
                               constraints: Option<seq<Blob>>)

  datatype Table = Table(name: Bytes, base: Offer, versions: seq<Version>)

  datatype Schema = Schema(path: Path, tables: seq<Table>)

  /** A table and the schema that declares it. */
  datatype Placed = Placed(path: Path, table: Table)

  function OfferOf(t: Table, v: Version): Offer {
    Offer(v.before, v.after, v.columns, if v.constraints.Some? then v.constraints.value else t.base.records)
  }

  /** What a table can serve, one offer per version. */
  function Offers(t: Table): (r: seq<Offer>) {
    if t.versions == [] then [t.base]
    else seq(|t.versions|, i requires 0 <= i < |t.versions| => OfferOf(t, t.versions[i]))
  }

  /** `resolve_version` with no AT clause: the newest, the first of equals. */
  function Newest(versions: seq<Version>): (v: Version)
    requires versions != []
    ensures v in versions
    ensures forall w :: w in versions ==> w.number <= v.number
  {
    var last := versions[|versions| - 1];
    var init := versions[..|versions| - 1];
    if init == [] then last
    else
      var best := Newest(init);
      assert versions == init + [last];
      if last.number > best.number then last else best
  }

  /** What a table serves now. */
  function CurrentOffer(t: Table): Offer {
    if t.versions == [] then t.base else OfferOf(t, Newest(t.versions))
  }

  lemma CurrentIsOffered(t: Table)
    ensures CurrentOffer(t) in Offers(t)
  {
    if t.versions != [] {
      var i :| 0 <= i < |t.versions| && t.versions[i] == Newest(t.versions);
      assert Offers(t)[i] == CurrentOffer(t);
    }
  }

  /** The records of an offer, read. */
  function Views(records: seq<Blob>): (r: seq<View>)
    ensures DecodeAll(records).Some? ==> |r| == |DecodeAll(records).value|
  {
    match DecodeAll(records)
    case None => []
    case Some(ds) => seq(|ds|, i requires 0 <= i < |ds| => ds[i].view)
  }

  function Current(t: Table): seq<View> { Views(CurrentOffer(t).records) }

  function ForeignIn(records: seq<View>): seq<View> {
    if records == [] then []
    else ForeignIn(records[..|records| - 1])
         + if records[|records| - 1].kind.ForeignKey? then [records[|records| - 1]] else []
  }

  function ForeignInAll(offers: seq<Offer>): seq<View> {
    if offers == [] then [] else ForeignInAll(offers[..|offers| - 1]) + ForeignIn(Views(offers[|offers| - 1].records))
  }

  function PlacedOf(path: Path, tables: seq<Table>): (r: seq<Placed>)
    ensures |r| == |tables|
  {
    seq(|tables|, i requires 0 <= i < |tables| => Placed(path, tables[i]))
  }

  /** The tables of all schemas, in the order they are read. */
  function TablesOf(schemas: seq<Schema>): seq<Placed> {
    if schemas == [] then []
    else TablesOf(schemas[..|schemas| - 1]) + PlacedOf(schemas[|schemas| - 1].path, schemas[|schemas| - 1].tables)
  }

  /** Every foreign key of every version of every table. */
  function ForeignOf(tables: seq<Placed>): seq<View> {
    if tables == [] then []
    else ForeignOf(tables[..|tables| - 1]) + ForeignInAll(Offers(tables[|tables| - 1].table))
  }

  /** What a table serves now, under its schema path and name. */
  datatype Listed = Listed(path: Path, name: Bytes, records: seq<View>)

  function ServedNow(tables: seq<Placed>): (r: seq<Listed>)
    ensures |r| == |tables|
  {
    seq(|tables|, i requires 0 <= i < |tables| =>
      Listed(tables[i].path, tables[i].table.name, Current(tables[i].table)))
  }

  predicate Is(x: Listed, path: Path, name: Bytes) { x.path == path && x.name == name }

  /** The records served under a path and a name; tables of one name are read
      together. */
  function Served(lists: seq<Listed>, path: Path, name: Bytes): seq<View> {
    if lists == [] then []
    else
      var last := lists[|lists| - 1];
      Served(lists[..|lists| - 1], path, name) + if Is(last, path, name) then last.records else []
  }

  function FindId(records: seq<View>, id: Bytes): Option<View> {
    if records == [] then None
    else if records[0].id == id then Some(records[0])
    else FindId(records[1..], id)
  }

  predicate IsKey(v: View) { v.kind.PrimaryKey? || v.kind.Unique? }

  /** The first record of the referenced id is a key over the same columns. */
  predicate Hits(lists: seq<Listed>, ref: Reference) {
    match FindId(Served(lists, ref.schemaPath, ref.table), ref.constraintId)
    case None => false
    case Some(key) => IsKey(key) && key.columns == ref.columns
  }

  // ---- Validity of each table ----

  /** The checks of one offer. Records need declared columns. */
  ghost function OfferVerdict(path: Path, name: Bytes, offer: Offer, grammar: Grammar): Verdict {
    var records :=
      if offer.columns.Some? then SetVerdict(Some(Owner(path, name)), offer.columns.value, offer.records, grammar)
      else if offer.records == [] then Accept
      else Reject;
    if !offer.before then Reject else if records != Accept then records else if offer.after then Accept else Reject
  }

  /** The first verdict that is not acceptance, if there is one. */
  function FirstOf(verdicts: seq<Verdict>): Verdict {
    if verdicts == [] then Accept
    else
      var before := FirstOf(verdicts[..|verdicts| - 1]);
      if before == Accept then verdicts[|verdicts| - 1] else before
  }

  lemma {:induction false} FirstOfStops(verdicts: seq<Verdict>, n: nat)
    requires n <= |verdicts| && FirstOf(verdicts[..n]) != Accept
    ensures FirstOf(verdicts) == FirstOf(verdicts[..n])
    decreases |verdicts|
  {
    if n < |verdicts| {
      assert verdicts[..|verdicts| - 1][..n] == verdicts[..n];
      FirstOfStops(verdicts[..|verdicts| - 1], n);
    } else {
      assert verdicts[..n] == verdicts;
    }
  }

  lemma {:induction false} FirstOfAccepts(verdicts: seq<Verdict>)
    ensures FirstOf(verdicts) == Accept <==> forall i :: 0 <= i < |verdicts| ==> verdicts[i] == Accept
  {
    if verdicts != [] { FirstOfAccepts(verdicts[..|verdicts| - 1]); }
  }

  lemma FirstOfNext(verdicts: seq<Verdict>, n: nat)
    requires n < |verdicts| && FirstOf(verdicts[..n]) == Accept
    ensures FirstOf(verdicts[..n + 1]) == verdicts[n]
    ensures verdicts[n] != Accept ==> FirstOf(verdicts) == verdicts[n]
  {
    assert verdicts[..n + 1][..n] == verdicts[..n];
    if verdicts[n] != Accept { FirstOfStops(verdicts, n + 1); }
  }

  ghost function OfferVerdicts(p: Placed, grammar: Grammar): (r: seq<Verdict>)
    ensures |r| == |Offers(p.table)|
  {
    seq(|Offers(p.table)|, i requires 0 <= i < |Offers(p.table)| =>
      OfferVerdict(p.path, p.table.name, Offers(p.table)[i], grammar))
  }

  ghost function TableVerdict(p: Placed, grammar: Grammar): Verdict { FirstOf(OfferVerdicts(p, grammar)) }

  ghost function TableVerdicts(tables: seq<Placed>, grammar: Grammar): (r: seq<Verdict>)
    ensures |r| == |tables|
  {
    seq(|tables|, i requires 0 <= i < |tables| => TableVerdict(tables[i], grammar))
  }

  /** Every version of the table passes its own checks. */
  ghost predicate ValidTable(p: Placed, grammar: Grammar) {
    forall offer :: offer in Offers(p.table) ==> OfferVerdict(p.path, p.table.name, offer, grammar) == Accept
  }

  ghost predicate AllValid(tables: seq<Placed>, grammar: Grammar) {
    forall p :: p in tables ==> ValidTable(p, grammar)
  }

  lemma TableVerdictIs(p: Placed, grammar: Grammar)
    ensures TableVerdict(p, grammar) == Accept <==> ValidTable(p, grammar)
  {
    FirstOfAccepts(OfferVerdicts(p, grammar));
    if TableVerdict(p, grammar) == Accept {
      forall offer | offer in Offers(p.table) ensures OfferVerdict(p.path, p.table.name, offer, grammar) == Accept {
        var i :| 0 <= i < |Offers(p.table)| && Offers(p.table)[i] == offer;
        assert OfferVerdicts(p, grammar)[i] == Accept;
      }
    }
  }

  lemma TablesVerdictIs(tables: seq<Placed>, grammar: Grammar)
    ensures FirstOf(TableVerdicts(tables, grammar)) == Accept <==> AllValid(tables, grammar)
  {
    var verdicts := TableVerdicts(tables, grammar);
    FirstOfAccepts(verdicts);
    forall i | 0 <= i < |tables| ensures verdicts[i] == Accept <==> ValidTable(tables[i], grammar) {
      TableVerdictIs(tables[i], grammar);
    }
    if FirstOf(verdicts) == Accept {
      forall p | p in tables ensures ValidTable(p, grammar) {
        var i :| 0 <= i < |tables| && tables[i] == p;
        assert verdicts[i] == Accept;
      }
    }
  }

  /** What the validator's acceptance gives the closure check: records that
      read, no id twice, and a reference in every foreign key. */
  lemma AcceptedOffer(path: Path, name: Bytes, offer: Offer, grammar: Grammar)
    requires OfferVerdict(path, name, offer, grammar) == Accept
    ensures DecodeAll(offer.records).Some?
    ensures var views := Views(offer.records);
      && (forall i, j :: 0 <= i < j < |views| ==> views[i].id != views[j].id)
      && (forall v :: v in views && v.kind.ForeignKey? ==> v.references.Some?)
  {
    if offer.columns.Some? {
      var records := DecodeAll(offer.records).value;
      var views := Views(offer.records);
      assert Accepts(Some(Owner(path, name)), offer.columns.value, offer.records, grammar);
      forall i, j | 0 <= i < j < |views| ensures views[i].id != views[j].id {
        assert Together(records[i].view, records[j].view);
      }
      forall v | v in views && v.kind.ForeignKey? ensures v.references.Some? {
        var i :| 0 <= i < |views| && views[i] == v;
        var served := ServeSchema(offer.columns.value, Required(records));
        assert GoodRecord(Some(Owner(path, name)), served, grammar, records[i]);
      }
    }
  }

  // ---- The check ----

  type Keys = map<(Path, Bytes), seq<View>>

  function At(keys: Keys, path: Path, name: Bytes): seq<View> {
    if (path, name) in keys then keys[(path, name)] else []
  }

  method CollectForeign(records: seq<View>) returns (foreign: seq<View>)
    ensures foreign == ForeignIn(records)
  {
    foreign := [];
    for i := 0 to |records|
      invariant foreign == ForeignIn(records[..i])
    {
      assert records[..i + 1][..i] == records[..i];
      if records[i].kind.ForeignKey? { foreign := foreign + [records[i]]; }
    }
    assert records[..|records|] == records;
  }

  method CheckOffer(path: Path, name: Bytes, offer: Offer, grammar: Grammar) returns (verdict: Verdict)
    ensures verdict == OfferVerdict(path, name, offer, grammar)
  {
    if !offer.before { return Reject; }
    if offer.columns.Some? {
      verdict := ValidateRecords(Some(Owner(path, name)), offer.columns.value, offer.records, grammar);
      if verdict != Accept { return; }
    } else if offer.records != [] {
      return Reject;
    }
    verdict := if offer.after then Accept else Reject;
  }

  /** Each version of a table, validated and then searched for foreign keys. */
  method CheckTable(p: Placed, grammar: Grammar) returns (verdict: Verdict, foreign: seq<View>)
    ensures verdict == TableVerdict(p, grammar)
    ensures verdict == Accept ==> foreign == ForeignInAll(Offers(p.table))
  {
    foreign := [];
    var offers := Offers(p.table);
    ghost var verdicts := OfferVerdicts(p, grammar);
    for i := 0 to |offers|
      invariant FirstOf(verdicts[..i]) == Accept && foreign == ForeignInAll(offers[..i])
    {
      FirstOfNext(verdicts, i);
      verdict := CheckOffer(p.path, p.table.name, offers[i], grammar);
      if verdict != Accept { return; }
      assert offers[..i + 1][..i] == offers[..i];
      var found := CollectForeign(Views(offers[i].records));
      foreign := foreign + found;
    }
    assert offers[..|offers|] == offers && verdicts[..|offers|] == verdicts;
    verdict := Accept;
  }

  /** What is collected of the tables read so far. */
  ghost predicate Collected(keys: Keys, lists: seq<Listed>) {
    forall p, n :: At(keys, p, n) == Served(lists, p, n)
  }

  lemma ServedNext(lists: seq<Listed>, i: nat, path: Path, name: Bytes)
    requires i < |lists|
    ensures Served(lists[..i + 1], path, name) ==
      if Is(lists[i], path, name) then Served(lists[..i], path, name) + lists[i].records
      else Served(lists[..i], path, name)
  {
    assert lists[..i + 1][..i] == lists[..i];
  }

  lemma CollectedNext(keys: Keys, lists: seq<Listed>, i: nat)
    requires i < |lists| && Collected(keys, lists[..i])
    ensures var x := lists[i];
      Collected(keys[(x.path, x.name) := At(keys, x.path, x.name) + x.records], lists[..i + 1])
  {
    forall p, n { ServedNext(lists, i, p, n); }
  }

  lemma ForeignNext(tables: seq<Placed>, i: nat)
    requires i < |tables|
    ensures ForeignOf(tables[..i + 1]) == ForeignOf(tables[..i]) + ForeignInAll(Offers(tables[i].table))
  {
    assert tables[..i + 1][..i] == tables[..i];
  }

  /** Every table's own checks, then every foreign key against what the tables
      serve now. */
  method CheckSchemas(schemas: seq<Schema>, grammar: Grammar) returns (verdict: Verdict)
    ensures verdict == CatalogVerdict(TablesOf(schemas), grammar)
  {
    var tables := TablesOf(schemas);
    var keys: Keys, foreign: seq<View> := map[], [];
    ghost var lists, verdicts := ServedNow(tables), TableVerdicts(tables, grammar);
    for i := 0 to |tables|
      invariant FirstOf(verdicts[..i]) == Accept
      invariant foreign == ForeignOf(tables[..i]) && Collected(keys, lists[..i])
    {
      FirstOfNext(verdicts, i);
      var p := tables[i];
      var found;
      verdict, found := CheckTable(p, grammar);
      if verdict != Accept { return; }
      ForeignNext(tables, i);
      foreign := foreign + found;
      CollectedNext(keys, lists, i);
      keys := keys[(p.path, p.table.name) := At(keys, p.path, p.table.name) + Current(p.table)];
    }
    assert tables[..|tables|] == tables && verdicts[..|tables|] == verdicts && lists[..|tables|] == lists;
    ForeignHaveReferences(tables, grammar);
    var ok := CheckAll(keys, foreign, lists);
    verdict := if ok then Accept else Reject;
  }

  /** The verdict on a catalog: the first of its tables' that is no acceptance,
      and otherwise whether every foreign key hits. */
  ghost function CatalogVerdict(tables: seq<Placed>, grammar: Grammar): Verdict {
    var first := FirstOf(TableVerdicts(tables, grammar));
    if first != Accept then first
    else if AllHit(ServedNow(tables), ForeignOf(tables)) then Accept
    else Reject
  }

  predicate HaveReferences(foreign: seq<View>) {
    forall i :: 0 <= i < |foreign| ==> foreign[i].references.Some?
  }

  predicate AllHit(lists: seq<Listed>, foreign: seq<View>) {
    forall i :: 0 <= i < |foreign| ==> foreign[i].references.Some? && Hits(lists, foreign[i].references.value)
  }

  lemma ForeignHaveReferences(tables: seq<Placed>, grammar: Grammar)
    requires FirstOf(TableVerdicts(tables, grammar)) == Accept
    ensures HaveReferences(ForeignOf(tables))
  {
    var foreign := ForeignOf(tables);
    TablesVerdictIs(tables, grammar);
    forall i | 0 <= i < |foreign| ensures foreign[i].references.Some? {
      InForeignOf(tables, foreign[i]);
      var p :| p in tables && StatesForeign(p.table, foreign[i]);
      var offer :| offer in Offers(p.table) && foreign[i] in Views(offer.records);
      assert ValidTable(p, grammar);
      AcceptedOffer(p.path, p.table.name, offer, grammar);
    }
  }

  method CheckAll(keys: Keys, foreign: seq<View>, ghost lists: seq<Listed>) returns (ok: bool)
    requires Collected(keys, lists) && HaveReferences(foreign)
    ensures ok <==> AllHit(lists, foreign)
  {
    for i := 0 to |foreign|
      invariant forall k :: 0 <= k < i ==> Hits(lists, foreign[k].references.value)
    {
      var hit := CheckForeign(keys, foreign[i].references.value, lists);
      if !hit { return false; }
    }
    return true;
  }

  method CheckForeign(keys: Keys, ref: Reference, ghost lists: seq<Listed>) returns (hit: bool)
    requires Collected(keys, lists)
    ensures hit <==> Hits(lists, ref)
  {
    assert At(keys, ref.schemaPath, ref.table) == Served(lists, ref.schemaPath, ref.table);
    if (ref.schemaPath, ref.table) !in keys { return false; }
    var key := FindId(keys[(ref.schemaPath, ref.table)], ref.constraintId);
    return key.Some? && IsKey(key.value) && key.value.columns == ref.columns;
  }

  // ---- What acceptance means ----

  lemma {:induction false} InForeignIn(records: seq<View>, v: View)
    ensures v in ForeignIn(records) <==> v in records && v.kind.ForeignKey?
  {
    if records != [] {
      var init := records[..|records| - 1];
      InForeignIn(init, v);
      assert records == init + [records[|records| - 1]];
    }
  }

  lemma {:induction false} InForeignInAll(offers: seq<Offer>, v: View)
    ensures v in ForeignInAll(offers) <==>
      v.kind.ForeignKey? && exists offer :: offer in offers && v in Views(offer.records)
  {
    if offers != [] {
      var init, last := offers[..|offers| - 1], offers[|offers| - 1];
      assert offers == init + [last];
      InForeignInAll(init, v);
      InForeignIn(Views(last.records), v);
    }
  }

  /** Some version of the table states the foreign key `v`. */
  ghost predicate StatesForeign(t: Table, v: View) {
    v.kind.ForeignKey? && exists offer :: offer in Offers(t) && v in Views(offer.records)
  }

  lemma {:induction false} InForeignOf(tables: seq<Placed>, v: View)
    ensures v in ForeignOf(tables) <==> exists p :: p in tables && StatesForeign(p.table, v)
  {
    if tables != [] {
      var init, last := tables[..|tables| - 1], tables[|tables| - 1];
      assert tables == init + [last];
      InForeignOf(init, v);
      InForeignInAll(Offers(last.table), v);
    }
  }

  predicate HasId(records: seq<View>, id: Bytes) { exists i :: 0 <= i < |records| && records[i].id == id }

  lemma {:induction false} FindIdFinds(records: seq<View>, id: Bytes)
    ensures FindId(records, id).Some? <==> HasId(records, id)
    ensures FindId(records, id).Some? ==> FindId(records, id).value in records && FindId(records, id).value.id == id
  {
    if records != [] {
      var tail := records[1..];
      FindIdFinds(tail, id);
      assert forall i :: 0 < i < |records| ==> records[i] == tail[i - 1];
      if HasId(tail, id) {
        var i :| 0 <= i < |tail| && tail[i].id == id;
        assert records[i + 1].id == id;
      }
    }
  }

  lemma {:induction false} FindIdConcat(a: seq<View>, b: seq<View>, id: Bytes)
    ensures FindId(a + b, id) == if FindId(a, id).Some? then FindId(a, id) else FindId(b, id)
  {
    if a == [] {
      assert a + b == b;
    } else {
      assert (a + b)[1..] == a[1..] + b;
      FindIdConcat(a[1..], b, id);
    }
  }

  /** List `x` is of the referenced name and holds a record of the id. */
  predicate Answers(x: Listed, ref: Reference) {
    Is(x, ref.schemaPath, ref.table) && HasId(x.records, ref.constraintId)
  }

  ghost predicate FirstAnswer(lists: seq<Listed>, ref: Reference, k: nat) {
    k < |lists| && Answers(lists[k], ref) && forall j :: 0 <= j < k ==> !Answers(lists[j], ref)
  }

  /** The search sees only the first list that answers. */
  lemma {:induction false} FindServed(lists: seq<Listed>, ref: Reference, k: nat)
    requires FirstAnswer(lists, ref, k)
    ensures FindId(Served(lists, ref.schemaPath, ref.table), ref.constraintId)
      == FindId(lists[k].records, ref.constraintId)
  {
    var n := |lists| - 1;
    var init, last := lists[..n], lists[n];
    assert lists[..n + 1] == lists;
    ServedNext(lists, n, ref.schemaPath, ref.table);
    FindIdConcat(Served(init, ref.schemaPath, ref.table), last.records, ref.constraintId);
    if k < n {
      assert FirstAnswer(init, ref, k);
      FindServed(init, ref, k);
      FindIdFinds(lists[k].records, ref.constraintId);
    } else {
      FindNothing(init, ref);
    }
  }

  lemma {:induction false} FindNothing(lists: seq<Listed>, ref: Reference)
    requires forall j :: 0 <= j < |lists| ==> !Answers(lists[j], ref)
    ensures FindId(Served(lists, ref.schemaPath, ref.table), ref.constraintId) == None
  {
    if lists != [] {
      var n := |lists| - 1;
      assert lists[..n + 1] == lists;
      ServedNext(lists, n, ref.schemaPath, ref.table);
      FindNothing(lists[..n], ref);
      assert !Answers(lists[n], ref);
      FindIdConcat(Served(lists[..n], ref.schemaPath, ref.table), lists[n].records, ref.constraintId);
      FindIdFinds(lists[n].records, ref.constraintId);
    }
  }

  /** The record a list holds under the id is a key over the columns. */
  predicate HoldsKey(x: Listed, ref: Reference) {
    match FindId(x.records, ref.constraintId)
    case None => false
    case Some(key) => IsKey(key) && key.columns == ref.columns
  }

  /** A foreign key hits exactly when the first declared table of that path and
      name to serve a record of the referenced id serves it as a key over the
      same columns in the same order. */
  lemma HitsExact(lists: seq<Listed>, ref: Reference)
    ensures Hits(lists, ref) <==> exists k: nat :: FirstAnswer(lists, ref, k) && HoldsKey(lists[k], ref)
  {
    if k: nat :| FirstAnswer(lists, ref, k) {
      FindServed(lists, ref, k);
      forall j: nat | FirstAnswer(lists, ref, j) ensures j == k {
        assert !(j < k) && !(k < j);
      }
    } else {
      NoFirst(lists, ref, |lists|);
      FindNothing(lists, ref);
    }
  }

  lemma {:induction false} NoFirst(lists: seq<Listed>, ref: Reference, n: nat)
    requires n <= |lists| && forall k: nat :: !FirstAnswer(lists, ref, k)
    ensures forall j :: 0 <= j < n ==> !Answers(lists[j], ref)
  {
    if n > 0 {
      NoFirst(lists, ref, n - 1);
      assert !FirstAnswer(lists, ref, n - 1);
    }
  }

  /** Every foreign key that any version of any table states hits. */
  ghost predicate Closed(tables: seq<Placed>) {
    forall p, v :: p in tables && StatesForeign(p.table, v) ==>
      v.references.Some? && Targets(tables, v.references.value)
  }

  ghost predicate Targets(tables: seq<Placed>, ref: Reference) {
    exists k: nat :: FirstAnswer(ServedNow(tables), ref, k) && HoldsKey(ServedNow(tables)[k], ref)
  }

  /** A catalog is accepted exactly when every version of every table passes
      the validator and every foreign key of every version targets a key. */
  lemma ClosureExact(tables: seq<Placed>, grammar: Grammar)
    ensures CatalogVerdict(tables, grammar) == Accept <==> AllValid(tables, grammar) && Closed(tables)
  {
    TablesVerdictIs(tables, grammar);
    var lists, foreign := ServedNow(tables), ForeignOf(tables);
    if AllHit(lists, foreign) {
      forall p, v | p in tables && StatesForeign(p.table, v)
        ensures v.references.Some? && Targets(tables, v.references.value)
      {
        InForeignOf(tables, v);
        HitsExact(lists, v.references.value);
      }
    }
    if Closed(tables) {
      forall i | 0 <= i < |foreign| ensures foreign[i].references.Some? && Hits(lists, foreign[i].references.value) {
        InForeignOf(tables, foreign[i]);
        HitsExact(lists, foreign[i].references.value);
      }
    }
  }

  // ---- Names declared once ----

  /** Some declared table of the referenced name serves the key now. */
  ghost predicate ServesKey(tables: seq<Placed>, ref: Reference) {
    exists p, key ::
      p in tables && p.path == ref.schemaPath && p.table.name == ref.table
      && key in Current(p.table) && key.id == ref.constraintId && IsKey(key) && key.columns == ref.columns
  }

  ghost predicate NamesOnce(tables: seq<Placed>) {
    forall i, j :: 0 <= i < j < |tables| ==>
      tables[i].path != tables[j].path || tables[i].table.name != tables[j].table.name
  }

  lemma {:induction false} FindIdExact(records: seq<View>, id: Bytes, v: View)
    requires forall i, j :: 0 <= i < j < |records| ==> records[i].id != records[j].id
    ensures FindId(records, id) == Some(v) <==> v in records && v.id == id
  {
    if records != [] {
      var tail := records[1..];
      forall i, j | 0 <= i < j < |tail| ensures tail[i].id != tail[j].id {
        assert records[i + 1].id != records[j + 1].id;
      }
      FindIdExact(tail, id, v);
      assert records == [records[0]] + tail;
      forall w | w in tail ensures w.id != records[0].id {
        var k :| 0 <= k < |tail| && tail[k] == w;
        assert records[k + 1] == w;
      }
    }
  }

  lemma CurrentIdsOnce(p: Placed, grammar: Grammar)
    requires ValidTable(p, grammar)
    ensures forall i, j :: 0 <= i < j < |Current(p.table)| ==> Current(p.table)[i].id != Current(p.table)[j].id
  {
    CurrentIsOffered(p.table);
    AcceptedOffer(p.path, p.table.name, CurrentOffer(p.table), grammar);
  }

  lemma ServedTargets(tables: seq<Placed>, ref: Reference, grammar: Grammar, k: nat, key: View)
    requires k < |tables| && ValidTable(tables[k], grammar) && NamesOnce(tables)
    requires tables[k].path == ref.schemaPath && tables[k].table.name == ref.table
    requires key in Current(tables[k].table) && key.id == ref.constraintId && IsKey(key) && key.columns == ref.columns
    ensures Targets(tables, ref)
  {
    var lists := ServedNow(tables);
    CurrentIdsOnce(tables[k], grammar);
    FindIdExact(lists[k].records, ref.constraintId, key);
    FindIdFinds(lists[k].records, ref.constraintId);
    assert FirstAnswer(lists, ref, k) && HoldsKey(lists[k], ref);
  }

  /** With each table name declared once per schema, a foreign key targets a
      key exactly when some table of that name serves it now. */
  lemma TargetsIsServed(tables: seq<Placed>, ref: Reference, grammar: Grammar)
    requires AllValid(tables, grammar) && NamesOnce(tables)
    ensures Targets(tables, ref) <==> ServesKey(tables, ref)
  {
    var lists := ServedNow(tables);
    if Targets(tables, ref) {
      var k: nat :| FirstAnswer(lists, ref, k) && HoldsKey(lists[k], ref);
      FindIdFinds(lists[k].records, ref.constraintId);
      assert tables[k] in tables;
    }
    if ServesKey(tables, ref) {
      var p, key :| p in tables && p.path == ref.schemaPath && p.table.name == ref.table
        && key in Current(p.table) && key.id == ref.constraintId && IsKey(key) && key.columns == ref.columns;
      var k: nat :| k < |tables| && tables[k] == p;
      ServedTargets(tables, ref, grammar, k, key);
    }
  }

  // ---- A name declared twice ----

  const SCHEMA: Path := [[115]]
  const NAME: Bytes := [116]
  const ID: Bytes := [107]

  function Column(name: Bytes): Field { Field(name, true, [], Leaf([])) }

  function UniqueSpec(column: Bytes): Spec {
    Spec(SCHEMA, NAME, ID, Unique, [[column]], Some(Enforced), Some(AllRows), None, None, None)
  }

  /** A table of one column, unique under the id `k`. */
  function UniqueTable(column: Bytes): Table
    requires IsName(column)
  {
    Table(NAME, Offer(true, true, Some([Column(column)]), [Blob(1, Some(InfoOf(UniqueSpec(column))))]), [])
  }

  lemma UniqueTableIsValid(column: Bytes, grammar: Grammar)
    requires IsName(column) && |column| <= 4096
    ensures ValidTable(Placed(SCHEMA, UniqueTable(column)), grammar)
    ensures Current(UniqueTable(column)) == [ViewOf(UniqueSpec(column))]
  {
    var spec, raw := UniqueSpec(column), [Column(column)];
    var blob := Blob(1, Some(InfoOf(spec)));
    RecordRoundTrip(spec);
    TryMapOne(blob, ReadBlob);
    var d := DecodeBlob(blob).value;
    assert DecodeAll([blob]) == Some([d]) && d.view == ViewOf(spec);
    UniqueIsGood(column, d, grammar);
    assert [blob][..0] == [];
    assert TotalSize([blob]) == 1;
    assert Accepts(Some(Owner(SCHEMA, NAME)), raw, [blob], grammar);
  }

  lemma UniqueIsGood(column: Bytes, d: Decoded, grammar: Grammar)
    requires IsName(column) && |column| <= 4096 && d.view == ViewOf(UniqueSpec(column))
    ensures GoodRecords(Some(Owner(SCHEMA, NAME)), ServeSchema([Column(column)], Required([d])), grammar, [d])
  {
    var raw := [Column(column)];
    var served := ServeSchema(raw, Required([d]));
    assert served[1..] == [] && served[0].name == column;
    assert Named(served, column) == [served[0]];
    assert !IsRowId(served[0]);
    assert TopLevelOnly(served, d.view.columns);
    assert GoodRecord(Some(Owner(SCHEMA, NAME)), served, grammar, [d][0]);
  }

  lemma FirstHides(lists: seq<Listed>, ref: Reference)
    requires lists != [] && Answers(lists[0], ref) && !HoldsKey(lists[0], ref)
    ensures !exists k: nat :: FirstAnswer(lists, ref, k) && HoldsKey(lists[k], ref)
  {
    forall k: nat | FirstAnswer(lists, ref, k) ensures k == 0 {}
  }

  /** Of two tables of one name, the first one's record of an id hides the
      second one's. */
  lemma OneHidesAnother(p: Placed, q: Placed, ref: Reference, first: View, second: View)
    requires p.path == q.path == ref.schemaPath && p.table.name == q.table.name == ref.table
    requires Current(p.table) == [first] && Current(q.table) == [second]
    requires first.id == second.id == ref.constraintId && IsKey(second)
    requires first.columns != ref.columns == second.columns
    ensures ServesKey([p, q], ref) && !Targets([p, q], ref)
  {
    var tables := [p, q];
    assert tables[1] in tables && second in Current(q.table);
    var x := ServedNow(tables)[0];
    assert x.records[0].id == ref.constraintId;
    assert Answers(x, ref) && !HoldsKey(x, ref);
    FirstHides(ServedNow(tables), ref);
  }

  /** So it is with tables that each pass the validator: a foreign key to the
      second one's key is refused though that key is served. */
  lemma SecondTableIsHidden(a: Bytes, b: Bytes, grammar: Grammar)
    requires IsName(a) && |a| <= 4096 && IsName(b) && |b| <= 4096 && a != b
    ensures var tables := [Placed(SCHEMA, UniqueTable(a)), Placed(SCHEMA, UniqueTable(b))];
      var ref := Reference(SCHEMA, NAME, [[b]], ID);
      AllValid(tables, grammar) && ServesKey(tables, ref) && !Targets(tables, ref)
  {
    UniqueTableIsValid(a, grammar);
    UniqueTableIsValid(b, grammar);
    var first, second := ViewOf(UniqueSpec(a)), ViewOf(UniqueSpec(b));
    assert first.columns[0][0] != second.columns[0][0];
    OneHidesAnother(Placed(SCHEMA, UniqueTable(a)), Placed(SCHEMA, UniqueTable(b)),
                    Reference(SCHEMA, NAME, [[b]], ID), first, second);
  }
}
