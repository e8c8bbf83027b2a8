/** When a catalog is accepted, told of its declared schemas, tables and
    versions (src/catalog.cpp, `validate_catalogs`). */
module CatalogClosure {
  import opened Basics
  import opened ConstraintRecords
  import opened RecordValidation
  import opened ForeignKeys

  // ---- What is declared ----

  /** Schema `i` declares a table at `j`. */
  predicate Place(schemas: seq<Schema>, i: int, j: int) { 0 <= i < |schemas| && 0 <= j < |schemas[i].tables| }

  /** The order of declaration. */
  predicate Earlier(i: int, j: int, k: int, l: int) { i < k || (i == k && j < l) }

  /** The tables declared by the first `i` schemas. */
  function Offset(schemas: seq<Schema>, i: nat): nat
    requires i <= |schemas|
  {
    if i == 0 then 0 else Offset(schemas, i - 1) + |schemas[i - 1].tables|
  }

  lemma {:induction false} OffsetOf(schemas: seq<Schema>, n: nat, i: nat)
    requires i <= n <= |schemas|
    ensures Offset(schemas[..n], i) == Offset(schemas, i)
  {
    if i > 0 { OffsetOf(schemas, n, i - 1); }
  }

  lemma {:induction false} OffsetGrows(schemas: seq<Schema>, i: nat, k: nat)
    requires i < k <= |schemas|
    ensures Offset(schemas, i) + |schemas[i].tables| <= Offset(schemas, k)
    decreases k
  {
    if i < k - 1 { OffsetGrows(schemas, i, k - 1); }
  }

  lemma {:induction false} TablesCount(schemas: seq<Schema>)
    ensures |TablesOf(schemas)| == Offset(schemas, |schemas|)
  {
    if schemas != [] {
      TablesCount(schemas[..|schemas| - 1]);
      OffsetOf(schemas, |schemas| - 1, |schemas| - 1);
    }
  }

  lemma {:induction false} TableAt(schemas: seq<Schema>, i: nat, j: nat)
    requires Place(schemas, i, j)
    ensures Offset(schemas, i) + j < |TablesOf(schemas)|
    ensures TablesOf(schemas)[Offset(schemas, i) + j] == Placed(schemas[i].path, schemas[i].tables[j])
  {
    var n := |schemas| - 1;
    OffsetOf(schemas, n, i);
    if i < n {
      TableAt(schemas[..n], i, j);
    } else {
      TablesCount(schemas[..n]);
    }
  }

  /** Every table of every schema is read, in order of declaration. */
  lemma TablesAre(schemas: seq<Schema>)
    ensures |TablesOf(schemas)| == Offset(schemas, |schemas|)
    ensures forall i, j :: Place(schemas, i, j) ==>
      && Offset(schemas, i) + j < |TablesOf(schemas)|
      && TablesOf(schemas)[Offset(schemas, i) + j] == Placed(schemas[i].path, schemas[i].tables[j])
  {
    TablesCount(schemas);
    forall i, j | Place(schemas, i, j)
      ensures Offset(schemas, i) + j < |TablesOf(schemas)|
      ensures TablesOf(schemas)[Offset(schemas, i) + j] == Placed(schemas[i].path, schemas[i].tables[j])
    {
      TableAt(schemas, i, j);
    }
  }

  /** And nothing else is read. */
  lemma {:induction false} PlaceOf(schemas: seq<Schema>, m: nat, n: nat) returns (i: nat, j: nat)
    requires m <= |schemas| && n < Offset(schemas, m)
    ensures Place(schemas, i, j) && n == Offset(schemas, i) + j
  {
    if n < Offset(schemas, m - 1) {
      i, j := PlaceOf(schemas, m - 1, n);
    } else {
      i, j := m - 1, n - Offset(schemas, m - 1);
    }
  }

  lemma PlacesOrder(schemas: seq<Schema>, i: nat, j: nat, k: nat, l: nat)
    requires Place(schemas, i, j) && Place(schemas, k, l)
    ensures Offset(schemas, i) + j < Offset(schemas, k) + l <==> Earlier(i, j, k, l)
  {
    if i < k { OffsetGrows(schemas, i, k); }
    if k < i { OffsetGrows(schemas, k, i); }
  }

  // ---- What a table serves ----

  /** What version `n` serves: its own records, or the table's where it states
      none. */
  predicate IsOffer(t: Table, n: int, o: Offer)
    requires 0 <= n < |t.versions|
  {
    var v := t.versions[n];
    && o.before == v.before && o.after == v.after && o.columns == v.columns
    && match v.constraints
       case Some(records) => o.records == records
       case None => o.records == t.base.records
  }

  /** A table without versions serves what it declares, one with versions each
      of them. */
  ghost predicate Offered(t: Table, o: Offer) {
    if t.versions == [] then o == t.base else exists n :: 0 <= n < |t.versions| && IsOffer(t, n, o)
  }

  /** Version `n` has the greatest number, and no version before it has. */
  predicate IsNewest(t: Table, n: int) {
    && 0 <= n < |t.versions|
    && (forall m :: 0 <= m < |t.versions| ==> t.versions[m].number <= t.versions[n].number)
    && (forall m :: 0 <= m < n ==> t.versions[m].number < t.versions[n].number)
  }

  ghost predicate ServedToday(t: Table, o: Offer) {
    if t.versions == [] then o == t.base else exists n :: IsNewest(t, n) && IsOffer(t, n, o)
  }

  lemma OfferedIs(t: Table, o: Offer)
    ensures Offered(t, o) <==> o in Offers(t)
  {
    if t.versions != [] {
      forall n | 0 <= n < |t.versions| ensures IsOffer(t, n, o) <==> Offers(t)[n] == o {}
    }
  }

  lemma {:induction false} NewestAt(versions: seq<Version>) returns (n: nat)
    requires versions != []
    ensures n < |versions| && versions[n] == Newest(versions)
    ensures forall m :: 0 <= m < n ==> versions[m].number < versions[n].number
  {
    var last := |versions| - 1;
    n := last;
    if last > 0 {
      var k := NewestAt(versions[..last]);
      if versions[last].number <= Newest(versions[..last]).number {
        n := k;
      } else {
        forall m | 0 <= m < last ensures versions[m].number < versions[last].number {
          assert versions[..last][m] in versions[..last];
        }
      }
    }
  }

  lemma ServedTodayIs(t: Table, o: Offer)
    ensures ServedToday(t, o) <==> o == CurrentOffer(t)
  {
    if t.versions != [] {
      var n := NewestAt(t.versions);
      assert forall m :: 0 <= m < |t.versions| ==> t.versions[m] in t.versions;
      assert IsNewest(t, n);
      forall m | IsNewest(t, m) ensures m == n { assert !(m < n) && !(n < m); }
      assert IsOffer(t, n, o) <==> o == OfferOf(t, t.versions[n]);
    }
  }

  /** One of the records reads as `v`. */
  ghost predicate Reads(records: seq<Blob>, v: View) {
    exists n :: 0 <= n < |records| && DecodeBlob(records[n]).Some? && DecodeBlob(records[n]).value.view == v
  }

  // ---- The catalog ----

  /** An offer passes: both groups of other checks, and the records, which need
      declared columns. */
  ghost predicate OfferPasses(path: Path, name: Bytes, o: Offer, grammar: Grammar) {
    && o.before && o.after
    && match o.columns
       case Some(columns) => SetVerdict(Some(Owner(path, name)), columns, o.records, grammar) == Accept
       case None => o.records == []
  }

  ghost predicate AllPass(schemas: seq<Schema>, grammar: Grammar) {
    forall i, j, o :: Place(schemas, i, j) && Offered(schemas[i].tables[j], o) ==>
      OfferPasses(schemas[i].path, schemas[i].tables[j].name, o, grammar)
  }

  /** Some version of the table states `v`. */
  ghost predicate States(t: Table, v: View) { exists o :: Offered(t, o) && Reads(o.records, v) }

  /** The table serves `v` now. */
  ghost predicate ServesNow(t: Table, v: View) { exists o :: ServedToday(t, o) && Reads(o.records, v) }

  ghost predicate ServesId(t: Table, id: Bytes) { exists v :: ServesNow(t, v) && v.id == id }

  /** The table at this place is of the referenced name and serves a record of
      the referenced id. */
  ghost predicate Replies(schemas: seq<Schema>, i: int, j: int, ref: Reference) {
    && Place(schemas, i, j) && schemas[i].path == ref.schemaPath && schemas[i].tables[j].name == ref.table
    && ServesId(schemas[i].tables[j], ref.constraintId)
  }

  /** A key of the referenced id over the same columns in the same order. */
  ghost predicate HasKey(t: Table, ref: Reference) {
    exists v ::
      && ServesNow(t, v) && v.id == ref.constraintId && (v.kind.PrimaryKey? || v.kind.Unique?)
      && v.columns == ref.columns
  }

  /** No table declared before this place answers the reference. */
  ghost predicate NoneEarlier(schemas: seq<Schema>, i: int, j: int, ref: Reference) {
    forall k, l :: Earlier(k, l, i, j) ==> !Replies(schemas, k, l, ref)
  }

  /** This is the first table that answers a reference, and it has the key. */
  ghost predicate LandsAt(schemas: seq<Schema>, i: int, j: int, ref: Reference) {
    Replies(schemas, i, j, ref) && NoneEarlier(schemas, i, j, ref) && HasKey(schemas[i].tables[j], ref)
  }

  ghost predicate Lands(schemas: seq<Schema>, ref: Reference) { exists i, j :: LandsAt(schemas, i, j, ref) }

  ghost predicate AllLand(schemas: seq<Schema>) {
    forall i, j, v :: Place(schemas, i, j) && States(schemas[i].tables[j], v) && v.kind.ForeignKey? ==>
      v.references.Some? && Lands(schemas, v.references.value)
  }

  lemma PassesIs(path: Path, name: Bytes, o: Offer, grammar: Grammar)
    ensures OfferPasses(path, name, o, grammar) <==> OfferVerdict(path, name, o, grammar) == Accept
  {
  }

  lemma AllPassIs(schemas: seq<Schema>, grammar: Grammar)
    ensures AllPass(schemas, grammar) <==> AllValid(TablesOf(schemas), grammar)
  {
    var tables := TablesOf(schemas);
    TablesAre(schemas);
    if AllPass(schemas, grammar) {
      forall p, o | p in tables && o in Offers(p.table)
        ensures OfferVerdict(p.path, p.table.name, o, grammar) == Accept
      {
        var n: nat :| n < |tables| && tables[n] == p;
        var i, j := PlaceOf(schemas, |schemas|, n);
        OfferedIs(p.table, o);
        PassesIs(p.path, p.table.name, o, grammar);
      }
    }
    if AllValid(tables, grammar) {
      forall i, j, o | Place(schemas, i, j) && Offered(schemas[i].tables[j], o)
        ensures OfferPasses(schemas[i].path, schemas[i].tables[j].name, o, grammar)
      {
        var p := tables[Offset(schemas, i) + j];
        assert ValidTable(p, grammar);
        OfferedIs(p.table, o);
        PassesIs(p.path, p.table.name, o, grammar);
      }
    }
  }

  /** Records that all read are viewed one by one. */
  lemma ReadsIs(records: seq<Blob>, v: View)
    requires DecodeAll(records).Some?
    ensures Reads(records, v) <==> v in Views(records)
  {
    forall n | 0 <= n < |records|
      ensures |DecodeAll(records).value| == |records| && DecodeBlob(records[n]) == Some(DecodeAll(records).value[n])
    {
      TryMapAt(records, ReadBlob, n);
    }
    if records != [] { TryMapAt(records, ReadBlob, 0); }
    forall n | 0 <= n < |records| ensures Views(records)[n] == DecodeBlob(records[n]).value.view {}
  }

  /** Under acceptance, the views of a table are its records read one by one. */
  lemma StatesIs(p: Placed, v: View, grammar: Grammar)
    requires ValidTable(p, grammar) && v.kind.ForeignKey?
    ensures States(p.table, v) <==> StatesForeign(p.table, v)
  {
    forall o ensures Offered(p.table, o) && Reads(o.records, v) <==> o in Offers(p.table) && v in Views(o.records) {
      OfferedIs(p.table, o);
      if o in Offers(p.table) {
        AcceptedOffer(p.path, p.table.name, o, grammar);
        ReadsIs(o.records, v);
      }
    }
  }

  lemma ServesNowIs(p: Placed, v: View, grammar: Grammar)
    requires ValidTable(p, grammar)
    ensures ServesNow(p.table, v) <==> v in Current(p.table)
  {
    var current := CurrentOffer(p.table);
    CurrentIsOffered(p.table);
    AcceptedOffer(p.path, p.table.name, current, grammar);
    ReadsIs(current.records, v);
    forall o ensures ServedToday(p.table, o) <==> o == current { ServedTodayIs(p.table, o); }
  }

  /** What a valid table answers to a reference. */
  lemma RecordsAnswer(p: Placed, ref: Reference, grammar: Grammar)
    requires ValidTable(p, grammar)
    ensures ServesId(p.table, ref.constraintId) <==> HasId(Current(p.table), ref.constraintId)
    ensures HasKey(p.table, ref) <==> HoldsKey(Listed(p.path, p.table.name, Current(p.table)), ref)
  {
    var records := Current(p.table);
    forall v ensures ServesNow(p.table, v) <==> v in records { ServesNowIs(p, v, grammar); }
    CurrentIdsOnce(p, grammar);
    forall v ensures FindId(records, ref.constraintId) == Some(v) <==> v in records && v.id == ref.constraintId {
      FindIdExact(records, ref.constraintId, v);
    }
    HasIdIs(records, ref.constraintId);
  }

  lemma RepliesAt(schemas: seq<Schema>, i: nat, j: nat, p: Placed, x: Listed, ref: Reference, grammar: Grammar)
    requires Place(schemas, i, j) && p == Placed(schemas[i].path, schemas[i].tables[j]) && ValidTable(p, grammar)
    requires x == Listed(p.path, p.table.name, Current(p.table))
    ensures Replies(schemas, i, j, ref) <==> Answers(x, ref)
    ensures HasKey(schemas[i].tables[j], ref) <==> HoldsKey(x, ref)
  {
    RecordsAnswer(p, ref, grammar);
  }

  lemma ValidAt(tables: seq<Placed>, n: nat, grammar: Grammar)
    requires n < |tables| && AllValid(tables, grammar)
    ensures ValidTable(tables[n], grammar)
  {
  }

  lemma ListedAt(tables: seq<Placed>, n: nat)
    requires n < |tables|
    ensures ServedNow(tables)[n] == Listed(tables[n].path, tables[n].table.name, Current(tables[n].table))
  {
  }

  /** An answer of the search, by its place. */
  lemma RepliesIs(schemas: seq<Schema>, i: nat, j: nat, ref: Reference, grammar: Grammar)
    requires Place(schemas, i, j) && AllValid(TablesOf(schemas), grammar)
    ensures Offset(schemas, i) + j < |TablesOf(schemas)|
    ensures Replies(schemas, i, j, ref) <==> Answers(ServedNow(TablesOf(schemas))[Offset(schemas, i) + j], ref)
    ensures HasKey(schemas[i].tables[j], ref) <==> HoldsKey(ServedNow(TablesOf(schemas))[Offset(schemas, i) + j], ref)
  {
    TableAt(schemas, i, j);
    var tables, n := TablesOf(schemas), Offset(schemas, i) + j;
    ValidAt(tables, n, grammar);
    ListedAt(tables, n);
    RepliesAt(schemas, i, j, tables[n], ServedNow(tables)[n], ref, grammar);
  }

  lemma HasIdIs(records: seq<View>, id: Bytes)
    ensures HasId(records, id) <==> exists v :: v in records && v.id == id
  {
    if v :| v in records && v.id == id {
      var n :| 0 <= n < |records| && records[n] == v;
      assert records[n].id == id;
    }
  }

  predicate NoneBefore(lists: seq<Listed>, n: nat, ref: Reference) {
    n <= |lists| && forall m :: 0 <= m < n ==> !Answers(lists[m], ref)
  }

  lemma NoneAt(schemas: seq<Schema>, i: nat, j: nat, m: nat, ref: Reference, grammar: Grammar)
    requires Place(schemas, i, j) && AllValid(TablesOf(schemas), grammar) && NoneEarlier(schemas, i, j, ref)
    requires m < Offset(schemas, i) + j < |TablesOf(schemas)|
    ensures !Answers(ServedNow(TablesOf(schemas))[m], ref)
  {
    TablesCount(schemas);
    var k, l := PlaceOf(schemas, |schemas|, m);
    PlacesOrder(schemas, k, l, i, j);
    RepliesIs(schemas, k, l, ref, grammar);
  }

  lemma NoneFrom(schemas: seq<Schema>, i: nat, j: nat, k: nat, l: nat, ref: Reference, grammar: Grammar)
    requires Place(schemas, i, j) && AllValid(TablesOf(schemas), grammar)
    requires NoneBefore(ServedNow(TablesOf(schemas)), Offset(schemas, i) + j, ref)
    requires Place(schemas, k, l) && Earlier(k, l, i, j)
    ensures !Replies(schemas, k, l, ref)
  {
    PlacesOrder(schemas, k, l, i, j);
    RepliesIs(schemas, k, l, ref, grammar);
  }

  lemma NoneEarlierIs(schemas: seq<Schema>, i: nat, j: nat, ref: Reference, grammar: Grammar)
    requires Place(schemas, i, j) && AllValid(TablesOf(schemas), grammar)
    ensures NoneEarlier(schemas, i, j, ref) <==>
      NoneBefore(ServedNow(TablesOf(schemas)), Offset(schemas, i) + j, ref)
  {
    var lists, n := ServedNow(TablesOf(schemas)), Offset(schemas, i) + j;
    TableAt(schemas, i, j);
    if NoneEarlier(schemas, i, j, ref) {
      forall m | 0 <= m < n ensures !Answers(lists[m], ref) { NoneAt(schemas, i, j, m, ref, grammar); }
    }
    if NoneBefore(lists, n, ref) {
      forall k, l | Earlier(k, l, i, j) && Place(schemas, k, l) ensures !Replies(schemas, k, l, ref) {
        NoneFrom(schemas, i, j, k, l, ref, grammar);
      }
    }
  }

  lemma LandsAtIs(schemas: seq<Schema>, i: nat, j: nat, ref: Reference, grammar: Grammar)
    requires Place(schemas, i, j) && AllValid(TablesOf(schemas), grammar)
    ensures var lists, n := ServedNow(TablesOf(schemas)), Offset(schemas, i) + j;
      LandsAt(schemas, i, j, ref) <==> FirstAnswer(lists, ref, n) && HoldsKey(lists[n], ref)
  {
    var lists, n := ServedNow(TablesOf(schemas)), Offset(schemas, i) + j;
    RepliesIs(schemas, i, j, ref, grammar);
    NoneEarlierIs(schemas, i, j, ref, grammar);
    FirstIs(lists, n, ref);
  }

  lemma FirstIs(lists: seq<Listed>, n: nat, ref: Reference)
    requires n < |lists|
    ensures FirstAnswer(lists, ref, n) <==> Answers(lists[n], ref) && NoneBefore(lists, n, ref)
  {
  }

  lemma LandsIs(schemas: seq<Schema>, ref: Reference, grammar: Grammar)
    requires AllValid(TablesOf(schemas), grammar)
    ensures Lands(schemas, ref) <==> Targets(TablesOf(schemas), ref)
  {
    var lists := ServedNow(TablesOf(schemas));
    if Lands(schemas, ref) {
      var i, j :| LandsAt(schemas, i, j, ref);
      LandsAtIs(schemas, i, j, ref, grammar);
    }
    if Targets(TablesOf(schemas), ref) {
      TablesAre(schemas);
      var n: nat :| FirstAnswer(lists, ref, n) && HoldsKey(lists[n], ref);
      var i, j := PlaceOf(schemas, |schemas|, n);
      LandsAtIs(schemas, i, j, ref, grammar);
    }
  }

  /** A catalog is accepted exactly when every version of every table of every
      schema passes its own checks, and every foreign key record among them
      lands: the first declared table of the referenced path and name that now
      serves a record of the referenced id serves it as a key over the same
      columns. */
  lemma CatalogExact(schemas: seq<Schema>, grammar: Grammar)
    ensures CatalogVerdict(TablesOf(schemas), grammar) == Accept <==> AllPass(schemas, grammar) && AllLand(schemas)
  {
    ClosureExact(TablesOf(schemas), grammar);
    AllPassIs(schemas, grammar);
    if AllValid(TablesOf(schemas), grammar) { AllLandIs(schemas, grammar); }
  }

  lemma ClosedAt(schemas: seq<Schema>, p: Placed, v: View, grammar: Grammar)
    requires AllValid(TablesOf(schemas), grammar) && AllLand(schemas)
    requires p in TablesOf(schemas) && StatesForeign(p.table, v)
    ensures v.references.Some? && Targets(TablesOf(schemas), v.references.value)
  {
    var tables := TablesOf(schemas);
    TablesCount(schemas);
    var n: nat :| n < |tables| && tables[n] == p;
    var i, j := PlaceOf(schemas, |schemas|, n);
    TableAt(schemas, i, j);
    StatesIs(p, v, grammar);
    LandsIs(schemas, v.references.value, grammar);
  }

  lemma LandsFrom(schemas: seq<Schema>, i: nat, j: nat, v: View, grammar: Grammar)
    requires AllValid(TablesOf(schemas), grammar) && Closed(TablesOf(schemas))
    requires Place(schemas, i, j) && States(schemas[i].tables[j], v) && v.kind.ForeignKey?
    ensures v.references.Some? && Lands(schemas, v.references.value)
  {
    TableAt(schemas, i, j);
    var p := TablesOf(schemas)[Offset(schemas, i) + j];
    StatesIs(p, v, grammar);
    LandsIs(schemas, v.references.value, grammar);
  }

  lemma AllLandIs(schemas: seq<Schema>, grammar: Grammar)
    requires AllValid(TablesOf(schemas), grammar)
    ensures AllLand(schemas) <==> Closed(TablesOf(schemas))
  {
    if AllLand(schemas) {
      forall p, v | p in TablesOf(schemas) && StatesForeign(p.table, v)
        ensures v.references.Some? && Targets(TablesOf(schemas), v.references.value)
      {
        ClosedAt(schemas, p, v, grammar);
      }
    }
    if Closed(TablesOf(schemas)) {
      forall i, j, v | Place(schemas, i, j) && States(schemas[i].tables[j], v) && v.kind.ForeignKey?
        ensures v.references.Some? && Lands(schemas, v.references.value)
      {
        LandsFrom(schemas, i, j, v, grammar);
      }
    }
  }
}
