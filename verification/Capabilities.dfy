/** Catalog capability negotiation (src/constraints.cpp,
    `select_catalog_capabilities`). */
module Capabilities {
  const RECORDS := "vgi.constraint.records.read.v1"
  const SCALAR := "vgi.expression.duckdb.scalar.v1"
  const CREATE := "vgi.constraint.create.v1"
  const ENFORCE := "vgi.constraint.enforce.v1"

  /** Profile names by category. */
  datatype Profiles = Profiles(read: seq<string>, ddl: seq<string>, write: seq<string>, transaction: seq<string>)

  function Filter(list: seq<string>, keep: string -> bool): seq<string> {
    if list == [] then []
    else Filter(list[..|list| - 1], keep) + if keep(list[|list| - 1]) then [list[|list| - 1]] else []
  }

  lemma {:induction false} FilterIn(list: seq<string>, keep: string -> bool, x: string)
    ensures x in Filter(list, keep) <==> x in list && keep(x)
  {
    if list != [] {
      var init := list[..|list| - 1];
      assert list == init + [list[|list| - 1]];
      FilterIn(init, keep, x);
    }
  }

  /** Filters that agree on a list's members agree on the list. */
  lemma {:induction false} FilterSame(list: seq<string>, p: string -> bool, q: string -> bool)
    requires forall x :: x in list ==> p(x) == q(x)
    ensures Filter(list, p) == Filter(list, q)
  {
    if list != [] {
      var init := list[..|list| - 1];
      assert list == init + [list[|list| - 1]];
      FilterSame(init, p, q);
    }
  }

  lemma {:induction false} FilterTwice(list: seq<string>, p: string -> bool, q: string -> bool)
    ensures Filter(Filter(list, p), q) == Filter(list, x => p(x) && q(x))
  {
    if list != [] {
      var init, last := list[..|list| - 1], list[|list| - 1];
      FilterTwice(init, p, q);
      var f := Filter(init, p);
      if p(last) {
        assert Filter(list, p) == f + [last];
        assert (f + [last])[..|f|] == f;
      } else {
        assert Filter(list, p) == f;
      }
    }
  }

  lemma {:induction false} FilterAll(list: seq<string>, p: string -> bool)
    requires forall x :: x in list ==> p(x)
    ensures Filter(list, p) == list
  {
    if list != [] {
      var init := list[..|list| - 1];
      assert list == init + [list[|list| - 1]];
      FilterAll(init, p);
    }
  }

  // ---- Selection ----

  /** What the worker offers of what the client asks. */
  function Shared(mine: seq<string>, theirs: seq<string>): seq<string> { Filter(mine, x => x in theirs) }

  function Without(list: seq<string>, profile: string): seq<string> { Filter(list, x => x != profile) }

  function Select(available: Profiles, offered: Profiles): Profiles {
    var read := Shared(available.read, offered.read);
    var ddl := Shared(available.ddl, offered.ddl);
    var write := Shared(available.write, offered.write);
    var records := RECORDS in read;
    var read' := if records then read else Without(read, SCALAR);
    var ddl' := if records then ddl else Without(ddl, CREATE);
    var write' := if records then write else Without(write, ENFORCE);
    Profiles(read', if ENFORCE in write' then ddl' else Without(ddl', CREATE), write',
             Shared(available.transaction, offered.transaction))
  }

  method IntersectLists(mine: seq<string>, theirs: seq<string>) returns (out: seq<string>)
    ensures out == Shared(mine, theirs)
  {
    out := [];
    for i := 0 to |mine|
      invariant out == Shared(mine[..i], theirs)
    {
      assert mine[..i + 1][..i] == mine[..i];
      if mine[i] in theirs { out := out + [mine[i]]; }
    }
    assert mine[..|mine|] == mine;
  }

  method Erase(list: seq<string>, profile: string) returns (out: seq<string>)
    ensures out == Without(list, profile)
  {
    out := [];
    for i := 0 to |list|
      invariant out == Without(list[..i], profile)
    {
      assert list[..i + 1][..i] == list[..i];
      if list[i] != profile { out := out + [list[i]]; }
    }
    assert list[..|list|] == list;
  }

  method SelectCapabilities(available: Profiles, offered: Profiles) returns (out: Profiles)
    ensures out == Select(available, offered)
  {
    var read := IntersectLists(available.read, offered.read);
    var ddl := IntersectLists(available.ddl, offered.ddl);
    var write := IntersectLists(available.write, offered.write);
    var transaction := IntersectLists(available.transaction, offered.transaction);
    if RECORDS !in read {
      ErasedKeepsOthers(read, SCALAR, RECORDS);
      read := Erase(read, SCALAR);
      ddl := Erase(ddl, CREATE);
      write := Erase(write, ENFORCE);
    }
    if ENFORCE !in write { ddl := Erase(ddl, CREATE); }
    out := Profiles(read, ddl, write, transaction);
  }

  lemma ErasedKeepsOthers(list: seq<string>, profile: string, other: string)
    ensures other in Without(list, profile) <==> other in list && other != profile
  {
    FilterIn(list, x => x != profile, other);
  }

  // ---- What is selected ----

  /** None of the three outlives the records profile, and CREATE needs an
      authority that enforces. */
  predicate Closed(p: Profiles) {
    && (RECORDS in p.read || (SCALAR !in p.read && CREATE !in p.ddl && ENFORCE !in p.write))
    && (ENFORCE in p.write || CREATE !in p.ddl)
  }

  predicate Within(p: Profiles, q: Profiles) {
    && (forall x :: x in p.read ==> x in q.read) && (forall x :: x in p.ddl ==> x in q.ddl)
    && (forall x :: x in p.write ==> x in q.write) && (forall x :: x in p.transaction ==> x in q.transaction)
  }

  lemma NamesDiffer()
    ensures SCALAR != RECORDS
  {
    assert SCALAR[4] == 'e' && RECORDS[4] == 'c';
  }

  /** Membership in each selected list. */
  lemma Members(available: Profiles, offered: Profiles, x: string)
    ensures var s := Select(available, offered);
      var records := RECORDS in available.read && RECORDS in offered.read;
      var enforce := records && ENFORCE in available.write && ENFORCE in offered.write;
      && (x in s.read <==> x in available.read && x in offered.read && (records || x != SCALAR))
      && (x in s.write <==> x in available.write && x in offered.write && (records || x != ENFORCE))
      && (x in s.ddl <==> x in available.ddl && x in offered.ddl && (enforce || x != CREATE))
      && (x in s.transaction <==> x in available.transaction && x in offered.transaction)
  {
    SharedIn(available.read, offered.read, RECORDS);
    SharedIn(available.write, offered.write, ENFORCE);
    SharedIn(available.read, offered.read, x);
    SharedIn(available.ddl, offered.ddl, x);
    SharedIn(available.write, offered.write, x);
    SharedIn(available.transaction, offered.transaction, x);
    var read := Shared(available.read, offered.read);
    var ddl := Shared(available.ddl, offered.ddl);
    var write := Shared(available.write, offered.write);
    ErasedKeepsOthers(read, SCALAR, x);
    ErasedKeepsOthers(ddl, CREATE, x);
    ErasedKeepsOthers(Without(ddl, CREATE), CREATE, x);
    ErasedKeepsOthers(write, ENFORCE, x);
    ErasedKeepsOthers(write, ENFORCE, ENFORCE);
  }

  lemma SharedIn(mine: seq<string>, theirs: seq<string>, x: string)
    ensures x in Shared(mine, theirs) <==> x in mine && x in theirs
  {
    FilterIn(mine, y => y in theirs, x);
  }

  /** The selection is the greatest closed set of profiles that both sides
      name: closed itself, within both, and containing every other such set. */
  lemma SelectIsGreatest(available: Profiles, offered: Profiles, p: Profiles)
    ensures Closed(Select(available, offered))
    ensures Within(Select(available, offered), available) && Within(Select(available, offered), offered)
    ensures Closed(p) && Within(p, available) && Within(p, offered) ==> Within(p, Select(available, offered))
  {
    NamesDiffer();
    forall x { Members(available, offered, x); }
  }

  /** More on offer never selects less. */
  lemma SelectIsMonotone(available: Profiles, offered: Profiles, more: Profiles)
    requires Within(offered, more)
    ensures Within(Select(available, offered), Select(available, more))
  {
    SelectIsGreatest(available, offered, available);
    SelectIsGreatest(available, more, Select(available, offered));
  }

  /** The selection keeps the worker's own order: it is each available list
      with what was not selected left out. */
  lemma SelectKeepsOrder(available: Profiles, offered: Profiles)
    ensures var s := Select(available, offered);
      && s.read == Filter(available.read, x => x in s.read)
      && s.ddl == Filter(available.ddl, x => x in s.ddl)
      && s.write == Filter(available.write, x => x in s.write)
      && s.transaction == Filter(available.transaction, x => x in s.transaction)
  {
    var s := Select(available, offered);
    ErasedTwice(Shared(available.ddl, offered.ddl), CREATE);
    OrderOf(available.read, offered.read, SCALAR, s.read);
    OrderOf(available.write, offered.write, ENFORCE, s.write);
    OrderOf(available.ddl, offered.ddl, CREATE, s.ddl);
    OrderOf(available.transaction, offered.transaction, CREATE, s.transaction);
  }

  lemma ErasedTwice(list: seq<string>, profile: string)
    ensures Without(Without(list, profile), profile) == Without(list, profile)
  {
    forall x ensures x in Without(list, profile) ==> x != profile { ErasedKeepsOthers(list, profile, x); }
    FilterAll(Without(list, profile), x => x != profile);
  }

  lemma OrderOf(mine: seq<string>, theirs: seq<string>, profile: string, result: seq<string>)
    ensures result == Shared(mine, theirs) || result == Without(Shared(mine, theirs), profile) ==>
      result == Filter(mine, x => x in result)
  {
    var p, q := x => x in theirs, x => x != profile;
    if result == Shared(mine, theirs) {
      forall x | x in mine ensures p(x) == (x in result) { FilterIn(mine, p, x); }
      FilterSame(mine, p, x => x in result);
    } else if result == Without(Shared(mine, theirs), profile) {
      FilterTwice(mine, p, q);
      forall x | x in mine ensures (p(x) && q(x)) == (x in result) {
        FilterIn(mine, p, x);
        FilterIn(Shared(mine, theirs), q, x);
      }
      FilterSame(mine, x => p(x) && q(x), x => x in result);
    }
  }

  /** Selecting again, from the selection or against it, changes nothing. */
  lemma SelectIsIdempotent(available: Profiles, offered: Profiles)
    ensures Select(Select(available, offered), offered) == Select(available, offered)
    ensures Select(available, Select(available, offered)) == Select(available, offered)
  {
    var s := Select(available, offered);
    SelectIsGreatest(available, offered, s);
    SelectIsGreatest(s, offered, s);
    SelectIsGreatest(available, s, s);
    SelectKeepsOrder(s, offered);
    SelectKeepsOrder(available, s);
    SelectKeepsOrder(available, offered);
    SameFilters(s, Select(s, offered), s);
    SameFilters(available, Select(available, s), s);
    FilterAll(s.read, x => x in s.read);
    FilterAll(s.ddl, x => x in s.ddl);
    FilterAll(s.write, x => x in s.write);
    FilterAll(s.transaction, x => x in s.transaction);
  }

  lemma SameFilters(base: Profiles, p: Profiles, q: Profiles)
    requires Within(p, q) && Within(q, p)
    ensures Filter(base.read, x => x in p.read) == Filter(base.read, x => x in q.read)
    ensures Filter(base.ddl, x => x in p.ddl) == Filter(base.ddl, x => x in q.ddl)
    ensures Filter(base.write, x => x in p.write) == Filter(base.write, x => x in q.write)
    ensures Filter(base.transaction, x => x in p.transaction) == Filter(base.transaction, x => x in q.transaction)
  {
    FilterSame(base.read, x => x in p.read, x => x in q.read);
    FilterSame(base.ddl, x => x in p.ddl, x => x in q.ddl);
    FilterSame(base.write, x => x in p.write, x => x in q.write);
    FilterSame(base.transaction, x => x in p.transaction, x => x in q.transaction);
  }
}
