/** The catalogs a worker serves, as far as ATTACH and registration read and
    change them (include/vgi/catalog.h, src/dispatcher.cpp). */
module Catalogs {
  import opened Basics
  import opened Wire

  datatype OptionSpec = OptionSpec(name: Bytes, ty: Bytes, default: Option<Cell>, required: bool, secret: bool)

  datatype CatalogModel = CatalogModel(name: Bytes, options: seq<OptionSpec>, schemas: seq<Path>)

  /** Position `i` holds the first catalog of the name. */
  predicate FirstAt(catalogs: seq<CatalogModel>, name: Bytes, i: nat) {
    i < |catalogs| && catalogs[i].name == name && forall j :: 0 <= j < i ==> catalogs[j].name != name
  }

  /** `find_catalog`: the first of the name. */
  function FindCatalog(catalogs: seq<CatalogModel>, name: Bytes): Option<CatalogModel> {
    if catalogs == [] then None
    else if catalogs[0].name == name then Some(catalogs[0])
    else FindCatalog(catalogs[1..], name)
  }

  lemma {:induction false} FindCatalogIs(catalogs: seq<CatalogModel>, name: Bytes, i: nat)
    requires i <= |catalogs| && forall j :: 0 <= j < i ==> catalogs[j].name != name
    requires i < |catalogs| ==> catalogs[i].name == name
    ensures FindCatalog(catalogs, name) == if i < |catalogs| then Some(catalogs[i]) else None
  {
    if i > 0 { FindCatalogIs(catalogs[1..], name, i - 1); }
  }

  /** The search by name. */
  method Locate(catalogs: seq<CatalogModel>, name: Bytes) returns (at: nat)
    ensures at < |catalogs| ==> FirstAt(catalogs, name, at)
    ensures at >= |catalogs| ==> at == |catalogs| && forall j :: 0 <= j < |catalogs| ==> catalogs[j].name != name
    ensures FindCatalog(catalogs, name) == if at < |catalogs| then Some(catalogs[at]) else None
  {
    at := 0;
    while at < |catalogs| && catalogs[at].name != name
      invariant 0 <= at <= |catalogs| && forall j :: 0 <= j < at ==> catalogs[j].name != name
    {
      at := at + 1;
    }
    FindCatalogIs(catalogs, name, at);
  }
}
