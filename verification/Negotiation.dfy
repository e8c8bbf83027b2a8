/** Version negotiation at ATTACH (src/catalog.cpp, `catalog_attach`). */
module Negotiation {
  import opened Basics
  import opened VersionRanges

  /** What a catalog declares of its versions. No data versions means an
      unversioned catalog, no implementation version one that reports none;
      `schemas` holds the versions that have schemas of their own, none when
      the tables do not depend on the version. */
  datatype Model = Model(
    npm: bool,
    dataVersions: seq<Bytes>,
    defaultData: Option<Bytes>,
    schemas: set<Bytes>,
    implementation: Bytes,
    implementations: seq<Bytes>)

  datatype Refusal = Data(cause: Error) | NoSchemas(version: Bytes) | Implementation(cause: Error)

  datatype Resolved = Resolved(data: Option<Bytes>, implementation: Option<Bytes>)

  /** The versions a request for an implementation may name. */
  function Implementations(m: Model): seq<Bytes> {
    if m.implementations == [] then [m.implementation] else m.implementations
  }

  /** Without ranges a request names a supported version literally. */
  function Exactly(requested: Option<Bytes>, supported: seq<Bytes>, fallback: Option<Bytes>)
    : Result<Option<Bytes>, Error>
  {
    if requested.None? then Ok(fallback)
    else if requested.value in supported then Ok(requested)
    else Err(Unsupported)
  }

  ghost predicate ByRange(requested: Option<Bytes>, supported: seq<Bytes>, fallback: Bytes,
                          r: Result<Option<Bytes>, Error>)
  {
    match r
    case Ok(v) => v.Some? && Resolves(requested, supported, fallback, Ok(v.value))
    case Err(e) => Resolves(requested, supported, fallback, Err(e))
  }

  /** The outcomes a data version request can have. */
  ghost predicate DataIs(m: Model, requested: Option<Bytes>, r: Result<Option<Bytes>, Error>) {
    if m.dataVersions == [] then r == Ok(None)
    else if m.npm then ByRange(requested, m.dataVersions, OrEmpty(m.defaultData), r)
    else r == Exactly(requested, m.dataVersions, m.defaultData)
  }

  /** Ranges apply to the implementation only where versions of it are listed. */
  ghost predicate ImplementationIs(m: Model, requested: Option<Bytes>, r: Result<Option<Bytes>, Error>) {
    if m.implementation == [] then r == Ok(None)
    else if m.npm && m.implementations != [] then ByRange(requested, m.implementations, m.implementation, r)
    else r == Exactly(requested, Implementations(m), Some(m.implementation))
  }

  method NegotiateData(m: Model, requested: Option<Bytes>) returns (r: Result<Option<Bytes>, Error>)
    ensures DataIs(m, requested, r)
  {
    if m.dataVersions == [] { return Ok(None); }
    if !m.npm { return Exactly(requested, m.dataVersions, m.defaultData); }
    var v := ResolveVersion(requested, m.dataVersions, OrEmpty(m.defaultData));
    return if v.Ok? then Ok(Some(v.value)) else Err(v.error);
  }

  method NegotiateImplementation(m: Model, requested: Option<Bytes>) returns (r: Result<Option<Bytes>, Error>)
    ensures ImplementationIs(m, requested, r)
  {
    if m.implementation == [] { return Ok(None); }
    if !(m.npm && m.implementations != []) {
      return Exactly(requested, Implementations(m), Some(m.implementation));
    }
    var v := ResolveVersion(requested, m.implementations, m.implementation);
    return if v.Ok? then Ok(Some(v.value)) else Err(v.error);
  }

  /** Where versions have schemas of their own, this one has. */
  predicate HasSchemas(m: Model, d: Option<Bytes>) { m.schemas != {} ==> OrEmpty(d) in m.schemas }

  /** The data version is settled first, then its schemas, then the
      implementation. */
  ghost predicate Outcome(m: Model, data: Option<Bytes>, implementation: Option<Bytes>, r: Result<Resolved, Refusal>) {
    match r
    case Ok(v) =>
      && DataIs(m, data, Ok(v.data)) && ImplementationIs(m, implementation, Ok(v.implementation))
      && HasSchemas(m, v.data)
    case Err(Data(e)) => DataIs(m, data, Err(e))
    case Err(NoSchemas(v)) =>
      exists d :: OrEmpty(d) == v && DataIs(m, data, Ok(d)) && !HasSchemas(m, d)
    case Err(Implementation(e)) =>
      ImplementationIs(m, implementation, Err(e)) && exists d :: DataIs(m, data, Ok(d)) && HasSchemas(m, d)
  }

  method Negotiate(m: Model, data: Option<Bytes>, implementation: Option<Bytes>) returns (r: Result<Resolved, Refusal>)
    ensures Outcome(m, data, implementation, r)
  {
    var d := NegotiateData(m, data);
    if d.Err? { return Err(Data(d.error)); }
    if !HasSchemas(m, d.value) { return Err(NoSchemas(OrEmpty(d.value))); }
    var i := NegotiateImplementation(m, implementation);
    if i.Err? { return Err(Implementation(i.error)); }
    return Ok(Resolved(d.value, i.value));
  }

  lemma ResolvedIsServed(requested: Option<Bytes>, supported: seq<Bytes>, fallback: Bytes, v: Bytes)
    requires Resolves(requested, supported, fallback, Ok(v))
    ensures v in supported || (OrEmpty(requested) == [] && v == fallback)
  {
  }

  /** ATTACH never lands on a version the worker does not serve: what it
      resolves is a supported version, or the catalog's own default where the
      caller asked for none; a catalog with schemas per version has schemas for
      the one resolved; and a caller that asks for nothing is refused only by a
      default without schemas. */
  lemma NegotiatedIsServed(m: Model, data: Option<Bytes>, implementation: Option<Bytes>, r: Result<Resolved, Refusal>)
    requires Outcome(m, data, implementation, r)
    ensures r.Ok? && r.value.data.Some? ==>
      (r.value.data.value in m.dataVersions || (OrEmpty(data) == [] && r.value.data.value == OrEmpty(m.defaultData)))
    ensures r.Ok? && r.value.implementation.Some? ==>
      (|| r.value.implementation.value in m.implementations
       || (m.implementations == [] && r.value.implementation.value == m.implementation)
       || (OrEmpty(implementation) == [] && r.value.implementation.value == m.implementation))
    ensures r.Ok? && m.schemas != {} ==>
      (match r.value.data case Some(v) => v in m.schemas case None => [] in m.schemas)
    ensures r.Err? && r.error.NoSchemas? ==> m.schemas != {} && r.error.version !in m.schemas
    ensures r.Err? && data.None? && implementation.None? ==> r.error.NoSchemas?
  {
    if r.Ok? && m.npm {
      if m.dataVersions != [] {
        ResolvedIsServed(data, m.dataVersions, OrEmpty(m.defaultData), r.value.data.value);
      }
      if m.implementation != [] && m.implementations != [] {
        ResolvedIsServed(implementation, m.implementations, m.implementation, r.value.implementation.value);
      }
    }
  }

  /** Without ranges, a versioned catalog answers a request for data with that
      very version, if and only if it is supported, and no request with its
      default; the same for a reported implementation. */
  lemma LiteralNegotiation(m: Model, requested: Option<Bytes>, r: Result<Option<Bytes>, Error>)
    requires !m.npm
    ensures m.dataVersions != [] ==> (DataIs(m, requested, r) <==>
      match requested
      case None => r == Ok(m.defaultData)
      case Some(v) => if v in m.dataVersions then r == Ok(Some(v)) else r == Err(Unsupported))
    ensures m.implementation != [] && m.implementations != [] ==> (ImplementationIs(m, requested, r) <==>
      match requested
      case None => r == Ok(Some(m.implementation))
      case Some(v) => if v in m.implementations then r == Ok(Some(v)) else r == Err(Unsupported))
  {
  }

  /** Where no implementation versions are listed, the one implementation is
      what a request may name, with ranges or without. */
  lemma OneImplementation(m: Model, requested: Option<Bytes>, r: Result<Option<Bytes>, Error>)
    requires m.implementation != [] && m.implementations == []
    ensures ImplementationIs(m, requested, r) <==>
      if requested.None? || requested.value == m.implementation then r == Ok(Some(m.implementation))
      else r == Err(Unsupported)
  {
  }

  /** With ranges, a request is answered as the range in it says, and no
      request, or an empty one, with the default. */
  lemma RangedNegotiation(m: Model, requested: Option<Bytes>, r: Result<Option<Bytes>, Error>)
    requires m.npm
    ensures m.dataVersions != [] ==> (DataIs(m, requested, r) <==>
      if requested == None || requested == Some([]) then
        r == Ok(match m.defaultData case Some(v) => Some(v) case None => Some([]))
      else ByRange(requested, m.dataVersions, [], r))
    ensures m.implementation != [] && m.implementations != [] ==> (ImplementationIs(m, requested, r) <==>
      if requested == None || requested == Some([]) then r == Ok(Some(m.implementation))
      else ByRange(requested, m.implementations, [], r))
  {
  }

  /** An unversioned catalog resolves no data version, one that reports no
      implementation none of that, whatever is asked. */
  lemma Unversioned(m: Model, requested: Option<Bytes>, r: Result<Option<Bytes>, Error>)
    ensures m.dataVersions == [] ==> (DataIs(m, requested, r) <==> r == Ok(None))
    ensures m.implementation == [] ==> (ImplementationIs(m, requested, r) <==> r == Ok(None))
  {
  }
}
