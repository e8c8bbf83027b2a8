/** The six collections of a catalog snapshot, and the bytes its content hash
    is taken over (src/catalog_contents.cpp, `encode_collections`,
    `collections_digest`). */
module ContentsFrame {
  import opened Basics
  import opened SchemaPaths

  /** Schemas, tables, views, functions, macros, indexes: each one stream of
      that kind's items, or nothing when there are none. */
  type Collections = c: seq<Option<Bytes>> | |c| == 6 witness [None, None, None, None, None, None]

  const NOTHING: Collections := [None, None, None, None, None, None]

  const NAMES := ["schemas", "tables", "views", "functions", "macros", "indexes"]

  const DOMAIN: Bytes := Ascii("vgi.catalog.contents.2.2") + [0]

  // ---- Encoding ----

  /** The stream of a list of items; it fails on an item that is no batch. */
  type Stream = seq<Bytes> -> Option<Bytes>

  /** One schema's items of a kind. */
  type Kind = SchemaContents -> seq<Bytes>

  function InfoItem(s: SchemaContents): seq<Bytes> { [s.info] }

  function TablesIn(s: SchemaContents): seq<Bytes> { s.tables }

  function ViewsIn(s: SchemaContents): seq<Bytes> { s.views }

  function IndexesIn(s: SchemaContents): seq<Bytes> { s.indexes }

  /** Functions of every subtype share a stream, both macro kinds another. */
  function FunctionItems(s: SchemaContents): seq<Bytes> {
    s.scalarFunctions + s.aggregateFunctions + s.tableFunctions
  }

  function MacroItems(s: SchemaContents): seq<Bytes> { s.scalarMacros + s.tableMacros }

  /** A kind's items over all schemas, in the order given. */
  function Gathered(schemas: seq<SchemaContents>, kind: Kind): seq<Bytes> {
    if schemas == [] then [] else Gathered(schemas[..|schemas| - 1], kind) + kind(schemas[|schemas| - 1])
  }

  lemma {:induction false} GatheredConcat(a: seq<SchemaContents>, b: seq<SchemaContents>, kind: Kind)
    ensures Gathered(a + b, kind) == Gathered(a, kind) + Gathered(b, kind)
  {
    if b == [] {
      assert a + b == a;
    } else {
      var init := b[..|b| - 1];
      assert (a + b)[..|a + b| - 1] == a + init;
      GatheredConcat(a, init, kind);
    }
  }

  lemma GatheredCons(s: SchemaContents, rest: seq<SchemaContents>, kind: Kind)
    ensures Gathered([s] + rest, kind) == kind(s) + Gathered(rest, kind)
  {
    GatheredConcat([s], rest, kind);
    assert [s][..0] == [];
    assert Gathered([s], kind) == kind(s);
  }

  lemma {:induction false} InsertKeepsItems(s: SchemaContents, sorted: seq<SchemaContents>, kind: Kind)
    ensures multiset(Gathered(InsertFirst(s, sorted), kind)) == multiset(kind(s)) + multiset(Gathered(sorted, kind))
  {
    if sorted == [] || |s.path| <= |sorted[0].path| {
      GatheredCons(s, sorted, kind);
    } else {
      var head, tail := sorted[0], sorted[1..];
      InsertKeepsItems(s, tail, kind);
      GatheredCons(head, InsertFirst(s, tail), kind);
      GatheredCons(head, tail, kind);
      assert sorted == [head] + tail;
    }
  }

  /** Serving parents first neither loses, repeats nor adds an item of any
      kind. */
  lemma {:induction false} OrderKeepsItems(schemas: seq<SchemaContents>, kind: Kind)
    ensures multiset(Gathered(ParentsFirst(schemas), kind)) == multiset(Gathered(schemas, kind))
  {
    if schemas != [] {
      var s, tail := schemas[0], schemas[1..];
      OrderKeepsItems(tail, kind);
      InsertKeepsItems(s, ParentsFirst(tail), kind);
      GatheredCons(s, tail, kind);
      assert schemas == [s] + tail;
    }
  }

  /** An empty kind has no stream. */
  function Concat(stream: Stream, items: seq<Bytes>): Option<Option<Bytes>> {
    if items == [] then Some(None)
    else
      var bytes :- stream(items);
      Some(Some(bytes))
  }

  function Encode(stream: Stream, schemas: seq<SchemaContents>): Option<Collections> {
    var infos :- Concat(stream, Gathered(schemas, InfoItem));
    var tables :- Concat(stream, Gathered(schemas, TablesIn));
    var views :- Concat(stream, Gathered(schemas, ViewsIn));
    var functions :- Concat(stream, Gathered(schemas, FunctionItems));
    var macros :- Concat(stream, Gathered(schemas, MacroItems));
    var indexes :- Concat(stream, Gathered(schemas, IndexesIn));
    Some([infos, tables, views, functions, macros, indexes])
  }

  /** The gathering loop: every kind in one pass over the schemas. */
  method Gather(schemas: seq<SchemaContents>)
      returns (infos: seq<Bytes>, tables: seq<Bytes>, views: seq<Bytes>, functions: seq<Bytes>, macros: seq<Bytes>,
               indexes: seq<Bytes>)
    ensures infos == Gathered(schemas, InfoItem) && functions == Gathered(schemas, FunctionItems)
    ensures macros == Gathered(schemas, MacroItems) && tables == Gathered(schemas, TablesIn)
    ensures views == Gathered(schemas, ViewsIn)
    ensures indexes == Gathered(schemas, IndexesIn)
  {
    infos, tables, views, functions, macros, indexes := [], [], [], [], [], [];
    for i := 0 to |schemas|
      invariant infos == Gathered(schemas[..i], InfoItem) && functions == Gathered(schemas[..i], FunctionItems)
      invariant macros == Gathered(schemas[..i], MacroItems)
      invariant tables == Gathered(schemas[..i], TablesIn)
      invariant views == Gathered(schemas[..i], ViewsIn)
      invariant indexes == Gathered(schemas[..i], IndexesIn)
    {
      assert schemas[..i + 1][..i] == schemas[..i];
      var s := schemas[i];
      infos, tables, views := infos + [s.info], tables + s.tables, views + s.views;
      functions := functions + (s.scalarFunctions + s.aggregateFunctions + s.tableFunctions);
      macros, indexes := macros + (s.scalarMacros + s.tableMacros), indexes + s.indexes;
    }
    assert schemas[..|schemas|] == schemas;
  }

  method EncodeCollections(stream: Stream, schemas: seq<SchemaContents>) returns (r: Option<Collections>)
    ensures r == Encode(stream, schemas)
  {
    var infos, tables, views, functions, macros, indexes := Gather(schemas);
    var c0 :- Concat(stream, infos);
    var c1 :- Concat(stream, tables);
    var c2 :- Concat(stream, views);
    var c3 :- Concat(stream, functions);
    var c4 :- Concat(stream, macros);
    var c5 :- Concat(stream, indexes);
    return Some([c0, c1, c2, c3, c4, c5]);
  }

  // ---- Framing ----

  /** A name, a presence byte and, when present, the length and the bytes. */
  function FrameOne(name: Bytes, data: Option<Bytes>): Bytes {
    name + [0] + if data.None? then [0] else [1] + LittleEndian(|data.value|, 8) + data.value
  }

  function FrameUpTo(c: Collections, n: nat): Bytes
    requires n <= 6
  {
    if n == 0 then DOMAIN else FrameUpTo(c, n - 1) + FrameOne(Ascii(NAMES[n - 1]), c[n - 1])
  }

  function Frame(c: Collections): Bytes { FrameUpTo(c, 6) }

  /** Stream lengths fit the 64-bit length of a frame. */
  predicate Representable(c: Collections) {
    forall i :: 0 <= i < 6 && c[i].Some? ==> |c[i].value| < TWO64
  }

  lemma SizedSplits(a: Bytes, b: Bytes, x: Bytes, y: Bytes)
    requires |a| < TWO64 && |b| < TWO64
    requires LittleEndian(|a|, 8) + (a + x) == LittleEndian(|b|, 8) + (b + y)
    ensures a == b && x == y
  {
    var s, t := LittleEndian(|a|, 8) + (a + x), LittleEndian(|b|, 8) + (b + y);
    assert s[..8] == LittleEndian(|a|, 8) && t[..8] == LittleEndian(|b|, 8);
    Pow256Values();
    LittleEndianRoundTrip(|a|, 8);
    LittleEndianRoundTrip(|b|, 8);
    assert s[8..] == a + x && t[8..] == b + y;
    assert (a + x)[..|a|] == a && (b + y)[..|a|] == b;
    assert (a + x)[|a|..] == x && (b + y)[|a|..] == y;
  }

  /** What is read back after a name: the frame is self-delimiting. */
  lemma FrameOneSplits(name: Bytes, a: Option<Bytes>, b: Option<Bytes>, x: Bytes, y: Bytes)
    requires a.Some? ==> |a.value| < TWO64
    requires b.Some? ==> |b.value| < TWO64
    requires FrameOne(name, a) + x == FrameOne(name, b) + y
    ensures a == b && x == y
  {
    var s, t := FrameOne(name, a) + x, FrameOne(name, b) + y;
    FrameOneTail(name, a, x);
    FrameOneTail(name, b, y);
    assert s[|name| + 1] == t[|name| + 1] && s[|name| + 2..] == t[|name| + 2..];
    if a.Some? { SizedSplits(a.value, b.value, x, y); }
  }

  lemma FrameOneTail(name: Bytes, a: Option<Bytes>, x: Bytes)
    ensures var s, n := FrameOne(name, a) + x, |name| + 1;
      && n < |s| && s[n] == (if a.Some? then 1 else 0)
      && s[n + 1..] == if a.Some? then LittleEndian(|a.value|, 8) + (a.value + x) else x
  {
    if a.Some? {
      var size := LittleEndian(|a.value|, 8);
      assert FrameOne(name, a) + x == (name + [0] + [1]) + (size + (a.value + x)) by {
        Regroup([], name, size, a.value);
      }
    }
  }

  /** The frame from collection `n` on. */
  function FrameFrom(c: Collections, n: nat): Bytes
    requires n <= 6
    decreases 6 - n
  {
    if n == 6 then [] else FrameOne(Ascii(NAMES[n]), c[n]) + FrameFrom(c, n + 1)
  }

  lemma {:induction false} FrameHalves(c: Collections, n: nat)
    requires n <= 6
    ensures Frame(c) == FrameUpTo(c, n) + FrameFrom(c, n)
    decreases 6 - n
  {
    if n < 6 {
      FrameHalves(c, n + 1);
      var one := FrameOne(Ascii(NAMES[n]), c[n]);
      Associate(FrameUpTo(c, n), one, FrameFrom(c, n + 1));
    }
  }

  lemma Associate(a: Bytes, b: Bytes, c: Bytes)
    ensures (a + b) + c == a + (b + c)
  {
  }

  lemma {:induction false} FrameFromInjective(a: Collections, b: Collections, n: nat)
    requires Representable(a) && Representable(b) && n <= 6 && FrameFrom(a, n) == FrameFrom(b, n)
    ensures a[n..] == b[n..]
    decreases 6 - n
  {
    if n < 6 {
      FrameOneSplits(Ascii(NAMES[n]), a[n], b[n], FrameFrom(a, n + 1), FrameFrom(b, n + 1));
      FrameFromInjective(a, b, n + 1);
      assert a[n..] == [a[n]] + a[n + 1..] && b[n..] == [b[n]] + b[n + 1..];
    }
  }

  /** Different collections are hashed as different bytes. */
  lemma FrameInjective(a: Collections, b: Collections)
    requires Representable(a) && Representable(b)
    ensures Frame(a) == Frame(b) <==> a == b
  {
    if Frame(a) == Frame(b) {
      FrameHalves(a, 0);
      FrameHalves(b, 0);
      assert FrameFrom(a, 0) == Frame(a)[|DOMAIN|..] && FrameFrom(b, 0) == Frame(b)[|DOMAIN|..];
      FrameFromInjective(a, b, 0);
      assert a[0..] == a && b[0..] == b;
    }
  }

  // ---- The hashing loop ----

  /** A hash that is fed piece by piece; what it has absorbed decides its
      digest. */
  class Sha256 {
    var absorbed: Bytes

    constructor ()
      ensures absorbed == []
    {
      absorbed := [];
    }

    method Update(data: Bytes)
      modifies this
      ensures absorbed == old(absorbed) + data
    {
      absorbed := absorbed + data;
    }
  }

  /** The eight bytes of a length, shifted out lowest first. */
  method SizeBytes(size: nat) returns (bytes: Bytes)
    ensures bytes == LittleEndian(size, 8)
  {
    bytes := [];
    var bits := size;
    for b := 0 to 8
      invariant bytes + LittleEndian(bits, 8 - b) == LittleEndian(size, 8)
    {
      assert bytes + LittleEndian(bits, 8 - b) == (bytes + [bits % 256]) + LittleEndian(bits / 256, 7 - b);
      bytes, bits := bytes + [bits % 256], bits / 256;
    }
  }

  /** One collection's turn of the loop. */
  method AbsorbOne(hash: Sha256, name: Bytes, data: Option<Bytes>)
    modifies hash
    ensures hash.absorbed == old(hash.absorbed) + FrameOne(name, data)
  {
    ghost var before := hash.absorbed;
    hash.Update(name);
    hash.Update([0]);
    hash.Update([if data.Some? then 1 else 0]);
    if data.None? { return; }
    var size := SizeBytes(|data.value|);
    hash.Update(size);
    hash.Update(data.value);
    Regroup(before, name, size, data.value);
  }

  lemma Regroup(a: Bytes, b: Bytes, c: Bytes, d: Bytes)
    ensures a + b + [0] + [1] + c + d == a + (b + [0] + ([1] + c + d))
  {
  }

  /** What `collections_digest` feeds its hash. */
  method Absorb(c: Collections) returns (bytes: Bytes)
    ensures bytes == Frame(c)
  {
    var hash := new Sha256();
    hash.Update(Ascii("vgi.catalog.contents.2.2"));
    hash.Update([0]);
    for i := 0 to 6
      invariant hash.absorbed == FrameUpTo(c, i)
    {
      AbsorbOne(hash, Ascii(NAMES[i]), c[i]);
    }
    return hash.absorbed;
  }
}
