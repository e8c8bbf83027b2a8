/** The attach ticket payload (src/attach_ticket.cpp): fixed little-endian
    integers, length-prefixed UTF-8 texts, and no trailing bytes. */
module TicketPayload {
  import opened Basics
  import opened Utf8

  const MAX_TEXT := 0xFFFF
  const MAX_OPTIONS_BYTES := 16 * 1024

  /** What a ticket carries. An expiry of 0 means that it has none; an empty
      version means that none was asked for. */
  datatype Claims = Claims(
    issuedAt: int64,
    expiresAt: int64,
    ticketId: Bytes,
    catalogName: Bytes,
    dataVersionSpec: Bytes,
    implementationVersion: Bytes,
    optionsIpc: Bytes)

  datatype EncodeError = TextTooLong | OptionsTooLong

  /** 32 lowercase hexadecimal digits. */
  predicate IsTicketId(id: Bytes) {
    |id| == 32 && forall i :: 0 <= i < |id| ==> 48 <= id[i] <= 57 || 97 <= id[i] <= 102
  }

  predicate LegalLifetime(c: Claims) {
    c.expiresAt == 0 || c.expiresAt > c.issuedAt
  }

  /** Every field fits its length prefix. */
  predicate Encodable(c: Claims) {
    && |c.optionsIpc| <= MAX_OPTIONS_BYTES
    && |c.ticketId| <= MAX_TEXT && |c.catalogName| <= MAX_TEXT
    && |c.dataVersionSpec| <= MAX_TEXT && |c.implementationVersion| <= MAX_TEXT
  }

  ghost predicate TextsAreUtf8(c: Claims) {
    && IsUtf8(c.ticketId) && IsUtf8(c.catalogName)
    && IsUtf8(c.dataVersionSpec) && IsUtf8(c.implementationVersion)
  }

  /** The claims a payload can carry. */
  ghost predicate WellFormed(c: Claims) {
    && Encodable(c) && TextsAreUtf8(c)
    && IsTicketId(c.ticketId) && c.catalogName != [] && LegalLifetime(c)
  }

  // ---- The layout ----

  /** The two's-complement bits of a 64-bit integer, and back. */
  function Unsigned(v: int64): (u: nat)
    ensures u < TWO64
  {
    if v < 0 then v + TWO64 else v
  }

  function Signed(u: nat): int64
    requires u < TWO64
  {
    if u >= TWO63 then u - TWO64 else u
  }

  function TextField(t: Bytes): Bytes { LittleEndian(|t|, 2) + t }

  function Layout(c: Claims): Bytes {
    LittleEndian(Unsigned(c.issuedAt), 8)
    + (LittleEndian(Unsigned(c.expiresAt), 8)
       + (TextField(c.ticketId)
          + (TextField(c.catalogName)
             + (TextField(c.dataVersionSpec)
                + (TextField(c.implementationVersion)
                   + (LittleEndian(|c.optionsIpc|, 4) + c.optionsIpc))))))
  }

  lemma LayoutLength(c: Claims)
    ensures |Layout(c)| == 28 + |c.ticketId| + |c.catalogName| + |c.dataVersionSpec|
                           + |c.implementationVersion| + |c.optionsIpc|
  {
    assert |TextField(c.ticketId)| == 2 + |c.ticketId|;
    assert |TextField(c.catalogName)| == 2 + |c.catalogName|;
    assert |TextField(c.dataVersionSpec)| == 2 + |c.dataVersionSpec|;
    assert |TextField(c.implementationVersion)| == 2 + |c.implementationVersion|;
  }

  // ---- The strict parse, on values ----

  /** What a reader step takes from the front of the unread bytes. */
  datatype Taken<T> = Taken(value: T, rest: Bytes)

  function TakeBytes(p: Bytes, n: nat): Option<Taken<Bytes>> {
    if n > |p| then None else Some(Taken(p[..n], p[n..]))
  }

  function TakeNumber(p: Bytes, n: nat): Option<Taken<nat>> {
    var t :- TakeBytes(p, n);
    Some(Taken(FromLittleEndian(t.value), t.rest))
  }

  ghost function TakeText(p: Bytes): Option<Taken<Bytes>> {
    var length :- TakeNumber(p, 2);
    var text :- TakeBytes(length.rest, length.value);
    if IsUtf8(text.value) then Some(text) else None
  }

  function TakeInt64(p: Bytes): Option<Taken<int64>> {
    var t :- TakeBytes(p, 8);
    FromLittleEndianBound(t.value);
    Pow256Values();
    Some(Taken(Signed(FromLittleEndian(t.value)), t.rest))
  }

  datatype Texts = Texts(id: Bytes, catalog: Bytes, data: Bytes, implementation: Bytes)

  ghost function TakeTexts(p: Bytes): Option<Taken<Texts>> {
    var id :- TakeText(p);
    var catalog :- TakeText(id.rest);
    var data :- TakeText(catalog.rest);
    var implementation :- TakeText(data.rest);
    Some(Taken(Texts(id.value, catalog.value, data.value, implementation.value), implementation.rest))
  }

  function TakeOptions(p: Bytes): Option<Taken<Bytes>> {
    var size :- TakeNumber(p, 4);
    if size.value > MAX_OPTIONS_BYTES then None else TakeBytes(size.rest, size.value)
  }

  /** The whole parse; every failure is the one "invalid ticket". */
  ghost function Decode(p: Bytes): Option<Claims> {
    var issued :- TakeInt64(p);
    var expires :- TakeInt64(issued.rest);
    var texts :- TakeTexts(expires.rest);
    var options :- TakeOptions(texts.rest);
    var c := Claims(issued.value, expires.value, texts.value.id, texts.value.catalog, texts.value.data,
                    texts.value.implementation, options.value);
    if options.rest == [] && IsTicketId(c.ticketId) && c.catalogName != [] && LegalLifetime(c)
    then Some(c) else None
  }

  // ---- Each step inverts its field ----

  lemma TakeInt64OfLayout(v: int64, rest: Bytes)
    ensures TakeInt64(LittleEndian(Unsigned(v), 8) + rest) == Some(Taken(v, rest))
  {
    var b := LittleEndian(Unsigned(v), 8);
    assert (b + rest)[..8] == b && (b + rest)[8..] == rest;
    Pow256Values();
    LittleEndianRoundTrip(Unsigned(v), 8);
  }

  lemma LayoutOfTakeInt64(p: Bytes)
    requires TakeInt64(p).Some?
    ensures var t := TakeInt64(p).value; p == LittleEndian(Unsigned(t.value), 8) + t.rest
  {
    var u := FromLittleEndian(p[..8]);
    LittleEndianOnto(p[..8]);
    FromLittleEndianBound(p[..8]);
    Pow256Values();
    assert Unsigned(Signed(u)) == u;
    assert p[..8] + p[8..] == p;
  }

  lemma TakeNumberOfLayout(v: nat, n: nat, rest: Bytes)
    requires v < Pow256(n)
    ensures TakeNumber(LittleEndian(v, n) + rest, n) == Some(Taken(v, rest))
  {
    var b := LittleEndian(v, n);
    assert (b + rest)[..n] == b && (b + rest)[n..] == rest;
    LittleEndianRoundTrip(v, n);
  }

  lemma LayoutOfTakeNumber(p: Bytes, n: nat)
    requires TakeNumber(p, n).Some?
    ensures var t := TakeNumber(p, n).value;
      t.value < Pow256(n) && p == LittleEndian(t.value, n) + t.rest
  {
    LittleEndianOnto(p[..n]);
    FromLittleEndianBound(p[..n]);
    assert p[..n] + p[n..] == p;
  }

  lemma TakeTextOfLayout(text: Bytes, rest: Bytes)
    requires |text| <= MAX_TEXT && IsUtf8(text)
    ensures TakeText(TextField(text) + rest) == Some(Taken(text, rest))
  {
    Pow256Values();
    assert TextField(text) + rest == LittleEndian(|text|, 2) + (text + rest);
    TakeNumberOfLayout(|text|, 2, text + rest);
    assert (text + rest)[..|text|] == text && (text + rest)[|text|..] == rest;
  }

  lemma LayoutOfTakeText(p: Bytes)
    requires TakeText(p).Some?
    ensures var t := TakeText(p).value;
      |t.value| <= MAX_TEXT && IsUtf8(t.value) && p == TextField(t.value) + t.rest
  {
    Pow256Values();
    LayoutOfTakeNumber(p, 2);
    var length := TakeNumber(p, 2).value;
    var t := TakeText(p).value;
    assert length.rest == t.value + t.rest;
    assert p == LittleEndian(length.value, 2) + (t.value + t.rest);
  }

  // ---- The bijection ----

  /** The parse, given what each step takes. */
  lemma DecodeSteps(c: Claims, p1: Bytes, p2: Bytes, p3: Bytes, p4: Bytes, p5: Bytes, p6: Bytes,
                    p7: Bytes, size: nat, p8: Bytes)
    requires TakeInt64(p1) == Some(Taken(c.issuedAt, p2))
    requires TakeInt64(p2) == Some(Taken(c.expiresAt, p3))
    requires TakeText(p3) == Some(Taken(c.ticketId, p4))
    requires TakeText(p4) == Some(Taken(c.catalogName, p5))
    requires TakeText(p5) == Some(Taken(c.dataVersionSpec, p6))
    requires TakeText(p6) == Some(Taken(c.implementationVersion, p7))
    requires TakeNumber(p7, 4) == Some(Taken(size, p8)) && size <= MAX_OPTIONS_BYTES
    requires TakeBytes(p8, size) == Some(Taken(c.optionsIpc, []))
    requires IsTicketId(c.ticketId) && c.catalogName != [] && LegalLifetime(c)
    ensures Decode(p1) == Some(c)
  {
  }

  /** Decoding an encoding gives the claims back. */
  lemma DecodeOfLayout(c: Claims)
    requires WellFormed(c)
    ensures Decode(Layout(c)) == Some(c)
  {
    var p8 := c.optionsIpc;
    var size: nat := |p8|;
    var p7 := LittleEndian(|p8|, 4) + p8;
    var p6 := TextField(c.implementationVersion) + p7;
    var p5 := TextField(c.dataVersionSpec) + p6;
    var p4 := TextField(c.catalogName) + p5;
    var p3 := TextField(c.ticketId) + p4;
    var p2 := LittleEndian(Unsigned(c.expiresAt), 8) + p3;
    var p1 := LittleEndian(Unsigned(c.issuedAt), 8) + p2;
    assert p1 == Layout(c);
    assert TakeInt64(p1) == Some(Taken(c.issuedAt, p2)) by { TakeInt64OfLayout(c.issuedAt, p2); }
    assert TakeInt64(p2) == Some(Taken(c.expiresAt, p3)) by { TakeInt64OfLayout(c.expiresAt, p3); }
    assert TakeText(p3) == Some(Taken(c.ticketId, p4)) by { TakeTextOfLayout(c.ticketId, p4); }
    assert TakeText(p4) == Some(Taken(c.catalogName, p5)) by { TakeTextOfLayout(c.catalogName, p5); }
    assert TakeText(p5) == Some(Taken(c.dataVersionSpec, p6)) by {
      TakeTextOfLayout(c.dataVersionSpec, p6);
    }
    assert TakeText(p6) == Some(Taken(c.implementationVersion, p7)) by {
      TakeTextOfLayout(c.implementationVersion, p7);
    }
    assert TakeNumber(p7, 4) == Some(Taken(size, p8)) by {
      Pow256Values();
      TakeNumberOfLayout(|p8|, 4, p8);
    }
    assert p8[..|p8|] == p8 && p8[|p8|..] == [];
    DecodeSteps(c, p1, p2, p3, p4, p5, p6, p7, size, p8);
  }

  /** Every payload that decodes is the encoding of what it decodes to: one
      spelling per claims, and nothing ill-formed gets through. */
  lemma LayoutOfDecode(p1: Bytes)
    requires Decode(p1).Some?
    ensures WellFormed(Decode(p1).value) && Layout(Decode(p1).value) == p1
  {
    var c := Decode(p1).value;
    var p2 := TakeInt64(p1).value.rest;
    var p3 := TakeInt64(p2).value.rest;
    var p4 := TakeText(p3).value.rest;
    var p5 := TakeText(p4).value.rest;
    var p6 := TakeText(p5).value.rest;
    var p7 := TakeText(p6).value.rest;
    var p8 := TakeNumber(p7, 4).value.rest;
    assert |c.optionsIpc| == |p8| && c.optionsIpc == p8;
    assert p7 == LittleEndian(|p8|, 4) + p8 by { LayoutOfTakeNumber(p7, 4); }
    assert |c.implementationVersion| <= MAX_TEXT && IsUtf8(c.implementationVersion)
      && p6 == TextField(c.implementationVersion) + p7 by { LayoutOfTakeText(p6); }
    assert |c.dataVersionSpec| <= MAX_TEXT && IsUtf8(c.dataVersionSpec)
      && p5 == TextField(c.dataVersionSpec) + p6 by { LayoutOfTakeText(p5); }
    assert |c.catalogName| <= MAX_TEXT && IsUtf8(c.catalogName)
      && p4 == TextField(c.catalogName) + p5 by { LayoutOfTakeText(p4); }
    assert |c.ticketId| <= MAX_TEXT && IsUtf8(c.ticketId)
      && p3 == TextField(c.ticketId) + p4 by { LayoutOfTakeText(p3); }
    assert p2 == LittleEndian(Unsigned(c.expiresAt), 8) + p3 by { LayoutOfTakeInt64(p2); }
    assert p1 == LittleEndian(Unsigned(c.issuedAt), 8) + p2 by { LayoutOfTakeInt64(p1); }
  }

  /** Both directions at once: the codec is a bijection between the claims a
      ticket can carry and the payloads the parser accepts. */
  lemma DecodeExact(p: Bytes, c: Claims)
    ensures Decode(p) == Some(c) <==> WellFormed(c) && Layout(c) == p
  {
    if Decode(p) == Some(c) { LayoutOfDecode(p); }
    if WellFormed(c) && Layout(c) == p { DecodeOfLayout(c); }
  }

  // ---- The encoder, appending in place ----

  class Writer {
    var out: Bytes

    constructor ()
      ensures out == []
    {
      out := [];
    }

    /** `put_u16`, `put_u32` and `put_i64`: `n` bytes, low byte first. */
    method PutNumber(value: nat, n: nat)
      modifies this
      ensures out == old(out) + LittleEndian(value, n)
    {
      var bits, i := value, 0;
      ghost var start := out;
      while i < n
        invariant 0 <= i <= n
        invariant out + LittleEndian(bits, n - i) == start + LittleEndian(value, n)
      {
        assert out + LittleEndian(bits, n - i)
            == (out + [bits % 256]) + LittleEndian(bits / 256, n - i - 1);
        out := out + [bits % 256];
        bits, i := bits / 256, i + 1;
      }
    }

    method PutText(value: Bytes) returns (ok: bool)
      modifies this
      ensures ok <==> |value| <= MAX_TEXT
      ensures out == if ok then old(out) + TextField(value) else old(out)
    {
      if |value| > MAX_TEXT { return false; }
      PutNumber(|value|, 2);
      out := out + value;
      return true;
    }
  }

  /** The layout, associated the way an appending writer builds it. */
  lemma LayoutFlat(c: Claims, out: Bytes)
    requires out == [] + LittleEndian(Unsigned(c.issuedAt), 8)
                       + LittleEndian(Unsigned(c.expiresAt), 8)
                       + TextField(c.ticketId) + TextField(c.catalogName)
                       + TextField(c.dataVersionSpec) + TextField(c.implementationVersion)
                       + LittleEndian(|c.optionsIpc|, 4) + c.optionsIpc
    ensures out == Layout(c)
  {
    Regroup(LittleEndian(Unsigned(c.issuedAt), 8), LittleEndian(Unsigned(c.expiresAt), 8),
            TextField(c.ticketId), TextField(c.catalogName), TextField(c.dataVersionSpec),
            TextField(c.implementationVersion), LittleEndian(|c.optionsIpc|, 4), c.optionsIpc);
  }

  lemma Regroup(a: Bytes, b: Bytes, c: Bytes, d: Bytes, e: Bytes, f: Bytes, g: Bytes, h: Bytes)
    ensures [] + a + b + c + d + e + f + g + h == a + (b + (c + (d + (e + (f + (g + h))))))
  {
  }

  /** `encode_attach_ticket_payload`. It checks lengths only: it does not
      check that the texts are UTF-8, nor the rules the parser adds. */
  method EncodePayload(c: Claims) returns (r: Result<Bytes, EncodeError>)
    ensures r.Ok? <==> Encodable(c)
    ensures r.Ok? ==> r.value == Layout(c)
    ensures r == Err(OptionsTooLong) <==> |c.optionsIpc| > MAX_OPTIONS_BYTES
  {
    if |c.optionsIpc| > MAX_OPTIONS_BYTES { return Err(OptionsTooLong); }
    var w := new Writer();
    w.PutNumber(Unsigned(c.issuedAt), 8);
    w.PutNumber(Unsigned(c.expiresAt), 8);
    var ok := w.PutText(c.ticketId);
    if !ok { return Err(TextTooLong); }
    ok := w.PutText(c.catalogName);
    if !ok { return Err(TextTooLong); }
    ok := w.PutText(c.dataVersionSpec);
    if !ok { return Err(TextTooLong); }
    ok := w.PutText(c.implementationVersion);
    if !ok { return Err(TextTooLong); }
    w.PutNumber(|c.optionsIpc|, 4);
    w.out := w.out + c.optionsIpc;
    LayoutFlat(c, w.out);
    return Ok(w.out);
  }

  // ---- The parser, advancing a position ----

  /** The loop of `take_le`. */
  method Assemble(bytes: Bytes) returns (value: nat)
    ensures value == FromLittleEndian(bytes)
  {
    var weight, i := 1, 0;
    value := 0;
    while i < |bytes|
      invariant 0 <= i <= |bytes| && weight == Pow256(i)
      invariant value == FromLittleEndian(bytes[..i])
    {
      FromLittleEndianSnoc(bytes[..i], bytes[i]);
      assert bytes[..i + 1] == bytes[..i] + [bytes[i]];
      value := value + bytes[i] as int * weight;
      weight, i := weight * 256, i + 1;
    }
    assert bytes[..i] == bytes;
  }

  class Reader {
    const payload: Bytes
    var pos: nat

    constructor (payload: Bytes)
      ensures this.payload == payload && Valid() && Rest() == payload
    {
      this.payload := payload;
      pos := 0;
    }

    ghost predicate Valid() reads this { pos <= |payload| }

    /** The unread bytes. */
    ghost function Rest(): Bytes
      requires Valid()
      reads this
    {
      payload[pos..]
    }

    method Take(n: nat) returns (r: Option<Bytes>)
      requires Valid()
      modifies this
      ensures Valid()
      ensures match TakeBytes(old(Rest()), n)
              case None => r == None && Rest() == old(Rest())
              case Some(t) => r == Some(t.value) && Rest() == t.rest
    {
      if n > |payload| - pos { return None; }
      r := Some(payload[pos..pos + n]);
      assert payload[pos..][..n] == payload[pos..pos + n];
      assert payload[pos..][n..] == payload[pos + n..];
      pos := pos + n;
    }

    method TakeLittleEndian(n: nat) returns (r: Option<nat>)
      requires Valid()
      modifies this
      ensures Valid()
      ensures match TakeNumber(old(Rest()), n)
              case None => r == None
              case Some(t) => r == Some(t.value) && Rest() == t.rest
    {
      var taken := Take(n);
      if taken.None? { return None; }
      var value := Assemble(taken.value);
      return Some(value);
    }

    method Text() returns (r: Option<Bytes>)
      requires Valid()
      modifies this
      ensures Valid()
      ensures match TakeText(old(Rest()))
              case None => r == None
              case Some(t) => r == Some(t.value) && Rest() == t.rest
    {
      var length := TakeLittleEndian(2);
      if length.None? { return None; }
      r := Take(length.value);
      if r.None? { return None; }
      var ok := ValidUtf8(r.value);
      if !ok { r := None; }
    }

    method Done() returns (done: bool)
      requires Valid()
      ensures done <==> Rest() == []
    {
      done := pos == |payload|;
    }

    method FourTexts() returns (r: Option<Texts>)
      requires Valid()
      modifies this
      ensures Valid()
      ensures match TakeTexts(old(Rest()))
              case None => r == None
              case Some(t) => r == Some(t.value) && Rest() == t.rest
    {
      var id := Text();
      if id.None? { return None; }
      var catalog := Text();
      if catalog.None? { return None; }
      var data := Text();
      if data.None? { return None; }
      var implementation := Text();
      if implementation.None? { return None; }
      return Some(Texts(id.value, catalog.value, data.value, implementation.value));
    }

    method Options() returns (r: Option<Bytes>)
      requires Valid()
      modifies this
      ensures Valid()
      ensures match TakeOptions(old(Rest()))
              case None => r == None
              case Some(t) => r == Some(t.value) && Rest() == t.rest
    {
      var size := TakeLittleEndian(4);
      if size.None? || size.value > MAX_OPTIONS_BYTES { return None; }
      r := Take(size.value);
    }

    method Int64() returns (r: Option<int64>)
      requires Valid()
      modifies this
      ensures Valid()
      ensures match TakeInt64(old(Rest()))
              case None => r == None
              case Some(t) => r == Some(t.value) && Rest() == t.rest
    {
      var u := TakeLittleEndian(8);
      if u.None? { return None; }
      Pow256Values();
      FromLittleEndianBound(old(Rest())[..8]);
      return Some(Signed(u.value));
    }
  }

  /** `decode_payload`. With DecodeExact: it succeeds exactly on the layouts of
      well-formed claims, and then gives those claims. */
  method DecodePayload(p: Bytes) returns (r: Option<Claims>)
    ensures r == Decode(p)
  {
    var reader := new Reader(p);
    var issued := reader.Int64();
    if issued.None? { return None; }
    ghost var p2 := reader.Rest();
    assert TakeInt64(p) == Some(Taken(issued.value, p2));
    var expires := reader.Int64();
    if expires.None? { return None; }
    ghost var p3 := reader.Rest();
    assert TakeInt64(p2) == Some(Taken(expires.value, p3));
    var texts := reader.FourTexts();
    if texts.None? { return None; }
    ghost var p4 := reader.Rest();
    assert TakeTexts(p3) == Some(Taken(texts.value, p4));
    var options := reader.Options();
    if options.None? { return None; }
    ghost var p5 := reader.Rest();
    assert TakeOptions(p4) == Some(Taken(options.value, p5));
    var done := reader.Done();
    var c := Claims(issued.value, expires.value, texts.value.id, texts.value.catalog, texts.value.data,
                    texts.value.implementation, options.value);
    if !done || !IsTicketId(c.ticketId) || c.catalogName == [] || !LegalLifetime(c) { return None; }
    return Some(c);
  }
}
