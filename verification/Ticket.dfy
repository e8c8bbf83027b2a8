/** Minting and opening attach tickets (src/attach_ticket.cpp): an AEAD
    envelope bound to the caller, spelled in canonical base64url, with a
    lifetime inside the ciphertext. */
module Ticket {
  import opened Basics
  import opened TicketPayload

  const ENVELOPE_VERSION: byte := 1
  const NONCE_BYTES := 24
  const TAG_BYTES := 16
  const MAX_CHARS := 32 * 1024
  const SKEW_SECONDS: real := 60.0

  /** `vgia1.` */
  const PREFIX: Bytes := [118, 103, 105, 97, 49, 46]
  /** `vgi.attach_ticket.v1` and its terminating NUL. */
  const AAD_DOMAIN: Bytes := Ascii("vgi.attach_ticket.v1") + [0]

  /** The library calls a ticket is built from: AEAD seal (key, nonce, text,
      associated data) and open (key, sealed, associated data), and unpadded
      base64url. */
  datatype Crypto = Crypto(
    seal: (Bytes, Bytes, Bytes, Bytes) -> Bytes,
    open: (Bytes, Bytes, Bytes) -> Option<Bytes>,
    encode: Bytes -> Bytes,
    decode: Bytes -> Option<Bytes>)

  predicate IsNonce(n: Bytes) { |n| == NONCE_BYTES }

  /** A sealed value opens exactly under the key and associated data it was
      sealed with, and nothing else opens. */
  ghost predicate IdealAead(x: Crypto) {
    && (forall k, n, p, a :: IsNonce(n) ==> |x.seal(k, n, p, a)| >= NONCE_BYTES + TAG_BYTES)
    && (forall k, n, p, a :: IsNonce(n) ==> x.open(k, x.seal(k, n, p, a), a) == Some(p))
    && (forall k, s, a :: x.open(k, s, a).Some? ==>
          exists n :: IsNonce(n) && x.seal(k, n, x.open(k, s, a).value, a) == s)
    && (forall k, n, p, a, k', n', p', a' ::
          IsNonce(n) && IsNonce(n') && x.seal(k, n, p, a) == x.seal(k', n', p', a') ==>
          k == k' && a == a')
  }

  /** The base64url alphabet of section 5 of RFC 4648. */
  predicate InAlphabet(text: Bytes) {
    forall i :: 0 <= i < |text| ==>
      48 <= text[i] <= 57 || 65 <= text[i] <= 90 || 97 <= text[i] <= 122 || text[i] == 45 || text[i] == 95
  }

  ghost predicate LawfulBase64(x: Crypto) {
    && (forall raw :: x.decode(x.encode(raw)) == Some(raw))
    && (forall raw :: InAlphabet(x.encode(raw)) && |x.encode(raw)| % 4 != 1)
    && (forall raw :: raw != [] ==> x.encode(raw) != [])
  }

  /** `b64url_strict`. */
  function StrictDecode(x: Crypto, text: Bytes): Option<Bytes> {
    if text == [] || !InAlphabet(text) || |text| % 4 == 1 then None
    else
      var raw :- x.decode(text);
      if x.encode(raw) != text then None else Some(raw)
  }

  /** The gate lets through exactly the canonical spellings: so a byte string
      has one accepted text. */
  lemma StrictDecodeExact(x: Crypto, text: Bytes, raw: Bytes)
    requires LawfulBase64(x)
    ensures StrictDecode(x, text) == Some(raw) <==> text != [] && x.encode(raw) == text
  {
    assert x.decode(x.encode(raw)) == Some(raw);
  }

  function Aad(principal: Bytes): Bytes { AAD_DOMAIN + principal }

  lemma AadInjective(p: Bytes, q: Bytes)
    ensures Aad(p) == Aad(q) <==> p == q
  {
    assert Aad(p)[|AAD_DOMAIN|..] == p;
    assert Aad(q)[|AAD_DOMAIN|..] == q;
  }

  // ---- Mint ----

  datatype MintError = NoPrincipal | NoCatalog | BadTicketId | EmptyLifetime
    | Unencodable(cause: EncodeError) | TokenTooLong

  function Envelope(sealed: Bytes): Bytes { [ENVELOPE_VERSION] + sealed }

  /** `mint_attach_ticket`. */
  function Mint(x: Crypto, key: Bytes, principal: Bytes, c: Claims, nonce: Bytes): Result<Bytes, MintError> {
    if principal == [] then Err(NoPrincipal)
    else if c.catalogName == [] then Err(NoCatalog)
    else if !IsTicketId(c.ticketId) then Err(BadTicketId)
    else if !LegalLifetime(c) then Err(EmptyLifetime)
    else if |c.optionsIpc| > MAX_OPTIONS_BYTES then Err(Unencodable(OptionsTooLong))
    else if !Encodable(c) then Err(Unencodable(TextTooLong))
    else
      var token := PREFIX + x.encode(Envelope(x.seal(key, nonce, Layout(c), Aad(principal))));
      if |token| > MAX_CHARS then Err(TokenTooLong) else Ok(token)
  }

  /** What is minted: a principal's claims of a catalog, under an id of 32
      lowercase hexadecimal digits, that end after they begin or never, with
      texts of at most 65535 bytes and options of at most 16 KiB, as a token of
      at most 32768 characters. */
  lemma MintExact(x: Crypto, key: Bytes, principal: Bytes, c: Claims, nonce: Bytes)
    ensures var r := Mint(x, key, principal, c, nonce);
      var token := [118, 103, 105, 97, 49, 46] + x.encode([1] + x.seal(key, nonce, Layout(c), Aad(principal)));
      && (r.Ok? <==>
            && principal != [] && c.catalogName != [] && (c.expiresAt == 0 || c.issuedAt < c.expiresAt)
            && |c.ticketId| == 32
            && (forall i :: 0 <= i < 32 ==> 48 <= c.ticketId[i] <= 57 || 97 <= c.ticketId[i] <= 102)
            && |c.catalogName| < 65536 && |c.dataVersionSpec| < 65536 && |c.implementationVersion| < 65536
            && |c.optionsIpc| <= 16384 && |token| <= 32768)
      && (r.Ok? ==> r.value == token)
  {
  }

  // ---- Open ----

  /** Every refusal is one of two kinds: not this caller's ticket, or this
      caller's ticket at the wrong time. */
  datatype OpenError = Invalid | Expired

  /** The envelope a token spells, if it spells one at all. */
  function EnvelopeOf(x: Crypto, token: Bytes): Option<Bytes> {
    if !(PREFIX <= token) then None
    else if |token| > MAX_CHARS then None
    else StrictDecode(x, token[|PREFIX|..])
  }

  predicate TooEarly(c: Claims, now: real) { c.issuedAt as real > now + SKEW_SECONDS }

  predicate TooLate(c: Claims, now: real) {
    c.expiresAt != 0 && now >= c.expiresAt as real + SKEW_SECONDS
  }

  /** `open_attach_ticket`, at the time `now`. */
  ghost function Open(x: Crypto, key: Bytes, token: Bytes, principal: Bytes, now: real): Result<Claims, OpenError> {
    match EnvelopeOf(x, token)
    case None => Err(Invalid)
    case Some(envelope) =>
      if principal == [] then Err(Invalid)
      else if |envelope| < 1 + NONCE_BYTES + TAG_BYTES || envelope[0] != ENVELOPE_VERSION then Err(Invalid)
      else match x.open(key, envelope[1..], Aad(principal))
        case None => Err(Invalid)
        case Some(payload) =>
          match Decode(payload)
          case None => Err(Invalid)
          case Some(c) =>
            if TooEarly(c, now) || TooLate(c, now) then Err(Expired) else Ok(c)
  }

  method OpenAttachTicket(x: Crypto, key: Bytes, token: Bytes, principal: Bytes, now: real)
    returns (r: Result<Claims, OpenError>)
    ensures r == Open(x, key, token, principal, now)
  {
    var envelope := EnvelopeOf(x, token);
    if envelope.None? || principal == [] { return Err(Invalid); }
    if |envelope.value| < 1 + NONCE_BYTES + TAG_BYTES || envelope.value[0] != ENVELOPE_VERSION {
      return Err(Invalid);
    }
    var payload := x.open(key, envelope.value[1..], Aad(principal));
    if payload.None? { return Err(Invalid); }
    var c := DecodePayload(payload.value);
    if c.None? { return Err(Invalid); }
    if TooEarly(c.value, now) || TooLate(c.value, now) { return Err(Expired); }
    return Ok(c.value);
  }

  // ---- What opening a minted ticket gives ----

  /** From issued - skew, up to but not including expires + skew. */
  predicate InWindow(c: Claims, now: real) {
    && c.issuedAt as real - SKEW_SECONDS <= now
    && (c.expiresAt == 0 || now < c.expiresAt as real + SKEW_SECONDS)
  }

  lemma MintedEnvelope(x: Crypto, key: Bytes, principal: Bytes, c: Claims, nonce: Bytes, token: Bytes)
    requires LawfulBase64(x) && Mint(x, key, principal, c, nonce) == Ok(token)
    ensures EnvelopeOf(x, token) == Some(Envelope(x.seal(key, nonce, Layout(c), Aad(principal))))
  {
    var envelope := Envelope(x.seal(key, nonce, Layout(c), Aad(principal)));
    assert token[|PREFIX|..] == x.encode(envelope);
    StrictDecodeExact(x, x.encode(envelope), envelope);
  }

  /** The whole outcome of opening a minted ticket, for every key, every
      caller and every time. It gives the claims back exactly when the key,
      the principal and the clock agree and the sealed texts are UTF-8:
      minting does not check that last condition, so a ticket over other
      bytes is minted and then never opens. */
  lemma OpenOfMint(x: Crypto, key: Bytes, principal: Bytes, c: Claims, nonce: Bytes, token: Bytes,
                   key': Bytes, principal': Bytes, now: real)
    requires IdealAead(x) && LawfulBase64(x) && IsNonce(nonce)
    requires Mint(x, key, principal, c, nonce) == Ok(token)
    ensures Open(x, key', token, principal', now) ==
      if key' != key || principal' != principal || !TextsAreUtf8(c) then Err(Invalid)
      else if InWindow(c, now) then Ok(c)
      else Err(Expired)
  {
    var sealed := x.seal(key, nonce, Layout(c), Aad(principal));
    MintedEnvelope(x, key, principal, c, nonce, token);
    assert Envelope(sealed)[1..] == sealed;
    assert |sealed| >= NONCE_BYTES + TAG_BYTES;
    Unsealed(x, key, nonce, Layout(c), principal, key', principal');
    DecodeOfEncodable(c);
  }

  /** A sealed payload opens under its own key and principal only. */
  lemma Unsealed(x: Crypto, key: Bytes, nonce: Bytes, payload: Bytes, principal: Bytes, key': Bytes, principal': Bytes)
    requires IdealAead(x) && IsNonce(nonce)
    ensures x.open(key', x.seal(key, nonce, payload, Aad(principal)), Aad(principal')) ==
      if key' == key && principal' == principal then Some(payload) else None
  {
    var sealed := x.seal(key, nonce, payload, Aad(principal));
    AadInjective(principal, principal');
    if x.open(key', sealed, Aad(principal')).Some? {
      var n := NonceOf(x, key', sealed, Aad(principal'));
    }
  }

  /** Encodable claims decode again exactly when they are well formed. */
  lemma DecodeOfEncodable(c: Claims)
    requires Encodable(c)
    ensures Decode(Layout(c)) == if WellFormed(c) then Some(c) else None
  {
    DecodeExact(Layout(c), c);
    if Decode(Layout(c)).Some? {
      LayoutOfDecode(Layout(c));
      SameLayout(c, Decode(Layout(c)).value);
    }
  }

  /** The layout alone determines encodable claims. */
  lemma SameLayout(c: Claims, d: Claims)
    requires Encodable(c) && Encodable(d) && Layout(c) == Layout(d)
    ensures c == d
  {
    Pow256Values();
    var t1 := Layout(c)[8..];
    var t2 := t1[8..];
    assert LittleEndian(Unsigned(c.issuedAt), 8) == Layout(c)[..8] == LittleEndian(Unsigned(d.issuedAt), 8);
    LittleEndianRoundTrip(Unsigned(c.issuedAt), 8);
    LittleEndianRoundTrip(Unsigned(d.issuedAt), 8);
    assert LittleEndian(Unsigned(c.expiresAt), 8) == t1[..8] == LittleEndian(Unsigned(d.expiresAt), 8);
    LittleEndianRoundTrip(Unsigned(c.expiresAt), 8);
    LittleEndianRoundTrip(Unsigned(d.expiresAt), 8);
    var (c3, d3) := (Tail3(c), Tail3(d));
    assert t2 == TextField(c.ticketId) + c3 == TextField(d.ticketId) + d3;
    SameText(c.ticketId, c3, d.ticketId, d3);
    SameText(c.catalogName, Tail4(c), d.catalogName, Tail4(d));
    SameText(c.dataVersionSpec, Tail5(c), d.dataVersionSpec, Tail5(d));
    SameText(c.implementationVersion, Tail6(c), d.implementationVersion, Tail6(d));
    assert c.optionsIpc == Tail6(c)[4..] && d.optionsIpc == Tail6(d)[4..];
  }

  function Tail6(c: Claims): Bytes { LittleEndian(|c.optionsIpc|, 4) + c.optionsIpc }
  function Tail5(c: Claims): Bytes { TextField(c.implementationVersion) + Tail6(c) }
  function Tail4(c: Claims): Bytes { TextField(c.dataVersionSpec) + Tail5(c) }
  function Tail3(c: Claims): Bytes { TextField(c.catalogName) + Tail4(c) }

  lemma SameText(a: Bytes, rest: Bytes, b: Bytes, rest': Bytes)
    requires |a| <= MAX_TEXT && |b| <= MAX_TEXT
    requires TextField(a) + rest == TextField(b) + rest'
    ensures a == b && rest == rest'
  {
    var p := TextField(a) + rest;
    Pow256Values();
    assert p[..2] == LittleEndian(|a|, 2) && p[..2] == LittleEndian(|b|, 2);
    LittleEndianRoundTrip(|a|, 2);
    LittleEndianRoundTrip(|b|, 2);
    assert p[2..2 + |a|] == a && p[2..2 + |b|] == b;
    assert p[2 + |a|..] == rest && p[2 + |b|..] == rest';
  }

  /** Nothing but a minted ticket opens, and only for who it was minted for:
      an accepted token, or one refused as expired, is character for character
      what minting some claims for this principal under this key gives. */
  lemma OpenedWasMinted(x: Crypto, key: Bytes, token: Bytes, principal: Bytes, now: real)
    returns (c: Claims, nonce: Bytes)
    requires IdealAead(x)
    requires Open(x, key, token, principal, now) != Err(Invalid)
    ensures IsNonce(nonce) && WellFormed(c) && Mint(x, key, principal, c, nonce) == Ok(token)
    ensures Open(x, key, token, principal, now) == if InWindow(c, now) then Ok(c) else Err(Expired)
  {
    var envelope := EnvelopeOf(x, token).value;
    var sealed := envelope[1..];
    var payload := x.open(key, sealed, Aad(principal)).value;
    c := Decode(payload).value;
    LayoutOfDecode(payload);
    nonce := NonceOf(x, key, sealed, Aad(principal));
    SpelledToken(x, token, sealed);
  }

  lemma NonceOf(x: Crypto, key: Bytes, sealed: Bytes, aad: Bytes) returns (nonce: Bytes)
    requires IdealAead(x) && x.open(key, sealed, aad).Some?
    ensures IsNonce(nonce) && x.seal(key, nonce, x.open(key, sealed, aad).value, aad) == sealed
  {
    nonce :| IsNonce(nonce) && x.seal(key, nonce, x.open(key, sealed, aad).value, aad) == sealed;
  }

  lemma SpelledToken(x: Crypto, token: Bytes, sealed: Bytes)
    requires EnvelopeOf(x, token).Some?
    requires var e := EnvelopeOf(x, token).value; |e| > 0 && e[0] == ENVELOPE_VERSION && e[1..] == sealed
    ensures token == PREFIX + x.encode(Envelope(sealed)) && |token| <= MAX_CHARS
  {
    var envelope := EnvelopeOf(x, token).value;
    assert envelope == [envelope[0]] + envelope[1..];
    assert token == PREFIX + token[|PREFIX|..];
  }

  /** Two accepted tokens over the same envelope bytes are the same text. */
  lemma OneSpelling(x: Crypto, t1: Bytes, t2: Bytes)
    requires EnvelopeOf(x, t1).Some? && EnvelopeOf(x, t1) == EnvelopeOf(x, t2)
    ensures t1 == t2
  {
    assert t1 == PREFIX + t1[|PREFIX|..];
    assert t2 == PREFIX + t2[|PREFIX|..];
  }
}
