/** Concrete tickets that show the limits of the ticket theorems
    (src/attach_ticket.cpp). */
module TicketCases {
  import opened Basics
  import opened Utf8
  import opened TicketPayload
  import opened Ticket
  import opened Wire
  import opened Catalogs
  import opened TicketRedemption
  import opened LawWitnesses

  const ID: Bytes := seq(32, i => 97)
  const PRINCIPAL: Bytes := [112]

  // ---- A ticket that never opens ----

  /** Claims for a catalog whose name is one byte that no UTF-8 text has. */
  const UNREADABLE := Claims(0, 0, ID, [255], [], [], [])

  lemma NoUtf8()
    ensures !IsUtf8([255])
  {
    FirstCharacter([255]);
  }

  lemma {:induction false} DelimitedLength(s: Bytes)
    ensures |Delimited(s)| == 2 * |s| + 1
  {
    if s != [] { DelimitedLength(s[1..]); }
  }

  /** It is minted, and refused to everyone at every time. */
  lemma UnreadableTicket()
    ensures var r := Mint(IDEAL, [], PRINCIPAL, UNREADABLE, Zeros(24));
      r.Ok? && forall key, principal, now :: Open(IDEAL, key, r.value, principal, now) == Err(Invalid)
  {
    var c, nonce := UNREADABLE, Zeros(24);
    LayoutLength(c);
    DelimitedLength([]);
    DelimitedLength(Aad(PRINCIPAL));
    assert |Aad(PRINCIPAL)| == 22;
    var sealed := IDEAL.seal([], nonce, Layout(c), Aad(PRINCIPAL));
    assert |sealed| == 147;
    assert |IDEAL.encode(Envelope(sealed))| == 2 * 148;
    var r := Mint(IDEAL, [], PRINCIPAL, c, nonce);
    assert r.Ok?;
    SealIsIdeal();
    LettersAreLawful();
    NoUtf8();
    forall key, principal, now ensures Open(IDEAL, key, r.value, principal, now) == Err(Invalid) {
      OpenOfMint(IDEAL, [], PRINCIPAL, c, nonce, r.value, key, principal, now);
    }
  }

  // ---- A pinned version that is lost ----

  /** A request to seal for catalog `c` at version `1`, its claims, and the
      attach it stands for. */
  const REQUEST := SealRequest([99], None, [49], [], 0)
  const PINNED := Claims(0, 0, ID, [99], [49], [], [])
  const DIRECT: seq<Column> := [Column(NAME, Text([99])), Column(DATA_VERSION, Text([49]))]

  /** A runner's request with a ticket and no column for a version. */
  function Runner(token: Bytes): seq<Column> {
    [Column(NAME, Null), Column(OPTIONS, Binary(RecordBytes(Record([Column(TICKET_OPTION, Text(token))], 1))))]
  }

  function Plain(cast: (Cell, Bytes) -> Option<Cell>): Worker { Worker([CatalogModel([99], [], [])], {}, cast) }

  lemma RunnerPresents(token: Bytes)
    ensures PresentsTicket(IPC, Runner(token), token)
    ensures Find(Runner(token), NAME).Some? && Find(Runner(token), OPTIONS).Some?
    ensures Find(Runner(token), DATA_VERSION).None?
  {
    var runner, record := Runner(token), Record([Column(TICKET_OPTION, Text(token))], 1);
    ColumnNamesDiffer();
    FindOnly(runner, 0);
    FindOnly(runner, 1);
    FindAbsent(runner, DATA_VERSION);
    ReadsRecord(record);
    LowerIsLower();
  }

  lemma LowerIsLower()
    ensures IsReserved(TICKET_OPTION)
  {
    assert Lower(TICKET_OPTION) == TICKET_OPTION;
  }

  lemma DirectIs()
    ensures IsDirect(DIRECT, REQUEST)
  {
    ColumnNamesDiffer();
    FindOnly(DIRECT, 0);
    FindOnly(DIRECT, 1);
    FindAbsent(DIRECT, IMPLEMENTATION);
    FindAbsent(DIRECT, OPTIONS);
  }

  lemma PlainAttach(cast: (Cell, Bytes) -> Option<Cell>, request: seq<Column>, data: Option<Bytes>)
    requires OptionalText(request, NAME) == Ok(Some([99])) && OptionalText(request, DATA_VERSION) == Ok(data)
    requires OptionalText(request, IMPLEMENTATION) == Ok(None) && OptionalBinary(request, OPTIONS).Ok?
    ensures AttachOf(Plain(cast), IPC, request) == Ok(Declared([99], [99], data, None, None))
  {
  }

  lemma PinnedIsSealed(cast: (Cell, Bytes) -> Option<Cell>)
    ensures SealedFrom(Plain(cast), IPC, REQUEST, PINNED)
  {
  }

  /** The direct attach asks for version 1; the redeemed one asks for none. */
  lemma LostVersion(token: Bytes, cast: (Cell, Bytes) -> Option<Cell>)
    ensures SealedFrom(Plain(cast), IPC, REQUEST, PINNED) && IsDirect(DIRECT, REQUEST)
    ensures PresentsTicket(IPC, Runner(token), token)
    ensures AttachOf(Plain(cast), IPC, DIRECT) == Ok(Declared([99], [99], Some([49]), None, None))
    ensures AttachOf(Plain(cast), IPC, Restore(Runner(token), PINNED)) == Ok(Declared([99], [99], None, None, None))
  {
    PinnedIsSealed(cast);
    RunnerPresents(token);
    DirectIs();
    RestoredReads(Runner(token), PINNED);
    PlainAttach(cast, DIRECT, Some([49]));
    PlainAttach(cast, Restore(Runner(token), PINNED), None);
  }

  // ---- A payload, byte by byte ----

  lemma LowBytes()
    ensures LittleEndian(1000, 8) == [232, 3, 0, 0, 0, 0, 0, 0]
    ensures LittleEndian(0, 2) == [0, 0] && LittleEndian(1, 2) == [1, 0] && LittleEndian(2, 2) == [2, 0]
    ensures LittleEndian(2, 4) == [2, 0, 0, 0]
  {
    assert LittleEndian(0, 1) == [0] && LittleEndian(0, 2) == [0, 0] && LittleEndian(0, 3) == [0, 0, 0];
    assert LittleEndian(0, 4) == [0, 0, 0, 0] && LittleEndian(0, 5) == [0, 0, 0, 0, 0];
    assert LittleEndian(0, 6) == [0, 0, 0, 0, 0, 0] && LittleEndian(3, 7) == [3, 0, 0, 0, 0, 0, 0];
  }

  lemma HighBytes()
    ensures LittleEndian(TWO64 - 2, 8) == [254, 255, 255, 255, 255, 255, 255, 255]
  {
    assert LittleEndian(0xFF, 1) == [255] && LittleEndian(0xFFFF, 2) == [255, 255];
    assert LittleEndian(0xFFFFFF, 3) == [255, 255, 255] && LittleEndian(0xFFFFFFFF, 4) == [255, 255, 255, 255];
    assert LittleEndian(0xFFFFFFFFFF, 5) == [255, 255, 255, 255, 255];
    assert LittleEndian(0xFFFFFFFFFFFF, 6) == [255, 255, 255, 255, 255, 255];
    assert LittleEndian(0xFFFFFFFFFFFFFF, 7) == [255, 255, 255, 255, 255, 255, 255];
  }

  lemma LayoutJoins(c: Claims)
    ensures Layout(c) == LittleEndian(Unsigned(c.issuedAt), 8) + LittleEndian(Unsigned(c.expiresAt), 8)
      + TextField(c.ticketId) + TextField(c.catalogName) + TextField(c.dataVersionSpec)
      + TextField(c.implementationVersion) + (LittleEndian(|c.optionsIpc|, 4) + c.optionsIpc)
  {
  }

  lemma FieldBytes()
    ensures TextField([97]) == [1, 0, 97] && TextField([98, 99]) == [2, 0, 98, 99]
    ensures TextField([]) == [0, 0] && TextField([100]) == [1, 0, 100]
  {
    LowBytes();
  }

  /** The payload of a ticket issued at 1000 that ends at -2: times, id, name,
      the two versions and the options, each number lowest byte first. */
  lemma PayloadBytes()
    ensures Layout(Claims(1000, -2, [97], [98, 99], [], [100], [7, 8])) ==
      [232, 3, 0, 0, 0, 0, 0, 0] + [254, 255, 255, 255, 255, 255, 255, 255]
      + [1, 0, 97] + [2, 0, 98, 99] + [0, 0] + [1, 0, 100] + [2, 0, 0, 0, 7, 8]
  {
    LowBytes();
    HighBytes();
    FieldBytes();
    LayoutJoins(Claims(1000, -2, [97], [98, 99], [], [100], [7, 8]));
    assert [2, 0, 0, 0] + [7, 8] == [2, 0, 0, 0, 7, 8];
  }
}
