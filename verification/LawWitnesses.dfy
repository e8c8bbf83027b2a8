/** That the laws asked of libraries and of user code can be met: an ideal
    AEAD with a canonical text encoding, an encoding of records that reads back,
    and an aggregate function. */
module LawWitnesses {
  import opened Basics
  import opened NulSeparated
  import opened Ticket
  import opened Wire
  import opened Aggregate
  import AttachValue

  // ---- A sealing that is one-to-one ----

  /** Self-delimiting bytes: each behind a 1, a 0 at the end. */
  function Delimited(s: Bytes): Bytes {
    if s == [] then [0] else [1, s[0]] + Delimited(s[1..])
  }

  lemma {:induction false} DelimitedSplits(a: Bytes, b: Bytes, x: Bytes, y: Bytes)
    requires Delimited(a) + x == Delimited(b) + y
    ensures a == b && x == y
  {
    var s, t := Delimited(a) + x, Delimited(b) + y;
    assert s[0] == (if a == [] then 0 else 1) && t[0] == (if b == [] then 0 else 1);
    if a == [] {
      assert s[1..] == x && t[1..] == y;
    } else {
      assert s[1] == a[0] && t[1] == b[0];
      assert s[2..] == Delimited(a[1..]) + x && t[2..] == Delimited(b[1..]) + y;
      DelimitedSplits(a[1..], b[1..], x, y);
      assert a == [a[0]] + a[1..] && b == [b[0]] + b[1..];
    }
  }

  const TAG: Bytes := [0, 0, 0, 0, 0, 0, 0, 0, 0, 0, 0, 0, 0, 0, 0, 0]

  function Seal(k: Bytes, n: Bytes, p: Bytes, a: Bytes): Bytes { n + (TAG + (Delimited(k) + (Delimited(a) + p))) }

  lemma SealInjective(k: Bytes, n: Bytes, p: Bytes, a: Bytes, k': Bytes, n': Bytes, p': Bytes, a': Bytes)
    requires IsNonce(n) && IsNonce(n') && Seal(k, n, p, a) == Seal(k', n', p', a')
    ensures k == k' && a == a' && p == p'
  {
    var s, s' := Delimited(k) + (Delimited(a) + p), Delimited(k') + (Delimited(a') + p');
    assert Seal(k, n, p, a)[40..] == s && Seal(k', n', p', a')[40..] == s';
    DelimitedSplits(k, k', Delimited(a) + p, Delimited(a') + p');
    DelimitedSplits(a, a', p, p');
  }

  ghost function OpenSealed(k: Bytes, s: Bytes, a: Bytes): Option<Bytes> {
    if exists n, p :: IsNonce(n) && Seal(k, n, p, a) == s then
      var n, p :| IsNonce(n) && Seal(k, n, p, a) == s;
      Some(p)
    else None
  }

  // ---- A text encoding ----

  /** Two letters a byte. */
  function Letters(raw: Bytes): (t: Bytes)
    ensures |t| == 2 * |raw|
  {
    if raw == [] then [] else [97 + raw[0] / 16, 97 + raw[0] % 16] + Letters(raw[1..])
  }

  lemma {:induction false} LettersAre(raw: Bytes)
    ensures InAlphabet(Letters(raw))
  {
    if raw != [] { LettersAre(raw[1..]); }
  }

  lemma SameByte(a: byte, b: byte)
    requires a / 16 == b / 16 && a % 16 == b % 16
    ensures a == b
  {
  }

  lemma {:induction false} LettersInjective(a: Bytes, b: Bytes)
    requires Letters(a) == Letters(b)
    ensures a == b
  {
    if a != [] {
      var s, t := Letters(a), Letters(b);
      assert s[0] == 97 + a[0] / 16 && s[1] == 97 + a[0] % 16 && s[2..] == Letters(a[1..]);
      assert t[0] == 97 + b[0] / 16 && t[1] == 97 + b[0] % 16 && t[2..] == Letters(b[1..]);
      SameByte(a[0], b[0]);
      LettersInjective(a[1..], b[1..]);
      assert a == [a[0]] + a[1..] && b == [b[0]] + b[1..];
    }
  }

  ghost function ReadLetters(t: Bytes): Option<Bytes> {
    if exists raw :: Letters(raw) == t then
      var raw :| Letters(raw) == t;
      Some(raw)
    else None
  }

  lemma OpensSealed(k: Bytes, n: Bytes, p: Bytes, a: Bytes)
    requires IsNonce(n)
    ensures OpenSealed(k, Seal(k, n, p, a), a) == Some(p)
  {
    var sealed := Seal(k, n, p, a);
    var n', p' :| IsNonce(n') && Seal(k, n', p', a) == sealed && OpenSealed(k, sealed, a) == Some(p');
    SealInjective(k, n, p, a, k, n', p', a);
  }

  lemma OpenedIsSealed(k: Bytes, s: Bytes, a: Bytes)
    ensures OpenSealed(k, s, a).Some? ==> exists n :: IsNonce(n) && Seal(k, n, OpenSealed(k, s, a).value, a) == s
  {
  }

  lemma ReadsLetters(raw: Bytes)
    ensures ReadLetters(Letters(raw)) == Some(raw) && InAlphabet(Letters(raw))
  {
    LettersAre(raw);
    var raw' :| Letters(raw') == Letters(raw) && ReadLetters(Letters(raw)) == Some(raw');
    LettersInjective(raw, raw');
  }

  ghost const IDEAL := Crypto(Seal, OpenSealed, Letters, ReadLetters)

  lemma SealOpens()
    ensures forall k, n, p, a :: IsNonce(n) ==> |IDEAL.seal(k, n, p, a)| >= NONCE_BYTES + TAG_BYTES
    ensures forall k, n, p, a :: IsNonce(n) ==> IDEAL.open(k, IDEAL.seal(k, n, p, a), a) == Some(p)
  {
    forall k, n, p, a | IsNonce(n) ensures OpenSealed(k, Seal(k, n, p, a), a) == Some(p) {
      OpensSealed(k, n, p, a);
    }
  }

  lemma OnlySealOpens()
    ensures forall k, s, a :: IDEAL.open(k, s, a).Some? ==>
      exists n :: IsNonce(n) && IDEAL.seal(k, n, IDEAL.open(k, s, a).value, a) == s
  {
    forall k, s, a | IDEAL.open(k, s, a).Some?
      ensures exists n :: IsNonce(n) && IDEAL.seal(k, n, IDEAL.open(k, s, a).value, a) == s
    {
      OpenedIsSealed(k, s, a);
      var n :| IsNonce(n) && Seal(k, n, OpenSealed(k, s, a).value, a) == s;
      assert IDEAL.seal(k, n, IDEAL.open(k, s, a).value, a) == s;
    }
  }

  lemma SealBinds()
    ensures forall k, n, p, a, k', n', p', a' ::
      IsNonce(n) && IsNonce(n') && IDEAL.seal(k, n, p, a) == IDEAL.seal(k', n', p', a') ==> k == k' && a == a'
  {
    forall k, n, p, a, k', n', p', a' | IsNonce(n) && IsNonce(n') && Seal(k, n, p, a) == Seal(k', n', p', a')
      ensures k == k' && a == a'
    {
      SealInjective(k, n, p, a, k', n', p', a');
    }
  }

  lemma SealIsIdeal()
    ensures IdealAead(IDEAL)
  {
    SealOpens();
    OnlySealOpens();
    SealBinds();
  }

  lemma EvenIsNotOne(n: nat)
    ensures (2 * n) % 4 != 1
  {
  }

  lemma LetterCount(raw: Bytes)
    ensures |Letters(raw)| % 4 != 1 && (raw != [] ==> Letters(raw) != [])
  {
    EvenIsNotOne(|raw|);
  }

  lemma LettersAreLawful()
    ensures LawfulBase64(IDEAL)
  {
    assert forall raw :: IDEAL.decode(IDEAL.encode(raw)) == Some(raw) by {
      forall raw ensures ReadLetters(Letters(raw)) == Some(raw) { ReadsLetters(raw); }
    }
    assert forall raw ::
        InAlphabet(IDEAL.encode(raw)) && |IDEAL.encode(raw)| % 4 != 1 && (raw != [] ==> IDEAL.encode(raw) != []) by {
      forall raw ensures InAlphabet(Letters(raw)) && |Letters(raw)| % 4 != 1 && (raw != [] ==> Letters(raw) != []) {
        LettersAre(raw);
        LetterCount(raw);
      }
    }
  }

  /** The laws asked of the ticket's libraries can be met together. */
  lemma TicketLawsHold()
    ensures exists x :: IdealAead(x) && LawfulBase64(x)
  {
    SealIsIdeal();
    LettersAreLawful();
  }

  // ---- An encoding of records ----

  lemma HeadAndTail(tag: byte, a: Bytes, tag': byte, a': Bytes)
    requires [tag] + a == [tag'] + a'
    ensures tag == tag' && a == a'
  {
    assert ([tag] + a)[0] == tag && ([tag'] + a')[0] == tag';
    assert ([tag] + a)[1..] == a && ([tag'] + a')[1..] == a';
  }

  function CellTag(c: Cell): byte {
    match c case Null => 0 case Text(_) => 1 case Binary(_) => 2 case Other(_, _) => 3
  }

  function CellBody(c: Cell, rest: Bytes): Bytes {
    match c
    case Null => rest
    case Text(t) => Delimited(t) + rest
    case Binary(b) => Delimited(b) + rest
    case Other(ty, bits) => Delimited(ty) + (Delimited(bits) + rest)
  }

  /** A cell in front of what follows it. */
  function CellBytes(c: Cell, rest: Bytes): Bytes { [CellTag(c)] + CellBody(c, rest) }

  lemma CellSplits(a: Cell, b: Cell, x: Bytes, y: Bytes)
    requires CellBytes(a, x) == CellBytes(b, y)
    ensures a == b && x == y
  {
    HeadAndTail(CellTag(a), CellBody(a, x), CellTag(b), CellBody(b, y));
    match a
    case Null =>
    case Text(t) => DelimitedSplits(t, b.text, x, y);
    case Binary(t) => DelimitedSplits(t, b.bytes, x, y);
    case Other(ty, bits) =>
      DelimitedSplits(ty, b.ty, Delimited(bits) + x, Delimited(b.bits) + y);
      DelimitedSplits(bits, b.bits, x, y);
  }

  function ColumnsBytes(columns: seq<Column>, rest: Bytes): Bytes {
    if columns == [] then [0] + rest
    else [1] + (Delimited(columns[0].name) + CellBytes(columns[0].cell, ColumnsBytes(columns[1..], rest)))
  }

  lemma {:induction false} ColumnsSplit(a: seq<Column>, b: seq<Column>, x: Bytes, y: Bytes)
    requires ColumnsBytes(a, x) == ColumnsBytes(b, y)
    ensures a == b && x == y
  {
    assert ColumnsBytes(a, x)[0] == (if a == [] then 0 else 1) && ColumnsBytes(b, y)[0] == (if b == [] then 0 else 1);
    if a == [] {
      HeadAndTail(0, x, 0, y);
    } else {
      var p, q := ColumnsBytes(a[1..], x), ColumnsBytes(b[1..], y);
      HeadAndTail(1, Delimited(a[0].name) + CellBytes(a[0].cell, p), 1, Delimited(b[0].name) + CellBytes(b[0].cell, q));
      DelimitedSplits(a[0].name, b[0].name, CellBytes(a[0].cell, p), CellBytes(b[0].cell, q));
      CellSplits(a[0].cell, b[0].cell, p, q);
      ColumnsSplit(a[1..], b[1..], x, y);
      assert a == [a[0]] + a[1..] && b == [b[0]] + b[1..];
    }
  }

  function Zeros(n: nat): (z: Bytes)
    ensures |z| == n
  {
    if n == 0 then [] else [0] + Zeros(n - 1)
  }

  function RecordBytes(r: Record): Bytes { ColumnsBytes(r.columns, Zeros(r.rows)) }

  ghost function ReadRecord(bytes: Bytes): Decoded {
    if exists r :: RecordBytes(r) == bytes then
      var r :| RecordBytes(r) == bytes;
      Batch(r)
    else if bytes == [] then NoBatch
    else Malformed
  }

  lemma ReadsRecord(r: Record)
    ensures ReadRecord(RecordBytes(r)) == Batch(r) && RecordBytes(r) != []
  {
    var read := ReadRecord(RecordBytes(r));
    assert read.Batch? && RecordBytes(read.record) == RecordBytes(r);
    ColumnsSplit(r.columns, read.record.columns, Zeros(r.rows), Zeros(read.record.rows));
    assert r.rows == |Zeros(r.rows)|;
  }

  ghost const IPC := Ipc(RecordBytes, ReadRecord)

  lemma IpcLawsHold()
    ensures LawfulIpc(IPC)
  {
    forall r ensures ReadRecord(RecordBytes(r)) == Batch(r) && RecordBytes(r) != [] { ReadsRecord(r); }
  }

  ghost function PlainLetters(t: Bytes): Bytes { if ReadLetters(t).Some? then ReadLetters(t).value else [] }

  lemma {:induction false} LettersNulFree(raw: Bytes)
    ensures NulFree(Letters(raw))
  {
    if raw != [] { LettersNulFree(raw[1..]); }
  }

  ghost const CODEC := AttachValue.Codec(IPC, Letters, PlainLetters)

  /** The laws asked of the attachment value's codec can be met. */
  lemma CodecLawsHold()
    ensures AttachValue.LawfulCodec(CODEC)
  {
    IpcLawsHold();
    forall b ensures PlainLetters(Letters(b)) == b && NulFree(Letters(b)) {
      ReadsLetters(b);
      LettersNulFree(b);
    }
  }

  // ---- An aggregate function ----

  /** Concatenation: the state is every value so far, end to end. */
  function Join(state: Option<Bytes>, v: Bytes): Option<Bytes> {
    if state.None? then Some(v) else Some(state.value + v)
  }

  function JoinRows(states: map<int64, Bytes>, batch: seq<(int64, Bytes)>): map<int64, Bytes> {
    if batch == [] then states
    else
      var m, row := JoinRows(states, batch[..|batch| - 1]), batch[|batch| - 1];
      m[row.0 := Join(Lookup(m, row.0), row.1).value]
  }

  lemma {:induction false} JoinRowsFolds(states: map<int64, Bytes>, batch: seq<(int64, Bytes)>, g: int64)
    ensures Lookup(JoinRows(states, batch), g) == Fold(Join, Lookup(states, g), RowsOf(batch, g))
  {
    if batch != [] {
      var init, row := batch[..|batch| - 1], batch[|batch| - 1];
      JoinRowsFolds(states, init, g);
      var rows, from := RowsOf(init, g), Lookup(states, g);
      if row.0 == g {
        assert RowsOf(batch, g) == rows + [row.1];
        assert (rows + [row.1])[..|rows|] == rows;
        assert Fold(Join, from, rows + [row.1]) == Join(Fold(Join, from, rows), row.1);
      } else {
        assert RowsOf(batch, g) == rows;
      }
    }
  }

  lemma {:induction false} JoinFolds(s: Bytes, rows: seq<Bytes>)
    ensures Fold(Join, Some(s), rows).Some?
    ensures rows != [] ==> StateOf(Join, rows).Some? && Fold(Join, Some(s), rows).value == s + StateOf(Join, rows).value
  {
    if rows != [] {
      var init := rows[..|rows| - 1];
      JoinFolds(s, init);
      var last := rows[|rows| - 1];
      assert Fold(Join, Some(s), rows) == Join(Fold(Join, Some(s), init), last);
      assert StateOf(Join, rows) == Join(StateOf(Join, init), last);
      if init != [] {
        assert (s + StateOf(Join, init).value) + last == s + (StateOf(Join, init).value + last);
      }
    }
  }

  /** The laws asked of an aggregate function can be met. */
  lemma AggregateLawsHold<C>(chunk: (C, nat, nat, map<Bytes, Bytes>) -> map<Bytes, Bytes>)
    ensures Lawful(Function(JoinRows, (a: Bytes, b: Bytes) => a + b, chunk), Join)
  {
    forall states, batch, g {
      JoinRowsFolds(states, batch, g);
    }
    forall a: seq<Bytes>, b: seq<Bytes> | StateOf(Join, a).Some? && StateOf(Join, b).Some?
      ensures StateOf(Join, a + b) == Some(StateOf(Join, a).value + StateOf(Join, b).value)
    {
      FoldConcat(Join, None, a, b);
      JoinFolds(StateOf(Join, a).value, b);
    }
  }
}
