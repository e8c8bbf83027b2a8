/** One-row Arrow records as values, and their embedded IPC form. */
module Wire {
  import opened Basics

  /** The first cell of a column: null, text, binary, or a value of another
      type, known by its type and its bits. */
  datatype Cell = Null | Text(text: Bytes) | Binary(bytes: Bytes) | Other(ty: Bytes, bits: Bytes)

  datatype Column = Column(name: Bytes, cell: Cell)

  datatype Record = Record(columns: seq<Column>, rows: nat)

  /** What reading an embedded IPC value gives: `decode_ipc` answers "no
      batch" for empty bytes and for a stream of no batches, and raises for
      bytes that are not a stream. */
  datatype Decoded = NoBatch | Batch(record: Record) | Malformed

  datatype Ipc = Ipc(encode: Record -> Bytes, decode: Bytes -> Decoded)

  ghost predicate LawfulIpc(ipc: Ipc) {
    && ipc.decode([]) == NoBatch
    && (forall r :: ipc.decode(ipc.encode(r)) == Batch(r))
  }

  predicate Has(columns: seq<Column>, name: Bytes) {
    exists i :: 0 <= i < |columns| && columns[i].name == name
  }

  /** Lookup by name: a name two columns share finds nothing, as Arrow's
      `GetFieldIndex` does. */
  function Find(columns: seq<Column>, name: Bytes): Option<Column> {
    if columns == [] then None
    else if columns[0].name != name then Find(columns[1..], name)
    else if Has(columns[1..], name) then None
    else Some(columns[0])
  }

  /** The one column of a name is found. */
  lemma {:induction false} FindOnly(columns: seq<Column>, i: nat)
    requires i < |columns|
    requires forall j :: 0 <= j < |columns| && j != i ==> columns[j].name != columns[i].name
    ensures Find(columns, columns[i].name) == Some(columns[i])
  {
    var tail := columns[1..];
    if i == 0 {
      assert !Has(tail, columns[0].name);
    } else {
      assert tail[i - 1] == columns[i];
      assert columns[0].name != columns[i].name;
      forall j | 0 <= j < |tail| && j != i - 1 ensures tail[j].name != tail[i - 1].name {
        assert tail[j] == columns[j + 1];
      }
      FindOnly(tail, i - 1);
    }
  }

  /** A name two columns share, or no column has, finds nothing. */
  lemma {:induction false} FindShared(columns: seq<Column>, i: nat, j: nat)
    requires i < j < |columns| && columns[i].name == columns[j].name
    ensures Find(columns, columns[i].name) == None
  {
    var tail := columns[1..];
    if i == 0 {
      assert tail[j - 1] == columns[j];
      assert Has(tail, columns[0].name);
    } else {
      assert tail[i - 1] == columns[i] && tail[j - 1] == columns[j];
      FindShared(tail, i - 1, j - 1);
      if columns[0].name == columns[i].name { assert Has(tail, columns[i].name); }
    }
  }

  lemma {:induction false} FindAbsent(columns: seq<Column>, name: Bytes)
    requires !Has(columns, name)
    ensures Find(columns, name) == None
  {
    if columns != [] {
      var tail := columns[1..];
      assert columns[0].name != name;
      forall i | 0 <= i < |tail| ensures tail[i].name != name { assert tail[i] == columns[i + 1]; }
      FindAbsent(tail, name);
    }
  }

  lemma {:induction false} FindFound(columns: seq<Column>, name: Bytes)
    requires Find(columns, name).Some?
    ensures Find(columns, name).value in columns && Find(columns, name).value.name == name
    ensures Has(columns, name)
  {
    if columns[0].name != name {
      FindFound(columns[1..], name);
      var i :| 0 <= i < |columns[1..]| && columns[1..][i].name == name;
      assert columns[i + 1].name == name;
    }
  }
}
