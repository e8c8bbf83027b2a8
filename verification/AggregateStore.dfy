/** The storage keys of the aggregate protocol (src/aggregate.cpp) and the
    shared store behind them. */
module AggregateStore {
  import opened Basics
  import opened Decimals

  // ---- Keys ----

  /** Everything the protocol keeps under an execution id. */
  datatype Key =
    | Arguments
    | State(group: int64)
    | PartitionData(partition: int64)
    | PartitionSchema(partition: int64)
    | PartitionMask(partition: int64)
    | PartitionRows(partition: int64)
    | SessionPartitionKeys
    | SessionOrderKeys
    | SessionSchema

  function Prefix(k: Key): Bytes {
    match k
    case Arguments => Ascii("aggregate.arguments")
    case State(_) => Ascii("aggregate.state.")
    case PartitionData(_) => Ascii("window.partition.")
    case PartitionSchema(_) => Ascii("window.schema.")
    case PartitionMask(_) => Ascii("window.mask.")
    case PartitionRows(_) => Ascii("window.rows.")
    case SessionPartitionKeys => Ascii("streaming.partition_keys")
    case SessionOrderKeys => Ascii("streaming.order_keys")
    case SessionSchema => Ascii("streaming.output_schema")
  }

  function Suffix(k: Key): Bytes {
    match k
    case State(n) => Decimal(n)
    case PartitionData(n) => Decimal(n)
    case PartitionSchema(n) => Decimal(n)
    case PartitionMask(n) => Decimal(n)
    case PartitionRows(n) => Decimal(n)
    case _ => []
  }

  /** `state_key`, `partition_key` and the rest: the text of a key. */
  function KeyText(k: Key): Bytes { Prefix(k) + Suffix(k) }

  /** Where the text of each kind of key differs from every other kind's. */
  lemma KindOf(k: Key)
    ensures var t := KeyText(k);
      match k
      case Arguments => |t| > 11 && t[0] == 97 && t[10] == 97
      case State(_) => |t| > 11 && t[0] == 97 && t[10] == 115
      case PartitionData(_) => |t| > 11 && t[0] == 119 && t[7] == 112
      case PartitionSchema(_) => |t| > 11 && t[0] == 119 && t[7] == 115
      case PartitionMask(_) => |t| > 11 && t[0] == 119 && t[7] == 109
      case PartitionRows(_) => |t| > 11 && t[0] == 119 && t[7] == 114
      case SessionPartitionKeys => |t| > 11 && t[0] == 115 && t[10] == 112
      case SessionOrderKeys => |t| > 11 && t[0] == 115 && t[10] == 111 && t[11] == 114
      case SessionSchema => |t| > 11 && t[0] == 115 && t[10] == 111 && t[11] == 117
  {
    var p, t := Prefix(k), KeyText(k);
    assert |p| > 11 && t[0] == p[0] && t[7] == p[7] && t[10] == p[10] && t[11] == p[11];
  }

  /** No two keys share a text: neither two groups, nor two partitions, nor a
      group and the argument stash. */
  lemma KeyTextInjective(a: Key, b: Key)
    requires KeyText(a) == KeyText(b)
    ensures a == b
  {
    KindOf(a);
    KindOf(b);
    assert Prefix(a) == Prefix(b);
    assert KeyText(a)[|Prefix(a)|..] == Suffix(a);
    assert KeyText(b)[|Prefix(b)|..] == Suffix(b);
    if a.State? { DecimalInjective(a.group, b.group); }
    else if a.PartitionData? { DecimalInjective(a.partition, b.partition); }
    else if a.PartitionSchema? { DecimalInjective(a.partition, b.partition); }
    else if a.PartitionMask? { DecimalInjective(a.partition, b.partition); }
    else if a.PartitionRows? { DecimalInjective(a.partition, b.partition); }
  }

  // ---- The store ----

  /** Values by (execution, key text), and the streaming log of each
      execution. */
  datatype Store = Store(kv: map<(Bytes, Bytes), Bytes>, logs: map<Bytes, seq<Bytes>>)

  const EMPTY := Store(map[], map[])

  function Get(s: Store, e: Bytes, k: Key): Option<Bytes> {
    if (e, KeyText(k)) in s.kv then Some(s.kv[(e, KeyText(k))]) else None
  }

  function Log(s: Store, e: Bytes): seq<Bytes> { if e in s.logs then s.logs[e] else [] }

  function Put(s: Store, e: Bytes, k: Key, v: Bytes): Store { s.(kv := s.kv[(e, KeyText(k)) := v]) }

  function Delete(s: Store, e: Bytes, k: Key): Store { s.(kv := s.kv - {(e, KeyText(k))}) }

  function Append(s: Store, e: Bytes, v: Bytes): Store { s.(logs := s.logs[e := Log(s, e) + [v]]) }

  /** Everything under one execution; an empty id names none. */
  function Clear(s: Store, e: Bytes): Store {
    if e == [] then s
    else Store(map x | x in s.kv && x.0 != e :: s.kv[x], s.logs - {e})
  }

  lemma GetPut(s: Store, e: Bytes, k: Key, v: Bytes, e': Bytes, k': Key)
    ensures Get(Put(s, e, k, v), e', k') == if e' == e && k' == k then Some(v) else Get(s, e', k')
  {
    if KeyText(k) == KeyText(k') { KeyTextInjective(k, k'); }
  }

  lemma GetDelete(s: Store, e: Bytes, k: Key, e': Bytes, k': Key)
    ensures Get(Delete(s, e, k), e', k') == if e' == e && k' == k then None else Get(s, e', k')
  {
    if KeyText(k) == KeyText(k') { KeyTextInjective(k, k'); }
  }
}
