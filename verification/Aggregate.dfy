/** The aggregate protocol (src/aggregate.cpp) as steps on the shared store,
    and what the store holds after any run of them. */
module Aggregate {
  import opened Basics
  import opened NulSeparated
  import opened AggregateStore
  import opened Decimals

  // ---- The user's functions, and what they mean ----

  /** The calls an aggregate function answers. */
  datatype Function<!V, !C> = Function(
    update: (map<int64, Bytes>, seq<(int64, V)>) -> map<int64, Bytes>,
    combine: (Bytes, Bytes) -> Bytes,
    chunk: (C, nat, nat, map<Bytes, Bytes>) -> map<Bytes, Bytes>)

  /** One row folded into one group's state, absent until a value counts. */
  type FoldStep<!V> = (Option<Bytes>, V) -> Option<Bytes>

  function Fold<V>(step: FoldStep<V>, from: Option<Bytes>, rows: seq<V>): Option<Bytes> {
    if rows == [] then from else step(Fold(step, from, rows[..|rows| - 1]), rows[|rows| - 1])
  }

  /** The state of a group to which exactly `rows` contributed. */
  function StateOf<V>(step: FoldStep<V>, rows: seq<V>): Option<Bytes> { Fold(step, None, rows) }

  /** The rows of a batch that belong to a group, in order. */
  function RowsOf<V>(batch: seq<(int64, V)>, g: int64): seq<V> {
    if batch == [] then []
    else RowsOf(batch[..|batch| - 1], g)
         + if batch[|batch| - 1].0 == g then [batch[|batch| - 1].1] else []
  }

  function Lookup<K, T>(m: map<K, T>, k: K): Option<T> { if k in m then Some(m[k]) else None }

  /** The laws of an aggregate: update folds each group's rows and touches no
      other group; a value once folded stays; a value that starts no state
      changes none; and combining two states is folding both row lists. */
  ghost predicate Lawful<V(!new), C>(f: Function<V, C>, step: FoldStep<V>) {
    && (forall states, batch, g ::
          Lookup(f.update(states, batch), g) == Fold(step, Lookup(states, g), RowsOf(batch, g)))
    && (forall s, v :: step(Some(s), v).Some?)
    && (forall s, v :: step(None, v).None? ==> step(Some(s), v) == Some(s))
    && (forall a, b :: StateOf(step, a).Some? && StateOf(step, b).Some? ==>
          StateOf(step, a + b) == Some(f.combine(StateOf(step, a).value, StateOf(step, b).value)))
  }

  lemma {:induction false} FoldConcat<V>(step: FoldStep<V>, from: Option<Bytes>, a: seq<V>, b: seq<V>)
    ensures Fold(step, from, a + b) == Fold(step, Fold(step, from, a), b)
  {
    if b == [] {
      assert a + b == a;
    } else {
      var init := b[..|b| - 1];
      FoldConcat(step, from, a, init);
      assert (a + b)[..|a + b| - 1] == a + init;
    }
  }

  /** A group is stateless exactly when none of its rows counts. */
  lemma {:induction false} StatelessExact<V(!new), C>(f: Function<V, C>, step: FoldStep<V>, rows: seq<V>)
    requires Lawful(f, step)
    ensures StateOf(step, rows).None? <==> forall i :: 0 <= i < |rows| ==> step(None, rows[i]).None?
  {
    if rows != [] {
      var init := rows[..|rows| - 1];
      StatelessExact(f, step, init);
      assert forall i :: 0 <= i < |init| ==> init[i] == rows[i];
      if StateOf(step, init).None? {
        assert StateOf(step, rows) == step(None, rows[|rows| - 1]);
      } else {
        var i :| 0 <= i < |init| && step(None, init[i]).Some?;
        assert step(None, rows[i]).Some?;
      }
    }
  }

  /** Rows that start no state change none. */
  lemma {:induction false} UncountedRows<V(!new), C>(f: Function<V, C>, step: FoldStep<V>, from: Option<Bytes>,
                                                     rows: seq<V>)
    requires Lawful(f, step) && StateOf(step, rows).None?
    ensures Fold(step, from, rows) == from
  {
    if rows != [] {
      var init := rows[..|rows| - 1];
      assert StateOf(step, init).None?;
      UncountedRows(f, step, from, init);
      assert step(None, rows[|rows| - 1]).None?;
    }
  }

  // ---- Calls ----

  datatype Partition = Partition(data: Bytes, schema: Bytes, mask: Bytes, rows: int64)

  datatype Session = Session(partitionKeys: int64, orderKeys: int64, schema: Bytes)

  datatype Call<!V, !C> =
    | Bind(e: Bytes, arguments: Option<Bytes>)
    | Update(e: Bytes, batch: seq<(int64, V)>)
    | Combine(e: Bytes, pairs: seq<(int64, int64)>)
    | Finalize(e: Bytes, ids: seq<int64>)
    | Destroy(e: Bytes)
    | WindowInit(e: Bytes, p: int64, partition: Partition)
    | WindowQuery(e: Bytes, p: int64)
    | WindowDestroy(e: Bytes, which: Option<int64>)
    | StreamOpen(e: Bytes, session: Session)
    | StreamChunk(e: Bytes, chunk: C)
    | StreamClose(e: Bytes)

  // ---- What one call does to the store ----

  function Groups<V>(batch: seq<(int64, V)>): set<int64> { set i | 0 <= i < |batch| :: batch[i].0 }

  /** The states update is handed: only groups that already have one. */
  function Loaded<V>(s: Store, e: Bytes, batch: seq<(int64, V)>): map<int64, Bytes> {
    map g | g in Groups(batch) && Get(s, e, State(g)).Some? :: Get(s, e, State(g)).value
  }

  /** One merge of a source group into a target. */
  function CombineOne(combine: (Bytes, Bytes) -> Bytes, states: int64 -> Option<Bytes>, source: int64, target: int64)
    : int64 -> Option<Bytes>
  {
    if states(source).None? then states
    else
      var merged := if states(target).Some? then combine(states(target).value, states(source).value)
                    else states(source).value;
      (g: int64) => if g == target then Some(merged) else states(g)
  }

  function Combined(combine: (Bytes, Bytes) -> Bytes, states: int64 -> Option<Bytes>, pairs: seq<(int64, int64)>)
    : int64 -> Option<Bytes>
  {
    if pairs == [] then states
    else
      var last := pairs[|pairs| - 1];
      CombineOne(combine, Combined(combine, states, pairs[..|pairs| - 1]), last.0, last.1)
  }

  predicate IsPartitionKey(k: Key, p: int64) {
    k == PartitionData(p) || k == PartitionSchema(p) || k == PartitionMask(p) || k == PartitionRows(p)
  }

  function PartitionValue(part: Partition, k: Key): Bytes {
    match k
    case PartitionSchema(_) => part.schema
    case PartitionMask(_) => part.mask
    case PartitionRows(_) => Decimal(part.rows)
    case _ => part.data
  }

  predicate IsSessionKey(k: Key) { k.SessionPartitionKeys? || k.SessionOrderKeys? || k.SessionSchema? }

  function SessionValue(session: Session, k: Key): Bytes {
    match k
    case SessionPartitionKeys => Decimal(session.partitionKeys)
    case SessionOrderKeys => Decimal(session.orderKeys)
    case _ => session.schema
  }

  /** The value a call leaves under a key. */
  function After<V, C>(fn: Bytes -> Function<V, C>, s: Store, call: Call<V, C>, e: Bytes, k: Key): Option<Bytes> {
    if e != call.e then Get(s, e, k) else
    match call
    case Bind(_, arguments) => if k == Arguments && arguments.Some? then arguments else Get(s, e, k)
    case Update(_, batch) =>
      var states := fn(e).update(Loaded(s, e, batch), batch);
      if k.State? && k.group in states then Some(states[k.group]) else Get(s, e, k)
    case Combine(_, pairs) =>
      if k.State? then Combined(fn(e).combine, g => Get(s, e, State(g)), pairs)(k.group) else Get(s, e, k)
    case Destroy(_) => if e != [] then None else Get(s, e, k)
    case StreamClose(_) => if e != [] then None else Get(s, e, k)
    case WindowInit(_, p, part) => if IsPartitionKey(k, p) then Some(PartitionValue(part, k)) else Get(s, e, k)
    case WindowDestroy(_, which) =>
      if e != [] && which.Some? && IsPartitionKey(k, which.value) then None else Get(s, e, k)
    case StreamOpen(_, session) => if IsSessionKey(k) then Some(SessionValue(session, k)) else Get(s, e, k)
    case _ => Get(s, e, k)
  }

  // ---- The streaming log ----

  /** One appended entry: the partition key, a NUL, the state. */
  function Entry(key: Bytes, state: Bytes): Bytes { key + [0] + state }

  /** The state map at the start of a chunk: the newest entry per key. */
  function Replay(log: seq<Bytes>): map<Bytes, Bytes> {
    if log == [] then map[]
    else
      var blob := log[|log| - 1];
      var i := FirstNul(blob);
      if i == |blob| then Replay(log[..|log| - 1])
      else Replay(log[..|log| - 1])[blob[..i] := blob[i + 1..]]
  }

  /** `entries` writes out `m`, each key once, in some order. */
  ghost predicate WritesOut(entries: seq<Bytes>, m: map<Bytes, Bytes>) {
    exists order: seq<Bytes> :: IsOrder(order, m) && entries == EntriesOf(order, m)
  }

  ghost predicate IsOrder(order: seq<Bytes>, m: map<Bytes, Bytes>) {
    NoDuplicates(order) && (forall i :: 0 <= i < |order| ==> order[i] in m) && (forall k :: k in m ==> k in order)
  }

  function EntriesOf(order: seq<Bytes>, m: map<Bytes, Bytes>): (r: seq<Bytes>)
    requires forall i :: 0 <= i < |order| ==> order[i] in m
    ensures |r| == |order|
  {
    seq(|order|, i requires 0 <= i < |order| => Entry(order[i], m[order[i]]))
  }

  /** A stored count, as `strtoull` reads it: none is 0. */
  function Count(s: Store, e: Bytes, k: Key): nat {
    match Get(s, e, k) case None => 0 case Some(t) => ParseDecimal(t) % TWO64
  }

  /** The state map a chunk ends with. */
  function ChunkStates<V, C>(fn: Bytes -> Function<V, C>, s: Store, e: Bytes, chunk: C): map<Bytes, Bytes> {
    fn(e).chunk(chunk, Count(s, e, SessionPartitionKeys), Count(s, e, SessionOrderKeys), Replay(Log(s, e)))
  }

  ghost predicate LogAfter<V, C>(fn: Bytes -> Function<V, C>, s: Store, call: Call<V, C>, e: Bytes, log: seq<Bytes>) {
    if e != call.e then log == Log(s, e) else
    match call
    case Destroy(_) => log == if e != [] then [] else Log(s, e)
    case StreamClose(_) => log == if e != [] then [] else Log(s, e)
    case StreamChunk(_, chunk) =>
      exists entries :: WritesOut(entries, ChunkStates(fn, s, e, chunk)) && log == Log(s, e) + entries
    case _ => log == Log(s, e)
  }

  /** One call, as a step of the store. */
  ghost predicate Step<V, C>(fn: Bytes -> Function<V, C>, s: Store, call: Call<V, C>, s': Store) {
    && (forall e, k :: Get(s', e, k) == After(fn, s, call, e, k))
    && (forall e :: LogAfter(fn, s, call, e, Log(s', e)))
  }

  /** Every run of calls over any number of executions, from an empty store. */
  ghost predicate IsRun<V, C>(fn: Bytes -> Function<V, C>, states: seq<Store>, calls: seq<Call<V, C>>) {
    && |states| == |calls| + 1
    && states[0] == EMPTY
    && (forall i :: 0 <= i < |calls| ==> Step(fn, states[i], calls[i], states[i + 1]))
  }

  lemma RunPrefix<V, C>(fn: Bytes -> Function<V, C>, states: seq<Store>, calls: seq<Call<V, C>>)
    requires IsRun(fn, states, calls) && calls != []
    ensures IsRun(fn, states[..|states| - 1], calls[..|calls| - 1])
    ensures Step(fn, states[|calls| - 1], calls[|calls| - 1], states[|calls|])
  {
    var s, c := states[..|states| - 1], calls[..|calls| - 1];
    forall i | 0 <= i < |c| ensures Step(fn, s[i], c[i], s[i + 1]) {
      assert Step(fn, states[i], calls[i], states[i + 1]);
    }
  }

  // ---- What the history says ----

  function MergeRows<V>(rows: int64 -> seq<V>, pairs: seq<(int64, int64)>): int64 -> seq<V> {
    if pairs == [] then rows
    else
      var before := MergeRows(rows, pairs[..|pairs| - 1]);
      var last := pairs[|pairs| - 1];
      (g: int64) => if g == last.1 then before(last.1) + before(last.0) else before(g)
  }

  /** The rows contributed to each group of an execution: its own, plus those
      of every source merged into it, in order. */
  function Contributed<V, C>(calls: seq<Call<V, C>>, e: Bytes): int64 -> seq<V> {
    if calls == [] then (_ => [])
    else Contribute(Contributed(calls[..|calls| - 1], e), calls[|calls| - 1], e)
  }

  /** What one call adds to the contributed rows. */
  function Contribute<V, C>(before: int64 -> seq<V>, call: Call<V, C>, e: Bytes): int64 -> seq<V> {
    if call.e != e then before else
    match call
    case Update(_, batch) => (g: int64) => before(g) + RowsOf(batch, g)
    case Combine(_, pairs) => MergeRows(before, pairs)
    case Destroy(_) => if e == [] then before else (_ => [])
    case StreamClose(_) => if e == [] then before else (_ => [])
    case _ => before
  }

  /** The partition last stored under an id and not destroyed since. */
  function Live<V, C>(calls: seq<Call<V, C>>, e: Bytes, p: int64): Option<Partition> {
    if calls == [] then None else LiveAfter(Live(calls[..|calls| - 1], e, p), calls[|calls| - 1], e, p)
  }

  function LiveAfter<V, C>(before: Option<Partition>, call: Call<V, C>, e: Bytes, p: int64): Option<Partition> {
    if call.e != e then before else
    match call
    case WindowInit(_, q, part) => if q == p then Some(part) else before
    case WindowDestroy(_, which) => if e != [] && which == Some(p) then None else before
    case Destroy(_) => if e == [] then before else None
    case StreamClose(_) => if e == [] then before else None
    case _ => before
  }

  function Stash<V, C>(calls: seq<Call<V, C>>, e: Bytes): Option<Bytes> {
    if calls == [] then None
    else
      var before := Stash(calls[..|calls| - 1], e);
      var call := calls[|calls| - 1];
      if call.e != e then before else
      match call
      case Bind(_, arguments) => if arguments.Some? then arguments else before
      case Destroy(_) => if e == [] then before else None
      case StreamClose(_) => if e == [] then before else None
      case _ => before
  }

  function Opened<V, C>(calls: seq<Call<V, C>>, e: Bytes): Option<Session> {
    if calls == [] then None else OpenedAfter(Opened(calls[..|calls| - 1], e), calls[|calls| - 1], e)
  }

  function OpenedAfter<V, C>(before: Option<Session>, call: Call<V, C>, e: Bytes): Option<Session> {
    if call.e != e then before else
    match call
    case StreamOpen(_, session) => Some(session)
    case Destroy(_) => if e == [] then before else None
    case StreamClose(_) => if e == [] then before else None
    case _ => before
  }

  function KeyCount(n: int64): nat { n % TWO64 }

  /** The state map the last chunk of a session ended with. */
  function StreamStates<V, C>(fn: Bytes -> Function<V, C>, calls: seq<Call<V, C>>, e: Bytes): map<Bytes, Bytes> {
    if calls == [] then map[]
    else
      var init := calls[..|calls| - 1];
      var before := StreamStates(fn, init, e);
      var call := calls[|calls| - 1];
      if call.e != e then before else
      match call
      case StreamChunk(_, chunk) =>
        (match Opened(init, e)
         case None => fn(e).chunk(chunk, 0, 0, before)
         case Some(session) =>
           fn(e).chunk(chunk, KeyCount(session.partitionKeys), KeyCount(session.orderKeys), before))
      case Destroy(_) => if e == [] then before else map[]
      case StreamClose(_) => if e == [] then before else map[]
      case _ => before
  }

  // ---- Groups ----

  lemma {:induction false} CombineFollows<V(!new), C>(f: Function<V, C>, step: FoldStep<V>,
                                                      states: int64 -> Option<Bytes>,
                                                      rows: int64 -> seq<V>, pairs: seq<(int64, int64)>, g: int64)
    requires Lawful(f, step)
    requires forall h :: states(h) == StateOf(step, rows(h))
    ensures Combined(f.combine, states, pairs)(g) == StateOf(step, MergeRows(rows, pairs)(g))
  {
    if pairs != [] {
      var init, last := pairs[..|pairs| - 1], pairs[|pairs| - 1];
      CombineFollows(f, step, states, rows, init, g);
      CombineFollows(f, step, states, rows, init, last.0);
      CombineFollows(f, step, states, rows, init, last.1);
      if g == last.1 {
        MergeOne(f, step, MergeRows(rows, init)(last.1), MergeRows(rows, init)(last.0));
      }
    }
  }

  /** Merging two groups' states is folding the rows of both. */
  lemma MergeOne<V(!new), C>(f: Function<V, C>, step: FoldStep<V>, target: seq<V>, source: seq<V>)
    requires Lawful(f, step)
    ensures StateOf(step, target + source) ==
      match (StateOf(step, target), StateOf(step, source))
      case (_, None) => StateOf(step, target)
      case (None, Some(s)) => Some(s)
      case (Some(t), Some(s)) => Some(f.combine(t, s))
  {
    FoldConcat(step, None, target, source);
    if StateOf(step, source).None? { UncountedRows(f, step, StateOf(step, target), source); }
  }

  lemma UpdateFollows<V(!new), C>(f: Function<V, C>, step: FoldStep<V>, s: Store, e: Bytes, batch: seq<(int64, V)>,
                                  rows: seq<V>, g: int64)
    requires Lawful(f, step) && Get(s, e, State(g)) == StateOf(step, rows)
    ensures var states := f.update(Loaded(s, e, batch), batch);
      (if g in states then Some(states[g]) else Get(s, e, State(g))) == StateOf(step, rows + RowsOf(batch, g))
  {
    var loaded := Loaded(s, e, batch);
    var states := f.update(loaded, batch);
    assert Lookup(states, g) == Fold(step, Lookup(loaded, g), RowsOf(batch, g));
    FoldConcat(step, None, rows, RowsOf(batch, g));
    if g !in Groups(batch) {
      NoRows(batch, g);
      assert rows + [] == rows;
    } else {
      assert Lookup(loaded, g) == Get(s, e, State(g));
      if g !in states { FoldKeeps(f, step, Lookup(loaded, g), RowsOf(batch, g)); }
    }
  }

  lemma {:induction false} NoRows<V>(batch: seq<(int64, V)>, g: int64)
    requires g !in Groups(batch)
    ensures RowsOf(batch, g) == []
  {
    if batch != [] {
      var init := batch[..|batch| - 1];
      assert forall i :: 0 <= i < |init| ==> init[i].0 == batch[i].0;
      assert batch[|batch| - 1].0 in Groups(batch);
      forall h | h in Groups(init) ensures h in Groups(batch) {
        var i :| 0 <= i < |init| && init[i].0 == h;
        assert batch[i].0 == h;
      }
      NoRows(init, g);
    }
  }

  /** A state, once there, is never folded away. */
  lemma {:induction false} FoldKeeps<V(!new), C>(f: Function<V, C>, step: FoldStep<V>, from: Option<Bytes>,
                                                 rows: seq<V>)
    requires Lawful(f, step)
    ensures from.Some? ==> Fold(step, from, rows).Some?
  {
    if rows != [] { FoldKeeps(f, step, from, rows[..|rows| - 1]); }
  }

  /** One call keeps every group at the fold of its contributed rows. */
  lemma GroupFollows<V(!new), C>(fn: Bytes -> Function<V, C>, step: FoldStep<V>, s: Store, call: Call<V, C>, e: Bytes,
                                 rows: int64 -> seq<V>, g: int64)
    requires Lawful(fn(e), step)
    requires forall h :: Get(s, e, State(h)) == StateOf(step, rows(h))
    ensures After(fn, s, call, e, State(g)) == StateOf(step, Contribute(rows, call, e)(g))
  {
    if call.e == e && call.Update? {
      UpdateFollows(fn(e), step, s, e, call.batch, rows(g), g);
    } else if call.e == e && call.Combine? {
      CombineFollows(fn(e), step, h => Get(s, e, State(h)), rows, call.pairs, g);
    }
  }

  /** After every run of calls, in any interleaving, over any executions and
      groups, the stored state of a group is the fold of exactly the rows
      contributed to it, and is absent when that fold is. */
  lemma {:induction false} GroupStateIsFold<V(!new), C>(fn: Bytes -> Function<V, C>, step: Bytes -> FoldStep<V>,
                                                        states: seq<Store>, calls: seq<Call<V, C>>, e: Bytes, g: int64)
    requires forall x :: Lawful(fn(x), step(x))
    requires IsRun(fn, states, calls)
    ensures Get(states[|calls|], e, State(g)) == StateOf(step(e), Contributed(calls, e)(g))
    decreases |calls|
  {
    if calls != [] {
      RunPrefix(fn, states, calls);
      var init, call := calls[..|calls| - 1], calls[|calls| - 1];
      var before := states[..|states| - 1];
      var s := states[|calls| - 1];
      assert before[|init|] == s;
      forall h ensures Get(s, e, State(h)) == StateOf(step(e), Contributed(init, e)(h)) {
        GroupStateIsFold(fn, step, before, init, e, h);
      }
      GroupFollows(fn, step(e), s, call, e, Contributed(init, e), g);
      assert Get(states[|calls|], e, State(g)) == After(fn, s, call, e, State(g));
    }
  }

  // ---- Partitions, arguments and sessions ----

  function StoredPartition(part: Option<Partition>, k: Key): Option<Bytes> {
    if part.None? then None else Some(PartitionValue(part.value, k))
  }

  /** What a call leaves under a key that is no group's. */
  lemma AfterPlain<V, C>(fn: Bytes -> Function<V, C>, s: Store, call: Call<V, C>, e: Bytes, k: Key)
    requires !k.State? && e == call.e
    ensures !(call.Bind? || call.WindowInit? || call.WindowDestroy? || call.StreamOpen? || call.Destroy?
              || call.StreamClose?) ==>
      After(fn, s, call, e, k) == Get(s, e, k)
    ensures (call.Destroy? || call.StreamClose?) ==> After(fn, s, call, e, k) == if e != [] then None else Get(s, e, k)
  {
  }

  lemma PartitionFollows<V, C>(fn: Bytes -> Function<V, C>, s: Store, call: Call<V, C>, e: Bytes, p: int64, k: Key,
                               before: Option<Partition>)
    requires IsPartitionKey(k, p) && Get(s, e, k) == StoredPartition(before, k)
    ensures After(fn, s, call, e, k) == StoredPartition(LiveAfter(before, call, e, p), k)
  {
    if call.e == e {
      AfterPlain(fn, s, call, e, k);
      if call.WindowInit? {
        assert After(fn, s, call, e, k) ==
          if call.p == p then Some(PartitionValue(call.partition, k)) else Get(s, e, k);
      } else if call.WindowDestroy? {
        assert After(fn, s, call, e, k) == if e != [] && call.which == Some(p) then None else Get(s, e, k);
      } else if call.Destroy? || call.StreamClose? {
        assert LiveAfter(before, call, e, p) == if e == [] then before else None;
      } else {
        assert LiveAfter(before, call, e, p) == before;
        assert After(fn, s, call, e, k) == Get(s, e, k);
      }
    }
  }

  /** After every run, exactly the live partitions are stored, each as it was
      last given: no group, argument or other partition gets in its way. */
  lemma {:induction false} PartitionIsLive<V, C>(fn: Bytes -> Function<V, C>, states: seq<Store>,
                                                 calls: seq<Call<V, C>>,
                                                 e: Bytes, p: int64, k: Key)
    requires IsRun(fn, states, calls) && IsPartitionKey(k, p)
    ensures Get(states[|calls|], e, k) == StoredPartition(Live(calls, e, p), k)
    decreases |calls|
  {
    if calls != [] {
      RunPrefix(fn, states, calls);
      var init, before := calls[..|calls| - 1], states[..|states| - 1];
      assert before[|init|] == states[|calls| - 1];
      PartitionIsLive(fn, before, init, e, p, k);
      PartitionFollows(fn, states[|calls| - 1], calls[|calls| - 1], e, p, k, Live(init, e, p));
      assert Get(states[|calls|], e, k) == After(fn, states[|calls| - 1], calls[|calls| - 1], e, k);
    }
  }

  lemma {:induction false} ArgumentsAreStashed<V, C>(fn: Bytes -> Function<V, C>, states: seq<Store>,
                                                     calls: seq<Call<V, C>>, e: Bytes)
    requires IsRun(fn, states, calls)
    ensures Get(states[|calls|], e, Arguments) == Stash(calls, e)
    decreases |calls|
  {
    if calls != [] {
      RunPrefix(fn, states, calls);
      var init, before := calls[..|calls| - 1], states[..|states| - 1];
      assert before[|init|] == states[|calls| - 1];
      ArgumentsAreStashed(fn, before, init, e);
      assert Get(states[|calls|], e, Arguments) == After(fn, states[|calls| - 1], calls[|calls| - 1], e, Arguments);
    }
  }

  /** So each of the four values under a live partition is what it was given
      for. */
  lemma PartitionStored<V, C>(fn: Bytes -> Function<V, C>, states: seq<Store>, calls: seq<Call<V, C>>, e: Bytes,
                              p: int64)
    requires IsRun(fn, states, calls)
    ensures var s := states[|calls|];
      match Live(calls, e, p)
      case None =>
        && Get(s, e, PartitionData(p)) == Get(s, e, PartitionSchema(p)) == None
        && Get(s, e, PartitionMask(p)) == Get(s, e, PartitionRows(p)) == None
      case Some(part) =>
        && Get(s, e, PartitionData(p)) == Some(part.data) && Get(s, e, PartitionSchema(p)) == Some(part.schema)
        && Get(s, e, PartitionMask(p)) == Some(part.mask) && Get(s, e, PartitionRows(p)) == Some(Decimal(part.rows))
  {
    PartitionIsLive(fn, states, calls, e, p, PartitionData(p));
    PartitionIsLive(fn, states, calls, e, p, PartitionSchema(p));
    PartitionIsLive(fn, states, calls, e, p, PartitionMask(p));
    PartitionIsLive(fn, states, calls, e, p, PartitionRows(p));
  }

  function StoredSession(session: Option<Session>, k: Key): Option<Bytes> {
    if session.None? then None else Some(SessionValue(session.value, k))
  }

  lemma SessionFollows<V, C>(fn: Bytes -> Function<V, C>, s: Store, call: Call<V, C>, e: Bytes, k: Key,
                             before: Option<Session>)
    requires IsSessionKey(k) && Get(s, e, k) == StoredSession(before, k)
    ensures After(fn, s, call, e, k) == StoredSession(OpenedAfter(before, call, e), k)
  {
    if call.e == e {
      AfterPlain(fn, s, call, e, k);
      if call.StreamOpen? {
        assert After(fn, s, call, e, k) == Some(SessionValue(call.session, k));
      } else if call.Destroy? || call.StreamClose? {
        assert OpenedAfter(before, call, e) == if e == [] then before else None;
      } else {
        assert OpenedAfter(before, call, e) == before;
        assert After(fn, s, call, e, k) == Get(s, e, k);
      }
    }
  }

  lemma {:induction false} SessionIsOpened<V, C>(fn: Bytes -> Function<V, C>, states: seq<Store>,
                                                 calls: seq<Call<V, C>>,
                                                 e: Bytes, k: Key)
    requires IsRun(fn, states, calls) && IsSessionKey(k)
    ensures Get(states[|calls|], e, k) == StoredSession(Opened(calls, e), k)
    decreases |calls|
  {
    if calls != [] {
      RunPrefix(fn, states, calls);
      var init, before := calls[..|calls| - 1], states[..|states| - 1];
      assert before[|init|] == states[|calls| - 1];
      SessionIsOpened(fn, before, init, e, k);
      SessionFollows(fn, states[|calls| - 1], calls[|calls| - 1], e, k, Opened(init, e));
      assert Get(states[|calls|], e, k) == After(fn, states[|calls| - 1], calls[|calls| - 1], e, k);
    }
  }

  /** So each setting of an open session is the one it was opened with. */
  lemma SessionStored<V, C>(fn: Bytes -> Function<V, C>, states: seq<Store>, calls: seq<Call<V, C>>, e: Bytes)
    requires IsRun(fn, states, calls)
    ensures var s := states[|calls|];
      match Opened(calls, e)
      case None =>
        && Get(s, e, SessionPartitionKeys) == Get(s, e, SessionOrderKeys) == None && Get(s, e, SessionSchema) == None
      case Some(session) =>
        && Get(s, e, SessionPartitionKeys) == Some(Decimal(session.partitionKeys))
        && Get(s, e, SessionOrderKeys) == Some(Decimal(session.orderKeys))
        && Get(s, e, SessionSchema) == Some(session.schema)
  {
    SessionIsOpened(fn, states, calls, e, SessionPartitionKeys);
    SessionIsOpened(fn, states, calls, e, SessionOrderKeys);
    SessionIsOpened(fn, states, calls, e, SessionSchema);
  }

  // ---- The streaming log, replayed ----

  ghost predicate NulFreeKeys(m: map<Bytes, Bytes>) { forall k :: k in m ==> NulFree(k) }

  lemma {:induction false} ReplayKeysNulFree(log: seq<Bytes>)
    ensures NulFreeKeys(Replay(log))
  {
    if log != [] {
      ReplayKeysNulFree(log[..|log| - 1]);
      var blob := log[|log| - 1];
      assert NulFree(blob[..FirstNul(blob)]);
    }
  }

  lemma {:induction false} ReplayKeysGrow(log: seq<Bytes>, more: seq<Bytes>)
    ensures Replay(log).Keys <= Replay(log + more).Keys
  {
    if more == [] {
      assert log + more == log;
    } else {
      ReplayKeysGrow(log, more[..|more| - 1]);
      assert (log + more)[..|log + more| - 1] == log + more[..|more| - 1];
    }
  }

  lemma OverrideLast(base: map<Bytes, Bytes>, order: seq<Bytes>, m: map<Bytes, Bytes>)
    requires order != [] && order[|order| - 1] in m
    ensures var init, key := order[..|order| - 1], order[|order| - 1];
      base + (map k | k in m && k in order :: m[k]) == (base + map k | k in m && k in init :: m[k])[key := m[key]]
  {
    var init, key := order[..|order| - 1], order[|order| - 1];
    assert forall k :: k in order <==> k in init || k == key;
  }

  /** Appended entries override, key by key, even when states hold NULs. */
  lemma {:induction false} ReplayAppended(log: seq<Bytes>, order: seq<Bytes>, m: map<Bytes, Bytes>)
    requires forall i :: 0 <= i < |order| ==> order[i] in m && NulFree(order[i])
    ensures Replay(log + EntriesOf(order, m))
      == Replay(log) + map k | k in m && k in order :: m[k]
  {
    var entries := EntriesOf(order, m);
    if order == [] {
      assert log + entries == log;
    } else {
      var init, key := order[..|order| - 1], order[|order| - 1];
      ReplayAppended(log, init, m);
      assert entries[..|entries| - 1] == EntriesOf(init, m);
      assert (log + entries)[..|log + entries| - 1] == log + EntriesOf(init, m);
      assert (log + entries)[|log + entries| - 1] == Entry(key, m[key]);
      FirstNulAt(key, m[key]);
      OverrideLast(Replay(log), order, m);
    }
  }

  /** When the log replays to the map a chunk ended with: exactly when every
      partition key is free of NULs and no key the chunk started with was
      dropped. A dropped key comes back with its stale state. */
  lemma ReplayExact(log: seq<Bytes>, entries: seq<Bytes>, m: map<Bytes, Bytes>)
    requires WritesOut(entries, m)
    ensures Replay(log + entries) == m <==> NulFreeKeys(m) && Replay(log).Keys <= m.Keys
  {
    var order :| IsOrder(order, m) && entries == EntriesOf(order, m);
    ReplayKeysNulFree(log + entries);
    ReplayKeysGrow(log, entries);
    if NulFreeKeys(m) {
      ReplayAppended(log, order, m);
      assert (map k | k in m && k in order :: m[k]) == m;
    }
  }

  /** A concrete chunk that drops its one partition: the next chunk sees the
      dropped state again. */
  lemma DroppedKeyComesBack()
    ensures WritesOut([], map[]) && Replay([Entry([1], [2])] + []) != map[]
  {
    assert IsOrder([], map[]) && EntriesOf([], map[]) == [];
    ReplayAppended([], [[1]], map[[1] := [2]]);
    assert [Entry([1], [2])] + [] == [] + EntriesOf([[1]], map[[1] := [2]]);
    assert [1] in [[1]];
    assert [1] in Replay([Entry([1], [2])] + []);
  }

  /** A streaming function keeps every partition it has seen, and names
      partitions without NULs. */
  ghost predicate Keeps<V, C(!new)>(f: Function<V, C>) {
    forall chunk, p, o, m :: NulFreeKeys(m) ==>
      NulFreeKeys(f.chunk(chunk, p, o, m)) && m.Keys <= f.chunk(chunk, p, o, m).Keys
  }

  lemma CountIsKeyCount(n: int64)
    ensures ParseDecimal(Decimal(n)) % TWO64 == KeyCount(n)
  {
    ParseOfDecimal(n);
  }

  /** What one chunk appends replays to the map it ended with. */
  lemma ChunkReplays<V, C(!new)>(fn: Bytes -> Function<V, C>, s: Store, e: Bytes, chunk: C, log: seq<Bytes>)
    requires forall x :: Keeps(fn(x))
    requires exists entries :: WritesOut(entries, ChunkStates(fn, s, e, chunk)) && log == Log(s, e) + entries
    ensures Replay(log) == ChunkStates(fn, s, e, chunk)
  {
    var m := ChunkStates(fn, s, e, chunk);
    var entries :| WritesOut(entries, m) && log == Log(s, e) + entries;
    ReplayKeysNulFree(Log(s, e));
    ReplayExact(Log(s, e), entries, m);
  }

  /** After every run, the log of a session replays to exactly the state map
      its last chunk ended with. */
  lemma {:induction false} LogIsStreamStates<V, C(!new)>(fn: Bytes -> Function<V, C>, states: seq<Store>,
                                                         calls: seq<Call<V, C>>, e: Bytes)
    requires forall x :: Keeps(fn(x))
    requires IsRun(fn, states, calls)
    ensures Replay(Log(states[|calls|], e)) == StreamStates(fn, calls, e)
    decreases |calls|
  {
    if calls != [] {
      RunPrefix(fn, states, calls);
      var init, call := calls[..|calls| - 1], calls[|calls| - 1];
      var before := states[..|states| - 1];
      var s, s' := states[|calls| - 1], states[|calls|];
      assert before[|init|] == s;
      LogIsStreamStates(fn, before, init, e);
      assert LogAfter(fn, s, call, e, Log(s', e));
      if call.e == e && call.StreamChunk? {
        SessionIsOpened(fn, before, init, e, SessionPartitionKeys);
        SessionIsOpened(fn, before, init, e, SessionOrderKeys);
        if Opened(init, e).Some? {
          CountIsKeyCount(Opened(init, e).value.partitionKeys);
          CountIsKeyCount(Opened(init, e).value.orderKeys);
        }
        ChunkReplays(fn, s, e, call.chunk, Log(s', e));
      }
    }
  }
}
