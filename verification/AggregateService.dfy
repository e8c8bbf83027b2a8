/** The aggregate handlers (src/aggregate.cpp) over the shared store: each one
    is a step, and what its caller reads is what the history of calls says. */
module AggregateService {
  import opened Basics
  import opened NulSeparated
  import opened AggregateStore
  import opened Decimals
  import opened Aggregate
  import opened Window

  datatype QueryError = UnknownPartition | NoOutputSchema

  /** What a window function is handed. */
  datatype WindowInput = WindowInput(data: Bytes, schema: Bytes, mask: seq<bool>)

  /** The reads of `window_result`. */
  function ReadWindow(s: Store, e: Bytes, p: int64): Result<WindowInput, QueryError> {
    match Get(s, e, PartitionData(p))
    case None => Err(UnknownPartition)
    case Some(data) =>
      match Get(s, e, PartitionSchema(p))
      case None => Err(NoOutputSchema)
      case Some(schema) =>
        if schema == [] then Err(NoOutputSchema) else
        var rows := match Get(s, e, PartitionRows(p)) case Some(t) => ParseDecimal(t) case None => 0;
        var packed := match Get(s, e, PartitionMask(p)) case Some(t) => t case None => [];
        Ok(WindowInput(data, schema, Unpack(packed, rows)))
  }

  /** After any run, a query on a live partition sees exactly the data, schema
      and FILTER mask last stored for it; on any other it is refused. */
  lemma QuerySeesLive<V, C>(fn: Bytes -> Function<V, C>, states: seq<Store>, calls: seq<Call<V, C>>, e: Bytes, p: int64)
    requires IsRun(fn, states, calls)
    ensures ReadWindow(states[|calls|], e, p) ==
      match Live(calls, e, p)
      case None => Err(UnknownPartition)
      case Some(part) =>
        if part.schema == [] then Err(NoOutputSchema)
        else Ok(WindowInput(part.data, part.schema, Unpack(part.mask, part.rows)))
  {
    PartitionIsLive(fn, states, calls, e, p, PartitionData(p));
    PartitionIsLive(fn, states, calls, e, p, PartitionSchema(p));
    PartitionIsLive(fn, states, calls, e, p, PartitionMask(p));
    PartitionIsLive(fn, states, calls, e, p, PartitionRows(p));
    if Live(calls, e, p).Some? { ParseOfDecimal(Live(calls, e, p).value.rows); }
  }

  lemma PutAll(s: Store, e: Bytes, k: Key, v: Bytes)
    ensures forall x, y :: Get(Put(s, e, k, v), x, y) == if x == e && y == k then Some(v) else Get(s, x, y)
  {
    forall x, y ensures Get(Put(s, e, k, v), x, y) == if x == e && y == k then Some(v) else Get(s, x, y) {
      GetPut(s, e, k, v, x, y);
    }
  }

  lemma DeleteAll(s: Store, e: Bytes, k: Key)
    ensures forall x, y :: Get(Delete(s, e, k), x, y) == if x == e && y == k then None else Get(s, x, y)
  {
    forall x, y ensures Get(Delete(s, e, k), x, y) == if x == e && y == k then None else Get(s, x, y) {
      GetDelete(s, e, k, x, y);
    }
  }

  /** The states finalize hands out, in the order asked. */
  function FinalStates(s: Store, e: Bytes, ids: seq<int64>): (r: seq<Option<Bytes>>)
    ensures |r| == |ids|
  {
    seq(|ids|, i requires 0 <= i < |ids| => Get(s, e, State(ids[i])))
  }

  /** After any run, finalize hands out the fold of exactly the rows that were
      contributed to each group asked for, and the arguments last bound. */
  lemma FinalizeGivesFolds<V(!new), C(!new)>(fn: Bytes -> Function<V, C>, step: Bytes -> FoldStep<V>,
                                             states: seq<Store>, calls: seq<Call<V, C>>, e: Bytes, ids: seq<int64>)
    requires forall x :: Lawful(fn(x), step(x))
    requires IsRun(fn, states, calls)
    ensures forall i :: 0 <= i < |ids| ==>
      FinalStates(states[|calls|], e, ids)[i] == StateOf(step(e), Contributed(calls, e)(ids[i]))
    ensures Get(states[|calls|], e, Arguments) == Stash(calls, e)
  {
    forall i | 0 <= i < |ids|
      ensures FinalStates(states[|calls|], e, ids)[i] == StateOf(step(e), Contributed(calls, e)(ids[i]))
    {
      GroupStateIsFold(fn, step, states, calls, e, ids[i]);
    }
    ArgumentsAreStashed(fn, states, calls, e);
  }

  lemma StreamOpenStep<V, C>(fn: Bytes -> Function<V, C>, s: Store, s': Store, e: Bytes, session: Session)
    requires s'.logs == s.logs
    requires forall x, y ::
      Get(s', x, y) == if x == e && IsSessionKey(y) then Some(SessionValue(session, y)) else Get(s, x, y)
    ensures Step(fn, s, Call<V, C>.StreamOpen(e, session), s')
  {
  }

  lemma WindowInitStep<V, C>(fn: Bytes -> Function<V, C>, s: Store, s': Store, e: Bytes, p: int64, part: Partition)
    requires s'.logs == s.logs
    requires forall x, y ::
      Get(s', x, y) == if x == e && IsPartitionKey(y, p) then Some(PartitionValue(part, y)) else Get(s, x, y)
    ensures Step(fn, s, Call<V, C>.WindowInit(e, p, part), s')
  {
  }

  class Dispatcher<V(!new), C(!new)> {
    const fn: Bytes -> Function<V, C>
    var store: Store

    constructor (fn: Bytes -> Function<V, C>)
      ensures this.fn == fn && store == EMPTY
    {
      this.fn := fn;
      store := EMPTY;
    }

    method KvPut(e: Bytes, k: Key, v: Bytes)
      modifies this`store
      ensures store.logs == old(store).logs
      ensures forall x, y :: Get(store, x, y) == if x == e && y == k then Some(v) else Get(old(store), x, y)
    {
      PutAll(store, e, k, v);
      store := Put(store, e, k, v);
    }

    method KvDel(e: Bytes, k: Key)
      modifies this`store
      ensures store.logs == old(store).logs
      ensures forall x, y :: Get(store, x, y) == if x == e && y == k then None else Get(old(store), x, y)
    {
      DeleteAll(store, e, k);
      store := Delete(store, e, k);
    }

    /** `aggregate_bind`: the arguments are stashed for finalize. */
    method DoBind(e: Bytes, arguments: Option<Bytes>)
      modifies this`store
      ensures Step(fn, old(store), Call<V, C>.Bind(e, arguments), store)
    {
      if arguments.Some? {
        KvPut(e, Arguments, arguments.value);
      }
    }

    /** `aggregate_update`: load the groups of the batch that have state, let
        the function fold, store what it returns. */
    method DoUpdate(e: Bytes, batch: seq<(int64, V)>)
      modifies this`store
      ensures Step(fn, old(store), Call<V, C>.Update(e, batch), store)
    {
      var states := LoadStates(e, batch);
      states := fn(e).update(states, batch);
      StoreStates(e, states);
    }

    method LoadStates(e: Bytes, batch: seq<(int64, V)>) returns (states: map<int64, Bytes>)
      ensures states == Loaded(store, e, batch)
    {
      states := map[];
      for i := 0 to |batch|
        invariant states == Loaded(store, e, batch[..i])
      {
        var id := batch[i].0;
        assert Groups(batch[..i + 1]) == Groups(batch[..i]) + {id} by {
          assert batch[..i + 1][i].0 == id;
          assert forall k :: 0 <= k < i ==> batch[..i + 1][k] == batch[..i][k];
        }
        var held := Get(store, e, State(id));
        if id !in states && held.Some? { states := states[id := held.value]; }
      }
      assert batch[..|batch|] == batch;
    }

    method StoreStates(e: Bytes, states: map<int64, Bytes>)
      modifies this`store
      ensures store.logs == old(store).logs
      ensures forall x, y: Key ::
        Get(store, x, y) ==
        if x == e && y.State? && y.group in states then Some(states[y.group]) else Get(old(store), x, y)
    {
      var todo := states.Keys;
      while todo != {}
        invariant todo <= states.Keys && store.logs == old(store).logs
        invariant forall x, y: Key ::
          Get(store, x, y) ==
          if x == e && y.State? && y.group in states && y.group !in todo then Some(states[y.group])
          else Get(old(store), x, y)
        decreases todo
      {
        var id :| id in todo;
        KvPut(e, State(id), states[id]);
        todo := todo - {id};
      }
    }

    /** `aggregate_combine`: one merge per row of the batch, in order. */
    method DoCombine(e: Bytes, pairs: seq<(int64, int64)>)
      modifies this`store
      ensures Step(fn, old(store), Call<V, C>.Combine(e, pairs), store)
    {
      ghost var before := store;
      ghost var held := (g: int64) => Get(before, e, State(g));
      for i := 0 to |pairs|
        invariant store.logs == before.logs
        invariant forall g :: Get(store, e, State(g)) == Combined(fn(e).combine, held, pairs[..i])(g)
        invariant forall x, y: Key :: x != e || !y.State? ==> Get(store, x, y) == Get(before, x, y)
      {
        assert pairs[..i + 1][..i] == pairs[..i];
        CombinePair(e, pairs[i].0, pairs[i].1, Combined(fn(e).combine, held, pairs[..i]));
      }
      assert pairs[..|pairs|] == pairs;
    }

    method CombinePair(e: Bytes, source: int64, target: int64, ghost states: int64 -> Option<Bytes>)
      requires forall g :: Get(store, e, State(g)) == states(g)
      modifies this`store
      ensures store.logs == old(store).logs
      ensures forall g :: Get(store, e, State(g)) == CombineOne(fn(e).combine, states, source, target)(g)
      ensures forall x, y: Key :: x != e || !y.State? ==> Get(store, x, y) == Get(old(store), x, y)
    {
      var s := Get(store, e, State(source));
      if s.None? { return; }
      var t := Get(store, e, State(target));
      KvPut(e, State(target), if t.Some? then fn(e).combine(t.value, s.value) else s.value);
    }

    /** `aggregate_finalize`: the states in the order asked, and the stashed
        arguments. */
    method DoFinalize(e: Bytes, ids: seq<int64>) returns (states: seq<Option<Bytes>>, arguments: Bytes)
      ensures states == FinalStates(store, e, ids)
      ensures arguments == match Get(store, e, Arguments) case Some(a) => a case None => []
    {
      states := [];
      for i := 0 to |ids|
        invariant states == FinalStates(store, e, ids)[..i]
      {
        states := states + [Get(store, e, State(ids[i]))];
      }
      var stash := Get(store, e, Arguments);
      arguments := if stash.Some? then stash.value else [];
    }

    /** `aggregate_destructor` and `aggregate_streaming_close`: the whole
        execution, and no other; an empty id releases nothing. */
    method DoDestroy(e: Bytes)
      modifies this`store
      ensures Step(fn, old(store), Call<V, C>.Destroy(e), store)
      ensures Step(fn, old(store), Call<V, C>.StreamClose(e), store)
    {
      store := Clear(store, e);
    }

    /** `aggregate_window_init`. */
    method DoWindowInit(e: Bytes, p: int64, part: Partition)
      modifies this`store
      ensures Step(fn, old(store), Call<V, C>.WindowInit(e, p, part), store)
    {
      KvPut(e, PartitionData(p), part.data);
      KvPut(e, PartitionSchema(p), part.schema);
      KvPut(e, PartitionMask(p), part.mask);
      KvPut(e, PartitionRows(p), Decimal(part.rows));
      WindowInitStep(fn, old(store), store, e, p, part);
    }

    /** `window_result`: the partition as stored, and the frames of each output
        row. Without `perRow` there is one row over every frame. */
    method DoWindowQuery(e: Bytes, p: int64, starts: seq<int64>, ends: seq<int64>, perRow: Option<seq<int64>>)
      returns (r: Result<WindowInput, QueryError>, frames: seq<seq<Frame>>)
      ensures r == ReadWindow(store, e, p)
      ensures r.Ok? && perRow.None? ==>
        && |frames| == 1 && |frames[0]| == (if |starts| < |ends| then |starts| else |ends|)
        && forall k :: 0 <= k < |frames[0]| ==> frames[0][k] == (starts[k], ends[k])
      ensures r.Ok? && perRow.Some? ==>
        && |frames| == |perRow.value|
        && forall i :: 0 <= i < |frames| ==> frames[i] == RowFrames(Zip(starts, ends), perRow.value, i)
      ensures r.Ok? && perRow.Some? && CountsFit(starts, ends, perRow.value) ==>
        forall i :: 0 <= i < |frames| ==> PairsUp(starts, ends, perRow.value, i, frames[i])
    {
      frames := [];
      var data := Get(store, e, PartitionData(p));
      if data.None? { return Err(UnknownPartition), []; }
      var schema := Get(store, e, PartitionSchema(p));
      if schema.None? || schema.value == [] { return Err(NoOutputSchema), []; }
      if perRow.Some? {
        frames := SplitFrames(starts, ends, perRow.value);
        if CountsFit(starts, ends, perRow.value) {
          forall i | 0 <= i < |frames| { RowPairsUp(starts, ends, perRow.value, i); }
        }
      } else {
        var row := ZipFrames(starts, ends);
        frames := [row];
      }
      var stored := Get(store, e, PartitionRows(p));
      var rows := if stored.Some? then ParseDecimal(stored.value) else 0;
      var packed := Get(store, e, PartitionMask(p));
      var mask := UnpackMask(if packed.Some? then packed.value else [], rows);
      return Ok(WindowInput(data.value, schema.value, mask)), frames;
    }

    /** `aggregate_window_destructor`: only the named partition. */
    method DoWindowDestroy(e: Bytes, which: Option<int64>)
      modifies this`store
      ensures Step(fn, old(store), Call<V, C>.WindowDestroy(e, which), store)
    {
      if e == [] || which.None? { return; }
      var p := which.value;
      KvDel(e, PartitionData(p));
      KvDel(e, PartitionSchema(p));
      KvDel(e, PartitionMask(p));
      KvDel(e, PartitionRows(p));
    }

    /** `aggregate_streaming_open`. */
    method DoStreamOpen(e: Bytes, session: Session)
      modifies this`store
      ensures Step(fn, old(store), Call<V, C>.StreamOpen(e, session), store)
    {
      KvPut(e, SessionPartitionKeys, Decimal(session.partitionKeys));
      KvPut(e, SessionOrderKeys, Decimal(session.orderKeys));
      KvPut(e, SessionSchema, session.schema);
      StreamOpenStep(fn, old(store), store, e, session);
    }

    /** `aggregate_streaming_chunk`: replay the log, let the function run, and
        append the whole map it ends with. */
    method DoStreamChunk(e: Bytes, chunk: C)
      modifies this`store
      ensures Step(fn, old(store), Call<V, C>.StreamChunk(e, chunk), store)
    {
      var states := ReplayLog(Log(store, e));
      states := fn(e).chunk(chunk, Count(store, e, SessionPartitionKeys), Count(store, e, SessionOrderKeys), states);
      AppendStates(e, states);
      assert LogAfter(fn, old(store), Call<V, C>.StreamChunk(e, chunk), e, Log(store, e));
    }

    method AppendStates(e: Bytes, states: map<Bytes, Bytes>)
      modifies this`store
      ensures store.kv == old(store).kv
      ensures forall x :: x != e ==> Log(store, x) == Log(old(store), x)
      ensures exists entries :: WritesOut(entries, states) && Log(store, e) == Log(old(store), e) + entries
    {
      var todo := states.Keys;
      ghost var order: seq<Bytes> := [];
      while todo != {}
        invariant todo <= states.Keys && store.kv == old(store).kv
        invariant forall x :: x != e ==> Log(store, x) == Log(old(store), x)
        invariant NoDuplicates(order) && forall k :: k in states <==> k in order || k in todo
        invariant forall i :: 0 <= i < |order| ==> order[i] in states && order[i] !in todo
        invariant Log(store, e) == Log(old(store), e) + EntriesOf(order, states)
        decreases todo
      {
        var key :| key in todo;
        store := Append(store, e, Entry(key, states[key]));
        assert EntriesOf(order + [key], states) == EntriesOf(order, states) + [Entry(key, states[key])];
        order := order + [key];
        todo := todo - {key};
      }
      assert IsOrder(order, states);
      assert WritesOut(EntriesOf(order, states), states);
    }
  }

  method ZipFrames(starts: seq<int64>, ends: seq<int64>) returns (row: seq<Frame>)
    ensures row == Zip(starts, ends)
  {
    row := [];
    var i := 0;
    while i < |starts| && i < |ends|
      invariant 0 <= i <= Min(|starts|, |ends|) && row == Zip(starts, ends)[..i]
    {
      row := row + [(starts[i], ends[i])];
      i := i + 1;
    }
    assert i == |Zip(starts, ends)|;
  }

  /** The load loop of a chunk. */
  method ReplayLog(log: seq<Bytes>) returns (states: map<Bytes, Bytes>)
    ensures states == Replay(log)
  {
    states := map[];
    for i := 0 to |log|
      invariant states == Replay(log[..i])
    {
      assert log[..i + 1][..i] == log[..i];
      var separator := FirstNul(log[i]);
      if separator < |log[i]| {
        states := states[log[i][..separator] := log[i][separator + 1..]];
      }
    }
    assert log[..|log|] == log;
  }
}
