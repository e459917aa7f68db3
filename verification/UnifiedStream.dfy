/** The imperative side of the mapped memory: the interpreter's loop, the compiling cache and the
    stream itself, each proved against the functions that specify it. */
module UnifiedStreams {
  import opened Common
  import opened Streams
  import opened ZoneMap
  import opened IoEngine
  import opened IoCompiler
  import opened MemoryMap
  import opened MapContents

  ghost function Contents(streams: set<ByteStream>): (m: map<ByteStream, seq<byte>>)
    reads streams
    ensures m.Keys == streams
  {
    map s | s in streams :: s.data
  }

  ghost predicate AllValid(streams: set<ByteStream>)
    reads streams
  {
    forall s | s in streams :: s.Valid()
  }

  /** One call of the operation's delegate on a stream whose position has been set. */
  method Invoke(op: Direction, stream: ByteStream, buffer: array<byte>, offset: int, count: int,
                ghost streams: set<ByteStream>)
    returns (ok: bool)
    requires stream in streams && AllValid(streams)
    modifies streams, buffer
    ensures AllValid(streams)
    ensures Outcome(World(buffer[..], Contents(streams)), ok)
         == Perform(op, Transfer(stream, old(stream.position), offset, count), World(old(buffer[..]), old(Contents(streams))))
  {
    match op
    case ReadOp => ok := stream.Read(buffer, offset, count);
    case WriteOp => ok := stream.Write(buffer, offset, count);
  }

  /** The part of the request that falls to the zone at place `index` of the query. */
  method RunEntry(z: Zone, index: nat, total: nat, address: int, buffer: array<byte>, offset: int, count: int,
                  op: Direction, ghost streams: set<ByteStream>)
    returns (ok: bool)
    requires z.stream in streams && AllValid(streams)
    modifies streams, buffer
    ensures AllValid(streams)
    ensures Outcome(World(buffer[..], Contents(streams)), ok)
         == Perform(op, TransferFor(z, index, total, address, offset, count),
                    World(old(buffer[..]), old(Contents(streams))))
  {
    var inZone := CheckInReadZone(address, count, z);
    var bufferOffset, length := offset, count;
    if index == 0 {
      if inZone {
        z.stream.position := 0;
        length := ToInt32(z.stream.length);
      } else {
        z.stream.position := address - z.base;
      }
    } else if index == total - 1 {
      z.stream.position := 0;
      bufferOffset := ToInt32(ConvertToOffsetInBuffer(address, z.base) + offset);
      length := if inZone then ToInt32(z.stream.length) else ToInt32(count - bufferOffset);
    } else {
      z.stream.position := 0;
      bufferOffset := ToInt32(ConvertToOffsetInBuffer(address, z.base) + offset);
      length := ToInt32(z.stream.length);
    }
    assert TransferFor(z, index, total, address, offset, count)
        == Transfer(z.stream, z.stream.position, bufferOffset, length);
    assert Contents(streams) == old(Contents(streams));
    ok := Invoke(op, z.stream, buffer, bufferOffset, length, streams);
  }

  /** What is left of an operation: transfers still to run on a world reached so far. */
  ghost predicate Remaining(op: Direction, left: seq<Transfer>, w: World, all: seq<Transfer>, start: World) {
    && Reaches(w.memory, left) && Reaches(start.memory, all)
    && Exec(op, left, w) == Exec(op, all, start)
  }

  lemma RemainingStep(op: Direction, left: seq<Transfer>, w: World, all: seq<Transfer>, start: World)
    requires Remaining(op, left, w, all, start) && left != []
    ensures var r := Perform(op, left[0], w);
      if r.ok then Remaining(op, left[1..], r.world, all, start) else r == Exec(op, all, start)
  {}

  lemma PlanDrop(query: seq<Zone>, i: nat, index: nat, total: nat, writeMode: bool, address: int, offset: int, count: int)
    requires i < |query|
    ensures Plan(query[i..], index, total, writeMode, address, offset, count)
         == if writeMode && !query[i].stream.canWrite
            then Plan(query[i + 1..], index, total, writeMode, address, offset, count)
            else [TransferFor(query[i], index, total, address, offset, count)]
                 + Plan(query[i + 1..], index + 1, total, writeMode, address, offset, count)
  {
    assert query[i..][0] == query[i] && query[i..][1..] == query[i + 1..];
  }

  /** `_StreamIOInterpreter.RunOperation`; `ok` is false when a stream throws. */
  method RunOperation(query: seq<Zone>, writeMode: bool, address: int, buffer: array<byte>, offset: int, count: int,
                      op: Direction, ghost streams: set<ByteStream>)
    returns (ok: bool)
    requires AllValid(streams) && forall i | 0 <= i < |query| :: query[i].stream in streams
    modifies streams, buffer
    ensures AllValid(streams)
    ensures var ts := Plan(query, 0, |query|, writeMode, address, offset, count);
      && Reaches(old(Contents(streams)), ts)
      && Outcome(World(buffer[..], Contents(streams)), ok)
         == Exec(op, ts, World(old(buffer[..]), old(Contents(streams))))
  {
    var index := 0;
    ghost var start := World(buffer[..], Contents(streams));
    ghost var all := Plan(query, 0, |query|, writeMode, address, offset, count);
    PlanReaches(start.memory, query, 0, |query|, writeMode, address, offset, count);
    assert query[0..] == query;
    ghost var left, w := all, start;
    for i := 0 to |query|
      invariant AllValid(streams) && 0 <= index <= i
      invariant w == World(buffer[..], Contents(streams))
      invariant left == Plan(query[i..], index, |query|, writeMode, address, offset, count)
      invariant Remaining(op, left, w, all, start)
    {
      var z := query[i];
      PlanDrop(query, i, index, |query|, writeMode, address, offset, count);
      if !(writeMode && !z.stream.canWrite) {
        ghost var rest := Plan(query[i + 1..], index + 1, |query|, writeMode, address, offset, count);
        HeadOf(left, TransferFor(z, index, |query|, address, offset, count), rest);
        RemainingStep(op, left, w, all, start);
        ok := RunEntry(z, index, |query|, address, buffer, offset, count, op, streams);
        if !ok { return; }
        w, left := World(buffer[..], Contents(streams)), rest;
        index := index + 1;
      }
    }
    ok := true;
  }

  lemma HeadOf(left: seq<Transfer>, t: Transfer, rest: seq<Transfer>)
    requires left == [t] + rest
    ensures left != [] && left[0] == t && left[1..] == rest
  {}

  /** `_StreamIOCompiler`. The emitted code is kept as the records that it would replay. */
  class StreamIoCompiler {
    var compiledOperations: map<int, seq<Record>>
    var streamReferences: seq<ByteStream>
    var streamHashSet: set<ByteStream>
    var cacheCount: nat

    ghost predicate Valid()
      reads this
    {
      streamHashSet == set s | s in streamReferences
    }

    function Cached(): Cache
      reads this
    {
      Cache(compiledOperations, streamReferences, cacheCount)
    }

    constructor ()
      ensures Valid() && Cached() == EMPTY_CACHE
    {
      compiledOperations, streamReferences, streamHashSet, cacheCount := map[], [], {}, 0;
    }

    method ClearCache()
      modifies this
      ensures Valid() && Cached() == EMPTY_CACHE
    {
      compiledOperations, streamReferences, streamHashSet, cacheCount := map[], [], {}, 0;
    }

    predicate ContainsOperation(address: int, bufferOffset: int, count: int)
      reads this
    {
      GenerateHash(address, bufferOffset, count) in compiledOperations
    }

    method ResolveStreamReference(stream: ByteStream) returns (index: nat)
      requires Valid()
      modifies this`streamReferences, this`streamHashSet
      ensures Valid()
      ensures streamReferences == Registered(old(streamReferences), stream)
      ensures index == ResolveIndex(old(streamReferences), stream)
    {
      if stream !in streamHashSet {
        streamHashSet := streamHashSet + {stream};
        streamReferences := streamReferences + [stream];
        index := |streamReferences| - 1;
      } else {
        index := Lookup(streamReferences, stream);
      }
    }

    lemma EmitOneMore(before: seq<ByteStream>, ts: seq<Transfer>, i: nat, after: seq<ByteStream>,
                      recs: seq<Record>, r: Record)
      requires i < |ts| && after == Registered(before, ts[i].stream)
      requires r == Record(ResolveIndex(before, ts[i].stream), ts[i].position, ts[i].offset, ts[i].count)
      ensures EmitRefs(before, ts[i..]) == EmitRefs(after, ts[i + 1..])
      ensures recs + EmitRecords(before, ts[i..]) == recs + [r] + EmitRecords(after, ts[i + 1..])
    {
      assert ts[i..][0] == ts[i] && ts[i..][1..] == ts[i + 1..];
    }

    /** The emitting delegate, run on every transfer of the interpreted operation. */
    method RunEmitters(ts: seq<Transfer>) returns (recs: seq<Record>)
      requires Valid()
      modifies this`streamReferences, this`streamHashSet
      ensures Valid()
      ensures streamReferences == EmitRefs(old(streamReferences), ts)
      ensures recs == EmitRecords(old(streamReferences), ts)
    {
      recs := [];
      assert ts[0..] == ts;
      for i := 0 to |ts|
        invariant Valid()
        invariant EmitRefs(streamReferences, ts[i..]) == EmitRefs(old(streamReferences), ts)
        invariant recs + EmitRecords(streamReferences, ts[i..]) == EmitRecords(old(streamReferences), ts)
      {
        ghost var before := streamReferences;
        var index := ResolveStreamReference(ts[i].stream);
        var r := Record(index, ts[i].position, ts[i].offset, ts[i].count);
        EmitOneMore(before, ts, i, streamReferences, recs, r);
        recs := recs + [r];
      }
    }

    /** Runs a compiled operation. */
    method Replay(recs: seq<Record>, buffer: array<byte>, op: Direction, ghost streams: set<ByteStream>)
      returns (ok: bool)
      requires AllValid(streams) && InTable(recs, streamReferences) && AllIn(streamReferences, Contents(streams))
      modifies streams, buffer
      ensures AllValid(streams)
      ensures var ts := Link(recs, streamReferences);
        && Reaches(old(Contents(streams)), ts)
        && Outcome(World(buffer[..], Contents(streams)), ok)
           == Exec(op, ts, World(old(buffer[..]), old(Contents(streams))))
    {
      ghost var all, start := Link(recs, streamReferences), World(buffer[..], Contents(streams));
      ghost var left, w := all, start;
      for i := 0 to |recs|
        invariant AllValid(streams)
        invariant w == World(buffer[..], Contents(streams)) && left == all[i..]
        invariant Remaining(op, left, w, all, start)
      {
        RemainingStep(op, left, w, all, start);
        var stream := streamReferences[recs[i].index];
        stream.position := recs[i].position;
        assert Contents(streams) == w.memory;
        assert left[0] == LinkOne(recs[i], streamReferences);
        ok := Invoke(op, stream, buffer, recs[i].offset, recs[i].count, streams);
        if !ok { return; }
        w, left := World(buffer[..], Contents(streams)), all[i + 1..];
      }
      ok := true;
    }

    /** Compiles the operation unless its key is known; `ok` is false where setting a stream position on
        the way throws. */
    method Compile(key: int, ts: seq<Transfer>) returns (ok: bool)
      requires Valid()
      modifies this
      ensures Valid() && Cached() == Compiled(old(Cached()), key, ts)
      ensures ok == (key in compiledOperations)
      ensures !ok ==> CompileThrows(ts)
      ensures key !in old(compiledOperations) && ts != [] && ts[0].position < 0 ==>
                Cached() == old(Cached()).(count := old(cacheCount) + 1)
    {
      ok := true;
      if key !in compiledOperations {
        cacheCount := cacheCount + 1;
        ok := !CompileThrows(ts);
        if ok {
          var recs := RunEmitters(ts);
          compiledOperations := compiledOperations[key := recs];
        }
      }
    }

    method ExecuteOperation(query: seq<Zone>, address: int, buffer: array<byte>, offset: int, count: int,
                            op: Direction, ghost streams: set<ByteStream>)
      returns (ok: bool)
      requires Valid() && AllValid(streams) && CacheValid(Cached(), Contents(streams))
      requires Reaches(Contents(streams), Plan(query, 0, |query|, true, address, offset, count))
      modifies this, streams, buffer
      ensures Valid() && AllValid(streams)
      ensures var key, ts := GenerateHash(address, offset, count), Plan(query, 0, |query|, true, address, offset, count);
        && Cached() == Compiled(old(Cached()), key, ts)
        && CacheValid(Cached(), old(Contents(streams)))
        && var replayed := if key in compiledOperations then Link(compiledOperations[key], streamReferences) else ts;
        && Reaches(old(Contents(streams)), replayed)
        && Outcome(World(buffer[..], Contents(streams)), ok)
           == Exec(op, replayed, World(old(buffer[..]), old(Contents(streams))))
    {
      var key := GenerateHash(address, offset, count);
      var ts := Plan(query, 0, |query|, true, address, offset, count);
      CompiledIsValid(Cached(), key, ts, Contents(streams));
      ok := Compile(key, ts);
      if ok {
        ok := Replay(compiledOperations[key], buffer, op, streams);
      } else {
        ThrowingPlanDoesNothing(op, ts, World(buffer[..], Contents(streams)));
      }
    }
  }

  /** `UnifiedStream`: a stream over the mapped zones. */
  class UnifiedStream {
    const lut: StreamLut
    const compiler: StreamIoCompiler
    var position: int
    var useCompiler: bool
    /** All streams that were ever mapped. */
    ghost var streams: set<ByteStream>

    ghost function Now(): State
      reads this, lut, compiler, streams
    {
      State(lut.zones, position, useCompiler, compiler.Cached(), Contents(streams))
    }

    ghost predicate Consistent()
      reads this, lut, compiler, streams
    {
      compiler.Valid() && AllValid(streams) && MemoryMap.Valid(Now())
    }

    constructor ()
      ensures Consistent() && fresh(lut) && fresh(compiler)
      ensures Now() == State([], 0, true, EMPTY_CACHE, map[])
    {
      lut := new StreamLut();
      compiler := new StreamIoCompiler();
      position, useCompiler, streams := 0, true, {};
    }

    method QueryStreams(at: int, bufferOffset: int, count: int) returns (query: seq<Zone>)
      ensures query == if useCompiler && compiler.ContainsOperation(at, bufferOffset, count) then []
                       else Query(lut.zones, at, count)
    {
      if useCompiler && compiler.ContainsOperation(at, bufferOffset, count) {
        query := [];
      } else {
        query := lut.QueryZoneTouches(at, count);
      }
    }

    /** What a request does once its buffer is prepared. */
    ghost function After(s: State, op: Direction, buffer: seq<byte>, offset: int, count: int): Result
      requires MemoryMap.Valid(s)
    {
      var r := Exec(op, Performed(s, offset, count), World(buffer, s.memory));
      Result(s.(position := if r.ok then s.position + count else s.position,
                cache := if s.useCompiler then NextCache(s, offset, count) else s.cache,
                memory := r.world.memory),
             Response(r.world.buffer, r.ok))
    }

    method RunUncompiled(query: seq<Zone>, op: Direction, buffer: array<byte>, offset: int, count: int) returns (ok: bool)
      requires Consistent() && query == Query(lut.zones, position, count)
      modifies streams, buffer
      ensures AllValid(streams)
      ensures Reaches(old(Contents(streams)), Interpreted(old(Now()), offset, count))
      ensures Outcome(World(buffer[..], Contents(streams)), ok)
           == Exec(op, Interpreted(old(Now()), offset, count), World(old(buffer[..]), old(Contents(streams))))
    {
      QueriedStreams(Now(), count);
      ok := true;
      if |query| > 0 {
        ok := RunOperation(query, true, position, buffer, offset, count, op, streams);
      }
    }

    method RunCompiled(query: seq<Zone>, op: Direction, buffer: array<byte>, offset: int, count: int) returns (ok: bool)
      requires Consistent()
      requires query == if compiler.ContainsOperation(position, offset, count) then []
                        else Query(lut.zones, position, count)
      modifies compiler, streams, buffer
      ensures compiler.Valid() && AllValid(streams)
      ensures compiler.Cached() == NextCache(old(Now()), offset, count)
      ensures Reaches(old(Contents(streams)), Replayed(old(Now()), offset, count))
      ensures Outcome(World(buffer[..], Contents(streams)), ok)
           == Exec(op, Replayed(old(Now()), offset, count), World(old(buffer[..]), old(Contents(streams))))
    {
      ghost var s := Now();
      InterpretedReaches(s, offset, count);
      assert Plan(query, 0, |query|, true, position, offset, count) == Planned(s, offset, count);
      if compiler.cacheCount > CACHE_MAX {
        compiler.ClearCache();
      }
      ok := compiler.ExecuteOperation(query, position, buffer, offset, count, op, streams);
    }

    lemma AfterIsValid(s: State, op: Direction, buffer: seq<byte>, offset: int, count: int)
      requires MemoryMap.Valid(s)
      ensures MemoryMap.Valid(After(s, op, buffer, offset, count).state)
    {
      NextCacheIsValid(s, offset, count);
      ExecKeepsLengths(op, Performed(s, offset, count), World(buffer, s.memory));
    }

    /** Runs the request either way. */
    method Dispatch(query: seq<Zone>, op: Direction, buffer: array<byte>, offset: int, count: int) returns (ok: bool)
      requires Consistent()
      requires query == if useCompiler && compiler.ContainsOperation(position, offset, count) then []
                        else Query(lut.zones, position, count)
      modifies compiler, streams, buffer
      ensures compiler.Valid() && AllValid(streams)
      ensures compiler.Cached() == if useCompiler then NextCache(old(Now()), offset, count) else old(compiler.Cached())
      ensures Outcome(World(buffer[..], Contents(streams)), ok)
           == Exec(op, Performed(old(Now()), offset, count), World(old(buffer[..]), old(Contents(streams))))
    {
      if !useCompiler {
        ok := RunUncompiled(query, op, buffer, offset, count);
      } else {
        ok := RunCompiled(query, op, buffer, offset, count);
      }
    }

    /** The query that both callers make first, and then the request. */
    method Perform(op: Direction, buffer: array<byte>, offset: int, count: int) returns (ok: bool)
      requires Consistent()
      modifies compiler, streams, buffer
      ensures compiler.Valid() && AllValid(streams)
      ensures compiler.Cached() == if useCompiler then NextCache(old(Now()), offset, count) else old(compiler.Cached())
      ensures Outcome(World(buffer[..], Contents(streams)), ok)
           == Exec(op, Performed(old(Now()), offset, count), World(old(buffer[..]), old(Contents(streams))))
    {
      var query := QueryStreams(position, offset, count);
      ok := Dispatch(query, op, buffer, offset, count);
    }

    /** `ExecuteMemoryOperation`, with the query that its callers make first. */
    method Transact(op: Direction, buffer: array<byte>, offset: int, count: int) returns (ok: bool)
      requires Consistent()
      modifies this`position, compiler, streams, buffer
      ensures Consistent()
      ensures Result(Now(), Response(buffer[..], ok)) == After(old(Now()), op, old(buffer[..]), offset, count)
    {
      ghost var r := After(Now(), op, buffer[..], offset, count);
      AfterIsValid(Now(), op, buffer[..], offset, count);
      ok := Perform(op, buffer, offset, count);
      if ok {
        position := position + count;
      }
      assert Result(Now(), Response(buffer[..], ok)) == r;
    }

    /** `ok` is false where the C# method throws. */
    method Read(buffer: array<byte>, offset: int, count: int) returns (ok: bool)
      requires Consistent()
      modifies this`position, compiler, streams, buffer
      ensures Consistent()
      ensures Result(Now(), Response(buffer[..], ok)) == StepIo(old(Now()), ReadOp, old(buffer[..]), offset, count)
      ensures position == if ok then old(position) + count else old(position)
      ensures !(0 <= offset <= buffer.Length) ==> !ok && buffer[..] == old(buffer[..]) && Now() == old(Now())
    {
      if !(0 <= offset <= buffer.Length) {
        return false;
      }
      forall i | offset <= i < buffer.Length {
        buffer[i] := 0;
      }
      assert buffer[..] == Prepared(ReadOp, old(buffer[..]), offset);
      assert Now() == old(Now());
      ok := Transact(ReadOp, buffer, offset, count);
    }

    method Write(buffer: array<byte>, offset: int, count: int) returns (ok: bool)
      requires Consistent()
      modifies this`position, compiler, streams, buffer
      ensures Consistent()
      ensures Result(Now(), Response(buffer[..], ok)) == StepIo(old(Now()), WriteOp, old(buffer[..]), offset, count)
      ensures position == if ok then old(position) + count else old(position)
    {
      ok := Transact(WriteOp, buffer, offset, count);
    }

    /** The sanity check of `Add`: does a mapped zone hold the key? */
    method Overlaps(key: int) returns (overlaps: bool)
      ensures overlaps <==> exists i :: 0 <= i < |lut.zones| && Contains(lut.zones[i], key)
    {
      for i := 0 to |lut.zones|
        invariant forall k | 0 <= k < i :: !Contains(lut.zones[k], key)
      {
        var entry := lut.zones[i];
        if key >= entry.base && key < entry.base + entry.stream.length {
          return true;
        }
      }
      overlaps := false;
    }

    /** The table's part of `Add`, with the stream among those known. */
    method Insertion(key: int, value: ByteStream) returns (added: bool)
      requires Consistent() && value in streams && !Mapped(lut.zones, key)
      modifies lut
      ensures Consistent()
      ensures added == !HasKey(old(lut.zones), key)
      ensures Now() == old(Now()).(zones := if added then Insert(old(lut.zones), Zone(key, value)) else old(lut.zones))
    {
      ghost var before := Now();
      added := lut.Add(key, value);
      if added { MapIsValid(before, key, value); }
      assert Now() == if added then before.(zones := Insert(before.zones, Zone(key, value))) else before;
    }

    method Know(value: ByteStream)
      requires Consistent() && value.Valid()
      modifies this`streams
      ensures Consistent() && streams == old(streams) + {value}
      ensures Now() == old(Now()).(memory := Contents(streams))
    {
      ghost var before := Now();
      streams := streams + {value};
      GrowthKeepsValid(before, Contents(streams));
      assert Now() == before.(memory := Contents(streams));
    }

    /** `added` is false where the C# method throws: a zone has the key or holds it. Otherwise the bytes of
        the stream show from the key on. */
    method Add(key: int, value: ByteStream) returns (added: bool)
      requires Consistent() && value.Valid()
      modifies this`streams, lut
      ensures Consistent() && streams == old(streams) + {value}
      ensures added <==> FreeKey(old(lut.zones), key)
      ensures Now() == old(Now()).(zones := if added then Insert(old(lut.zones), Zone(key, value)) else old(lut.zones),
                                   memory := Contents(streams))
      ensures added ==> forall x | key <= x < key + value.length ::
                FlatAt(lut.zones, Contents(streams), x) == Some(value.data[x - key])
    {
      AcceptsFreeKeysIff(lut.zones, key);
      var overlaps := Overlaps(key);
      Know(value);
      if overlaps {
        return false;
      }
      added := Insertion(key, value);
      if added { AddedStreamShows(old(lut.zones), Zone(key, value), Contents(streams)); }
    }

    method Remove(key: int) returns (removed: bool)
      requires Consistent()
      modifies compiler, lut
      ensures Consistent()
      ensures Result(Now(), Response([], removed)) == Step(old(Now()), Unmap(key))
      ensures removed <==> exists i :: 0 <= i < |old(lut.zones)| && old(lut.zones)[i].base == key
    {
      StepIsValid(Now(), Unmap(key));
      KeyIsAtItsSlot(lut.zones, key);
      compiler.ClearCache();
      removed := lut.Remove(key);
    }

    method Clear()
      requires Consistent()
      modifies this`position, compiler, lut
      ensures Consistent()
      ensures Now() == Step(old(Now()), Reset).state
      ensures lut.zones == [] && position == 0 && compiler.Cached() == Cache(map[], [], 0)
      ensures Contents(streams) == old(Contents(streams)) && useCompiler == old(useCompiler)
    {
      compiler.ClearCache();
      position := 0;
      lut.Clear();
    }

    lemma GrowthKeepsValid(s: State, memory: map<ByteStream, seq<byte>>)
      requires MemoryMap.Valid(s)
      requires s.memory.Keys <= memory.Keys && forall m | m in memory :: |memory[m]| == m.length
      ensures MemoryMap.Valid(s.(memory := memory))
    {}

    lemma QueriedStreams(s: State, count: int)
      requires MemoryMap.Valid(s)
      ensures var q := Query(s.zones, s.position, count); forall i | 0 <= i < |q| :: q[i].stream in s.memory
    {
      var q := Query(s.zones, s.position, count);
      forall i | 0 <= i < |q| ensures q[i].stream in s.memory {
        QueryIsSubset(s.zones, false, s.position, s.position + count, q[i]);
        var k :| 0 <= k < |s.zones| && s.zones[k] == q[i];
      }
    }
  }
}
