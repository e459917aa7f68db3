/** Over whole runs the compiled cache is invisible: it answers as the interpreter does, and the
    interpreter answers as a flat address space does. */
module CacheCoherence {
  import opened Common
  import opened Streams
  import opened ZoneMap
  import opened IoEngine
  import opened IoCompiler
  import opened MemoryMap
  import opened AddedZone

  /** Addresses and counts for which keys are injective. */
  predicate InBounds(address: int, count: int) { 0 <= address < 0x1_0000_0000 && 0 <= count < 0x1_0000 }

  /** Replaying any cached request performs the transfers of the current zone map. */
  ghost predicate Coherent(c: Cache, zones: seq<Zone>)
    requires forall key | key in c.compiled :: InTable(c.compiled[key], c.refs)
  {
    forall address, count | InBounds(address, count) && GenerateHash(address, 0, count) in c.compiled ::
      Link(c.compiled[GenerateHash(address, 0, count)], c.refs) == PlanFor(zones, address, 0, count)
  }

  ghost predicate Good(s: State) { Valid(s) && Coherent(s.cache, s.zones) }

  /** The state with the compiler off and nothing cached. */
  function Plain(s: State): State { s.(useCompiler := false, cache := EMPTY_CACHE) }

  /** The call does not evict its own key. */
  predicate KeepsItsKey(s: State, offset: int, count: int) {
    s.cache.count > CACHE_MAX ==> KeyOf(s, offset, count) !in s.cache.compiled
  }

  /** The zone disturbs no cached request in bounds. */
  ghost predicate Unseen(c: Cache, zones: seq<Zone>, z: Zone) {
    forall address, count | InBounds(address, count) && GenerateHash(address, 0, count) in c.compiled ::
      !Disturbs(zones, z, address, 0, count)
  }

  /** What a caller has to check before a request for the cache to stay invisible: buffer offset 0 and
      the bounds of the keys, no eviction of the request's own key, and stream lookups that hit; and a
      zone that is added disturbs no cached request. */
  ghost predicate Admissible(s: State, r: Request) {
    match r
    case Io(_, _, offset, count) =>
      s.useCompiler ==>
        && offset == 0 && InBounds(s.position, count) && KeepsItsKey(s, 0, count)
        && (KeyOf(s, 0, count) !in s.cache.compiled ==>
              CompileThrows(Interpreted(s, 0, count)) || LookupsHit(Evicted(s.cache).refs, Interpreted(s, 0, count)))
    case Map(key, stream) =>
      stream in s.memory && (AddAccepts(s.zones, key) ==> Unseen(s.cache, s.zones, Zone(key, stream)))
    case _ => true
  }

  /* -------- one request -------- */

  lemma CompilingStaysCoherent(c: Cache, zones: seq<Zone>, address: int, count: int, memory: map<ByteStream, seq<byte>>)
    requires CacheValid(c, memory) && Coherent(c, zones) && InBounds(address, count)
    requires Reaches(memory, PlanFor(zones, address, 0, count))
    requires GenerateHash(address, 0, count) !in c.compiled && !CompileThrows(PlanFor(zones, address, 0, count)) ==>
               LookupsHit(c.refs, PlanFor(zones, address, 0, count))
    ensures var c' := Compiled(c, GenerateHash(address, 0, count), PlanFor(zones, address, 0, count));
      CacheValid(c', memory) && Coherent(c', zones)
  {
    var key, ts := GenerateHash(address, 0, count), PlanFor(zones, address, 0, count);
    var c' := Compiled(c, key, ts);
    CompiledIsValid(c, key, ts, memory);
    if key !in c.compiled && !CompileThrows(ts) {
      ReplayIsFaithfulIff(c.refs, ts);
      forall a, n | InBounds(a, n) && GenerateHash(a, 0, n) in c'.compiled
        ensures Link(c'.compiled[GenerateHash(a, 0, n)], c'.refs) == PlanFor(zones, a, 0, n)
      {
        KeysCollideIff(a, 0, n, address, 0, count);
        if GenerateHash(a, 0, n) != key {
          LinkSurvivesGrowth(c.compiled[GenerateHash(a, 0, n)], c.refs, c'.refs);
        }
      }
    }
  }

  lemma EmptyIsCoherent(zones: seq<Zone>)
    ensures Coherent(EMPTY_CACHE, zones)
  {}

  /** An admissible request performs exactly the interpreter's transfers and leaves the cache coherent. */
  lemma AdmissibleIoIsInterpreted(s: State, count: int)
    requires Good(s) && InBounds(s.position, count) && KeepsItsKey(s, 0, count)
    requires KeyOf(s, 0, count) !in s.cache.compiled && !CompileThrows(Interpreted(s, 0, count)) ==>
               LookupsHit(Evicted(s.cache).refs, Interpreted(s, 0, count))
    ensures Replayed(s, 0, count) == Interpreted(s, 0, count)
    ensures CacheValid(NextCache(s, 0, count), s.memory) && Coherent(NextCache(s, 0, count), s.zones)
  {
    EmptyIsCoherent(s.zones);
    InterpretedReaches(s, 0, count);
    CompilingStaysCoherent(Evicted(s.cache), s.zones, s.position, count, s.memory);
    var key := KeyOf(s, 0, count);
    if key in s.cache.compiled {
      assert NextCache(s, 0, count) == s.cache;
    } else {
      assert Planned(s, 0, count) == Interpreted(s, 0, count);
    }
  }

  lemma StepIoIsInvisible(s: State, op: Direction, buffer: seq<byte>, offset: int, count: int)
    requires Good(s) && Admissible(s, Io(op, buffer, offset, count))
    ensures Valid(Plain(s))
    ensures var (a, b) := (StepIo(s, op, buffer, offset, count), StepIo(Plain(s), op, buffer, offset, count));
      Good(a.state) && a.response == b.response && Plain(a.state) == Plain(b.state)
  {
    PlainIsValid(s);
    StepIoStaysGood(s, op, buffer, offset, count);
    assert Performed(s, offset, count) == Performed(Plain(s), offset, count) by {
      if s.useCompiler { AdmissibleIoIsInterpreted(s, count); }
    }
  }

  lemma StepIoStaysGood(s: State, op: Direction, buffer: seq<byte>, offset: int, count: int)
    requires Good(s) && Admissible(s, Io(op, buffer, offset, count))
    ensures Good(StepIo(s, op, buffer, offset, count).state)
  {
    StepIoIsValid(s, op, buffer, offset, count);
    if s.useCompiler { AdmissibleIoIsInterpreted(s, count); }
  }

  lemma PlainIsValid(s: State)
    requires Valid(s)
    ensures Valid(Plain(s))
  {}

  /** One admissible request is answered as without the cache, and coherence is kept. */
  lemma StepIsInvisible(s: State, r: Request)
    requires Good(s) && Admissible(s, r)
    ensures Valid(Plain(s))
    ensures Good(Step(s, r).state)
    ensures Step(s, r).response == Step(Plain(s), r).response
    ensures Plain(Step(s, r).state) == Plain(Step(Plain(s), r).state)
  {
    match r
    case Io(op, buffer, offset, count) => StepIoIsInvisible(s, op, buffer, offset, count);
    case Map(key, stream) => MapIsInvisible(s, key, stream);
    case _ => StepIsValid(s, r);
  }

  lemma MapIsInvisible(s: State, key: int, stream: ByteStream)
    requires Good(s) && Admissible(s, Map(key, stream))
    ensures Valid(Plain(s))
    ensures var (a, b) := (Step(s, Map(key, stream)), Step(Plain(s), Map(key, stream)));
      Good(a.state) && a.response == b.response && Plain(a.state) == Plain(b.state)
  {
    PlainIsValid(s);
    StepIsValid(s, Map(key, stream));
    if AddAccepts(s.zones, key) { UnseenStaysCoherent(s.cache, s.zones, Zone(key, stream)); }
  }

  lemma UnseenStaysCoherent(c: Cache, zones: seq<Zone>, z: Zone)
    requires forall key | key in c.compiled :: InTable(c.compiled[key], c.refs)
    requires Coherent(c, zones) && Unseen(c, zones, z)
    ensures Coherent(c, Insert(zones, z))
  {
    forall address, count | InBounds(address, count) && GenerateHash(address, 0, count) in c.compiled
      ensures PlanFor(Insert(zones, z), address, 0, count) == PlanFor(zones, address, 0, count)
    {
      UndisturbedPlanStays(zones, z, address, 0, count);
    }
  }

  /* -------- runs -------- */

  predicate Streamed(s: State, rs: seq<Request>) {
    forall i | 0 <= i < |rs| && rs[i].Map? :: rs[i].stream in s.memory
  }

  lemma StepKeepsStreams(s: State, r: Request)
    requires Valid(s) && (r.Map? ==> r.stream in s.memory)
    ensures Step(s, r).state.memory.Keys == s.memory.Keys
  {}

  /** The run with the compiler as the requests set it. */
  ghost function Run(s: State, rs: seq<Request>): (r: (State, seq<Response>))
    requires Valid(s) && Streamed(s, rs)
    ensures Valid(r.0)
    decreases |rs|
  {
    if rs == [] then (s, [])
    else
      StepIsValid(s, rs[0]);
      StepKeepsStreams(s, rs[0]);
      var first := Step(s, rs[0]);
      var rest := Run(first.state, rs[1..]);
      (rest.0, [first.response] + rest.1)
  }

  /** The same requests with the compiler always off. */
  ghost function PlainRun(s: State, rs: seq<Request>): (r: (State, seq<Response>))
    requires Valid(s) && Streamed(s, rs)
    ensures Valid(r.0)
    decreases |rs|
  {
    if rs == [] then (Plain(s), [])
    else
      StepIsValid(Plain(s), rs[0]);
      StepKeepsStreams(Plain(s), rs[0]);
      var first := Step(Plain(s), rs[0]);
      var rest := PlainRun(first.state, rs[1..]);
      (rest.0, [first.response] + rest.1)
  }

  ghost predicate AdmissibleRun(s: State, rs: seq<Request>)
    requires Valid(s) && Streamed(s, rs)
    decreases |rs|
  {
    rs == [] ||
    (StepIsValid(s, rs[0]);
     StepKeepsStreams(s, rs[0]);
     Admissible(s, rs[0]) && AdmissibleRun(Step(s, rs[0]).state, rs[1..]))
  }

  lemma {:induction false} PlainRunIgnoresCache(s: State, t: State, rs: seq<Request>)
    requires Valid(s) && Valid(t) && Plain(s) == Plain(t) && Streamed(s, rs)
    ensures Streamed(t, rs) && PlainRun(s, rs) == PlainRun(t, rs)
  {
    assert s.memory == Plain(s).memory == t.memory;
  }

  /** Cache coherence over runs: every response of an admissible run, and the zones, position and
      memory at its end, are those of the run without the compiled cache. */
  lemma {:induction false} CacheIsInvisibleOverRuns(s: State, rs: seq<Request>)
    requires Good(s) && Streamed(s, rs) && AdmissibleRun(s, rs)
    ensures Good(Run(s, rs).0)
    ensures Run(s, rs).1 == PlainRun(s, rs).1
    ensures Plain(Run(s, rs).0) == PlainRun(s, rs).0
    decreases |rs|
  {
    if rs != [] {
      StepIsInvisible(s, rs[0]);
      StepKeepsStreams(s, rs[0]);
      StepIsValid(Plain(s), rs[0]);
      var next, plain := Step(s, rs[0]).state, Step(Plain(s), rs[0]).state;
      CacheIsInvisibleOverRuns(next, rs[1..]);
      PlainRunIgnoresCache(next, plain, rs[1..]);
    }
  }

  /* -------- exactly when one request is faithful -------- */

  /** With the compiler on, a request in bounds performs the interpreter's transfers exactly when: its
      key is cached and stays, or its key is cached and evicted but it touches nothing, or its key is
      new and every stream lookup hits or none is made because compiling throws first. */
  lemma ReplayedIsInterpretedIff(s: State, count: int)
    requires Good(s) && InBounds(s.position, count)
    ensures Replayed(s, 0, count) == Interpreted(s, 0, count)
       <==> if KeyOf(s, 0, count) in s.cache.compiled
            then s.cache.count <= CACHE_MAX || Interpreted(s, 0, count) == []
            else CompileThrows(Interpreted(s, 0, count)) || LookupsHit(Evicted(s.cache).refs, Interpreted(s, 0, count))
  {
    var c := Evicted(s.cache);
    ReplayIsFaithfulIff(c.refs, Planned(s, 0, count));
    EmitNothing(c.refs);
  }

  lemma EmitNothing(refs: seq<ByteStream>)
    ensures EmitRecords(refs, []) == [] && EmitRefs(refs, []) == refs
  {}

  /** A request that evicts its own key moves nothing, now and whenever it is repeated. */
  lemma EvictingItsOwnKeyServesNothing(s: State, offset: int, count: int)
    requires Valid(s) && s.cache.count > CACHE_MAX && KeyOf(s, offset, count) in s.cache.compiled
    ensures Replayed(s, offset, count) == []
    ensures NextCache(s, offset, count).compiled[KeyOf(s, offset, count)] == []
  {}

  /** Once two streams are registered, compiling a request on the second one addresses the first. */
  lemma LastRegisteredStreamIsMistaken(a: ByteStream, b: ByteStream, position: int, offset: int, count: int)
    requires a != b
    ensures var t := Transfer(b, position, offset, count);
      Link(EmitRecords([a, b], [t]), EmitRefs([a, b], [t])) == [Transfer(a, position, offset, count)]
  {
    assert [a, b][..1] == [a];
    assert EmitRecords([a, b], [Transfer(b, position, offset, count)])[0] == Record(0, position, offset, count);
  }

  /* -------- exactly when a zone may be added -------- */

  /** Adding a zone keeps the cache coherent exactly when it disturbs no cached request in bounds, for `Add`
      does not clear the cache. */
  lemma AddKeepsCoherentIff(c: Cache, zones: seq<Zone>, z: Zone)
    requires forall key | key in c.compiled :: InTable(c.compiled[key], c.refs)
    requires Coherent(c, zones) && (z.stream.canWrite || Tidy(zones, z))
    ensures Coherent(c, Insert(zones, z)) <==> Unseen(c, zones, z)
  {
    forall address, count | InBounds(address, count) && GenerateHash(address, 0, count) in c.compiled
      ensures PlanFor(Insert(zones, z), address, 0, count) == PlanFor(zones, address, 0, count)
         <==> !Disturbs(zones, z, address, 0, count)
    {
      PlanStaysIff(zones, z, address, 0, count);
    }
  }

  /** The same for the whole state: it stays good over an accepted `Add` exactly under that condition. */
  lemma MapStaysGoodIff(s: State, key: int, stream: ByteStream)
    requires Good(s) && stream in s.memory && AddAccepts(s.zones, key)
    requires stream.canWrite || Tidy(s.zones, Zone(key, stream))
    ensures Good(Step(s, Map(key, stream)).state) <==> Unseen(s.cache, s.zones, Zone(key, stream))
  {
    StepIsValid(s, Map(key, stream));
    AddKeepsCoherentIff(s.cache, s.zones, Zone(key, stream));
  }

  /** A key that is cached and stays is replayed as it is. */
  lemma CachedIsLinked(s: State, count: int)
    requires Valid(s) && s.cache.count <= CACHE_MAX && KeyOf(s, 0, count) in s.cache.compiled
    ensures Replayed(s, 0, count) == Link(s.cache.compiled[KeyOf(s, 0, count)], s.cache.refs)
  {
    assert NextCache(s, 0, count) == s.cache;
  }

  /** A cached request is answered for the new map exactly when the added zone does not disturb it. */
  lemma CachedRequestSeesAddedZoneIff(s: State, key: int, stream: ByteStream, count: int)
    requires Good(s) && InBounds(s.position, count) && s.cache.count <= CACHE_MAX
    requires KeyOf(s, 0, count) in s.cache.compiled
    requires AddAccepts(s.zones, key) && stream in s.memory
    requires stream.canWrite || Tidy(s.zones, Zone(key, stream))
    ensures var t := Step(s, Map(key, stream)).state;
      Valid(t) && (Replayed(t, 0, count) == Interpreted(t, 0, count)
                   <==> !Disturbs(s.zones, Zone(key, stream), s.position, 0, count))
  {
    MapIsValid(s, key, stream);
    var t := s.(zones := Insert(s.zones, Zone(key, stream)));
    assert Step(s, Map(key, stream)).state == t;
    CachedIsLinked(t, count);
    var linked := Link(s.cache.compiled[KeyOf(s, 0, count)], s.cache.refs);
    assert linked == PlanFor(s.zones, s.position, 0, count);
    assert Interpreted(t, 0, count) == PlanFor(t.zones, s.position, 0, count);
    PlanStaysIff(s.zones, Zone(key, stream), s.position, 0, count);
  }

  /* -------- reads and writes show the flat address space -------- */

  /** What a read shows at `j` of the caller's buffer: the mapped bytes, with 0 in gaps and beyond the
      request, and everything below `offset` as it was. */
  function ShownAt(zones: seq<Zone>, memory: map<ByteStream, seq<byte>>, buffer: seq<byte>, position: int,
                   offset: nat, count: nat, j: nat): int
    requires j < |buffer| && Holds(memory, zones)
  {
    if j < offset then buffer[j]
    else if Mapped(zones, position) && j < offset + count
    then FlatAt(zones, memory, position + j - offset).GetOr(0)
    else 0
  }

  lemma FlatReadIsShown(zones: seq<Zone>, w: World, buffer: seq<byte>, position: int, offset: nat, count: nat, j: nat)
    requires Holds(w.memory, zones) && offset + count <= |buffer| && j < |buffer|
    requires w.buffer == Prepared(ReadOp, buffer, offset)
    ensures FlatRead(zones, w, position, offset, count, j) == ShownAt(zones, w.memory, buffer, position, offset, count, j)
  {}

  /** In a coherent state an admissible, servable read shows the flat address space, leaves memory alone
      and advances the position by `count`. */
  lemma ReadShowsFlatMemory(s: State, buffer: seq<byte>, offset: nat, count: nat)
    requires Good(s) && Admissible(s, Io(ReadOp, buffer, offset, count))
    requires Servable(s.zones, s.position, offset, count)
    requires offset + count <= |buffer| && offset + count <= INT32_MAX
    ensures var r := StepIo(s, ReadOp, buffer, offset, count);
      && r.response.ok && r.state.position == s.position + count && r.state.memory == s.memory
      && |r.response.buffer| == |buffer|
      && forall j | 0 <= j < |buffer| ::
           r.response.buffer[j] == ShownAt(s.zones, s.memory, buffer, s.position, offset, count, j)
  {
    var w, ts := World(Prepared(ReadOp, buffer, offset), s.memory), Interpreted(s, offset, count);
    assert Performed(s, offset, count) == ts by {
      if s.useCompiler { AdmissibleIoIsInterpreted(s, count); }
    }
    ReadRefinesFlat(s.zones, w, s.position, offset, count);
    StepIoIs(s, ReadOp, buffer, offset, count, ts, w);
    forall j | 0 <= j < |buffer|
      ensures FlatRead(s.zones, w, s.position, offset, count, j)
           == ShownAt(s.zones, s.memory, buffer, s.position, offset, count, j)
    {
      FlatReadIsShown(s.zones, w, buffer, s.position, offset, count, j);
    }
  }

  /** A step of input or output is what its transfers do, and the position advances when they succeed. */
  lemma StepIoIs(s: State, op: Direction, buffer: seq<byte>, offset: nat, count: int, ts: seq<Transfer>, w: World)
    requires Valid(s) && offset <= |buffer| && ts == Performed(s, offset, count) && Reaches(s.memory, ts)
    requires w == World(Prepared(op, buffer, offset), s.memory)
    ensures var e, r := Exec(op, ts, w), StepIo(s, op, buffer, offset, count);
      && r.response == Response(e.world.buffer, e.ok) && r.state.memory == e.world.memory
      && r.state.position == if e.ok then s.position + count else s.position
  {}

  /** And a servable write changes exactly the mapped bytes of the request. */
  lemma WriteChangesFlatMemory(s: State, buffer: seq<byte>, offset: nat, count: nat, x: int)
    requires Good(s) && Admissible(s, Io(WriteOp, buffer, offset, count))
    requires Servable(s.zones, s.position, offset, count) && Distinct(s.zones)
    requires offset + count <= |buffer| && offset + count <= INT32_MAX
    ensures var r := StepIo(s, WriteOp, buffer, offset, count);
      && r.response == Response(buffer, true) && r.state.position == s.position + count
      && Holds(r.state.memory, s.zones)
      && FlatAt(s.zones, r.state.memory, x)
         == FlatWritten(s.zones, World(buffer, s.memory), s.position, offset, count, x)
  {
    if s.useCompiler { AdmissibleIoIsInterpreted(s, count); }
    WriteRefinesFlat(s.zones, World(buffer, s.memory), s.position, offset, count, x);
  }

  /* -------- the zone map over runs -------- */

  /** An accepted zone also ends at or before the next key, the direction `Add` omits. */
  predicate Fits(s: State, r: Request) {
    r.Map? && AddAccepts(s.zones, r.key) && Slot(s.zones, r.key) < |s.zones| ==>
      r.key + r.stream.length <= s.zones[Slot(s.zones, r.key)].base
  }

  lemma StepKeepsSeparatedIff(s: State, r: Request)
    requires Valid(s) && Separated(s.zones) && (r.Map? ==> r.stream in s.memory)
    ensures Separated(Step(s, r).state.zones) <==> Fits(s, r)
  {
    match r
    case Map(key, stream) =>
      if AddAccepts(s.zones, key) { AddKeepsSeparatedIff(s.zones, Zone(key, stream)); }
    case Unmap(key) => DeleteKeepsOrder(s.zones, key);
    case _ =>
  }

  ghost predicate SeparatedThroughout(s: State, rs: seq<Request>)
    requires Valid(s) && Streamed(s, rs)
    decreases |rs|
  {
    Separated(s.zones) &&
    (rs == [] ||
     (StepIsValid(s, rs[0]);
      StepKeepsStreams(s, rs[0]);
      SeparatedThroughout(Step(s, rs[0]).state, rs[1..])))
  }

  ghost predicate FitsThroughout(s: State, rs: seq<Request>)
    requires Valid(s) && Streamed(s, rs)
    decreases |rs|
  {
    rs == [] ||
    (StepIsValid(s, rs[0]);
     StepKeepsStreams(s, rs[0]);
     Fits(s, rs[0]) && FitsThroughout(Step(s, rs[0]).state, rs[1..]))
  }

  /** Zones stay disjoint all along a run exactly when every accepted zone fits before the next key. */
  lemma {:induction false} RunKeepsSeparatedIff(s: State, rs: seq<Request>)
    requires Valid(s) && Streamed(s, rs) && Separated(s.zones)
    ensures SeparatedThroughout(s, rs) <==> FitsThroughout(s, rs)
    decreases |rs|
  {
    if rs != [] {
      StepIsValid(s, rs[0]);
      StepKeepsStreams(s, rs[0]);
      StepKeepsSeparatedIff(s, rs[0]);
      var next := Step(s, rs[0]).state;
      if Separated(next.zones) { RunKeepsSeparatedIff(next, rs[1..]); }
    }
  }

  /** Every zone is added above all keys present. */
  ghost predicate Ascending(s: State, rs: seq<Request>)
    requires Valid(s) && Streamed(s, rs)
    decreases |rs|
  {
    rs == [] ||
    (StepIsValid(s, rs[0]);
     StepKeepsStreams(s, rs[0]);
     (rs[0].Map? ==> Slot(s.zones, rs[0].key) == |s.zones|) && Ascending(Step(s, rs[0]).state, rs[1..]))
  }

  lemma {:induction false} AscendingRunsFit(s: State, rs: seq<Request>)
    requires Valid(s) && Streamed(s, rs) && Ascending(s, rs)
    ensures FitsThroughout(s, rs)
    decreases |rs|
  {
    if rs != [] {
      StepIsValid(s, rs[0]);
      StepKeepsStreams(s, rs[0]);
      AscendingRunsFit(Step(s, rs[0]).state, rs[1..]);
    }
  }
}
