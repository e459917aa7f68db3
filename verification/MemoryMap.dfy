/** The mapped memory as a state machine: zones, position, compiled cache and stream contents.
    The main result is that every admissible run with the compiled cache answers exactly as the same
    run without it, and so shows the flat address space. */
module MemoryMap {
  import opened Common
  import opened Streams
  import opened ZoneMap
  import opened IoEngine
  import opened IoCompiler

  const CACHE_MAX := 450

  datatype State = State(zones: seq<Zone>, position: int, useCompiler: bool, cache: Cache,
                         memory: map<ByteStream, seq<byte>>)

  datatype Request =
    | Io(op: Direction, buffer: seq<byte>, offset: int, count: int)
    | Seek(to: int)
    | Map(key: int, stream: ByteStream)
    | Unmap(key: int)
    | Reset
    | UseCompiler(on: bool)

  /** What the caller sees: the buffer afterwards, and whether the call returned normally. */
  datatype Response = Response(buffer: seq<byte>, ok: bool)

  datatype Result = Result(state: State, response: Response)

  const QUIET := Response([], true)

  /* -------- consistency -------- */

  predicate AllIn(refs: seq<ByteStream>, memory: map<ByteStream, seq<byte>>) {
    forall i | 0 <= i < |refs| :: refs[i] in memory
  }

  ghost predicate CacheValid(c: Cache, memory: map<ByteStream, seq<byte>>) {
    && NoRepeats(c.refs) && AllIn(c.refs, memory)
    && forall key | key in c.compiled :: InTable(c.compiled[key], c.refs)
  }

  ghost predicate Valid(s: State) {
    && Sorted(s.zones) && Holds(s.memory, s.zones)
    && (forall m | m in s.memory :: |s.memory[m]| == m.length)
    && CacheValid(s.cache, s.memory)
  }

  /* -------- one input or output request -------- */

  /** The transfers that an uncompiled request performs. */
  function Interpreted(s: State, offset: int, count: int): seq<Transfer> {
    PlanFor(s.zones, s.position, offset, count)
  }

  function KeyOf(s: State, offset: int, count: int): int { GenerateHash(s.position, offset, count) }

  /** The query is skipped for a key that is compiled, which is asked before any eviction. */
  function Planned(s: State, offset: int, count: int): seq<Transfer> {
    if KeyOf(s, offset, count) in s.cache.compiled then [] else Interpreted(s, offset, count)
  }

  function Evicted(c: Cache): Cache { if c.count > CACHE_MAX then EMPTY_CACHE else c }

  /** Compiling sets the stream positions as it goes and throws on a negative one, which only the first
      transfer can have. */
  predicate CompileThrows(ts: seq<Transfer>) { ts != [] && ts[0].position < 0 }

  /** A compilation that throws stores nothing, but has been counted. */
  function Compiled(c: Cache, key: int, ts: seq<Transfer>): (r: Cache)
    ensures key in r.compiled || CompileThrows(ts)
  {
    if key in c.compiled then c
    else if CompileThrows(ts) then c.(count := c.count + 1)
    else Cache(c.compiled[key := EmitRecords(c.refs, ts)], EmitRefs(c.refs, ts), c.count + 1)
  }

  /** The cache after a request with the compiler on. */
  function NextCache(s: State, offset: int, count: int): (c: Cache)
    ensures KeyOf(s, offset, count) in c.compiled || CompileThrows(Planned(s, offset, count))
  {
    Compiled(Evicted(s.cache), KeyOf(s, offset, count), Planned(s, offset, count))
  }

  lemma {:induction false} EmitStaysIn(refs: seq<ByteStream>, ts: seq<Transfer>, memory: map<ByteStream, seq<byte>>)
    requires AllIn(refs, memory) && Reaches(memory, ts)
    ensures AllIn(EmitRefs(refs, ts), memory)
    decreases |ts|
  {
    if ts != [] { EmitStaysIn(Registered(refs, ts[0].stream), ts[1..], memory); }
  }

  lemma {:induction false} QueryIsSubset(zones: seq<Zone>, hit: bool, address: int, end: int, z: Zone)
    ensures z in Touched(zones, hit, address, end) ==> z in zones
  {
    if zones != [] { QueryIsSubset(zones[1..], hit || Contains(zones[0], address), address, end, z); }
  }

  lemma InterpretedReaches(s: State, offset: int, count: int)
    requires Holds(s.memory, s.zones)
    ensures Reaches(s.memory, Interpreted(s, offset, count))
  {
    var q := Query(s.zones, s.position, count);
    forall i | 0 <= i < |q| ensures q[i].stream in s.memory {
      QueryIsSubset(s.zones, false, s.position, s.position + count, q[i]);
      var k :| 0 <= k < |s.zones| && s.zones[k] == q[i];
    }
    PlanReaches(s.memory, q, 0, |q|, true, s.position, offset, count);
  }

  lemma CompiledIsValid(c: Cache, key: int, ts: seq<Transfer>, memory: map<ByteStream, seq<byte>>)
    requires CacheValid(c, memory) && Reaches(memory, ts)
    ensures CacheValid(Compiled(c, key, ts), memory)
  {
    EmitKeepsNoRepeats(c.refs, ts);
    EmitStaysIn(c.refs, ts, memory);
  }

  lemma NextCacheIsValid(s: State, offset: int, count: int)
    requires Valid(s)
    ensures CacheValid(NextCache(s, offset, count), s.memory)
  {
    InterpretedReaches(s, offset, count);
    CompiledIsValid(Evicted(s.cache), KeyOf(s, offset, count), Planned(s, offset, count), s.memory);
  }

  /** The transfers that a compiled request performs; one whose compilation throws fails on its first. */
  function Replayed(s: State, offset: int, count: int): seq<Transfer>
    requires Valid(s)
  {
    NextCacheIsValid(s, offset, count);
    var c := NextCache(s, offset, count);
    if KeyOf(s, offset, count) in c.compiled then Link(c.compiled[KeyOf(s, offset, count)], c.refs)
    else Planned(s, offset, count)
  }

  /** Only the first transfer of a plan can start elsewhere than at the base of its stream. */
  lemma {:induction false} LaterTransfersStartAtZero(q: seq<Zone>, index: nat, total: nat,
                                                      address: int, offset: int, count: int)
    ensures forall i | 0 <= i < |Plan(q, index, total, true, address, offset, count)| ::
              Plan(q, index, total, true, address, offset, count)[i].position != 0 ==> i == 0 && index == 0
    decreases |q|
  {
    if q != [] {
      var next := if q[0].stream.canWrite then index + 1 else index;
      var ts, rest := Plan(q, index, total, true, address, offset, count), Plan(q[1..], next, total, true, address, offset, count);
      LaterTransfersStartAtZero(q[1..], next, total, address, offset, count);
      if q[0].stream.canWrite {
        assert ts == [TransferFor(q[0], index, total, address, offset, count)] + rest;
        forall i | 0 < i < |ts| ensures ts[i].position == 0 {
          assert ts[i] == rest[i - 1];
          assert rest[i - 1].position == 0;
        }
      }
    }
  }

  /** A compilation that throws has transferred nothing, and neither would the interpreter. */
  lemma ThrowingPlanDoesNothing(op: Direction, ts: seq<Transfer>, w: World)
    requires CompileThrows(ts) && Reaches(w.memory, ts)
    ensures Exec(op, ts, w) == Outcome(w, false)
  {}

  function Performed(s: State, offset: int, count: int): (ts: seq<Transfer>)
    requires Valid(s)
    ensures Reaches(s.memory, ts)
  {
    InterpretedReaches(s, offset, count);
    NextCacheIsValid(s, offset, count);
    if s.useCompiler then Replayed(s, offset, count) else Interpreted(s, offset, count)
  }

  /** `Read` first clears the buffer from `offset` on, and throws when `offset` is not in it. */
  function Prepared(op: Direction, buffer: seq<byte>, offset: int): (r: seq<byte>)
    ensures |r| == |buffer|
  {
    if op.ReadOp? && 0 <= offset <= |buffer| then Overlay(buffer, offset, Zeros(|buffer| - offset)) else buffer
  }

  function StepIo(s: State, op: Direction, buffer: seq<byte>, offset: int, count: int): Result
    requires Valid(s)
  {
    if op.ReadOp? && !(0 <= offset <= |buffer|) then Result(s, Response(buffer, false))
    else
      var r := Exec(op, Performed(s, offset, count), World(Prepared(op, buffer, offset), s.memory));
      var cache := if s.useCompiler then NextCache(s, offset, count) else s.cache;
      Result(s.(position := if r.ok then s.position + count else s.position,
                cache := cache, memory := r.world.memory),
             Response(r.world.buffer, r.ok))
  }

  /* -------- the other requests -------- */

  /** `Add` rejects a key inside a mapped zone or equal to one; it looks at nothing else. */
  predicate AddAccepts(zones: seq<Zone>, key: int) { !Mapped(zones, key) && !HasKey(zones, key) }

  function Step(s: State, r: Request): Result
    requires Valid(s)
    requires r.Map? ==> r.stream in s.memory
  {
    match r
    case Io(op, buffer, offset, count) => StepIo(s, op, buffer, offset, count)
    case Seek(to) => Result(s.(position := to), QUIET)
    case Map(key, stream) =>
      if AddAccepts(s.zones, key) then Result(s.(zones := Insert(s.zones, Zone(key, stream))), QUIET)
      else Result(s, Response([], false))
    case Unmap(key) =>
      Result(s.(zones := Delete(s.zones, key), cache := EMPTY_CACHE), Response([], HasKey(s.zones, key)))
    case Reset => Result(s.(zones := [], cache := EMPTY_CACHE, position := 0), QUIET)
    case UseCompiler(on) => Result(s.(useCompiler := on), QUIET)
  }

  lemma StepIoIsValid(s: State, op: Direction, buffer: seq<byte>, offset: int, count: int)
    requires Valid(s)
    ensures Valid(StepIo(s, op, buffer, offset, count).state)
  {
    NextCacheIsValid(s, offset, count);
    ExecKeepsLengths(op, Performed(s, offset, count), World(Prepared(op, buffer, offset), s.memory));
  }

  lemma InsertHolds(zones: seq<Zone>, z: Zone, memory: map<ByteStream, seq<byte>>)
    requires Holds(memory, zones) && z.stream in memory && |memory[z.stream]| == z.stream.length
    ensures Holds(memory, Insert(zones, z))
  {}

  lemma MapIsValid(s: State, key: int, stream: ByteStream)
    requires Valid(s) && stream in s.memory && AddAccepts(s.zones, key)
    ensures Valid(s.(zones := Insert(s.zones, Zone(key, stream))))
  {
    InsertKeepsSorted(s.zones, Zone(key, stream));
    InsertHolds(s.zones, Zone(key, stream), s.memory);
  }

  lemma UnmapIsValid(s: State, key: int)
    requires Valid(s)
    ensures Valid(s.(zones := Delete(s.zones, key), cache := EMPTY_CACHE))
  {
    DeleteKeepsOrder(s.zones, key);
  }

  lemma StepIsValid(s: State, r: Request)
    requires Valid(s) && (r.Map? ==> r.stream in s.memory)
    ensures Valid(Step(s, r).state)
  {
    match r
    case Io(op, buffer, offset, count) => StepIoIsValid(s, op, buffer, offset, count);
    case Map(key, stream) => if AddAccepts(s.zones, key) { MapIsValid(s, key, stream); }
    case Unmap(key) => UnmapIsValid(s, key);
    case _ =>
  }
}
