/** How one request becomes transfers between the caller's buffer and the mapped streams, and what
    performing a list of transfers does. */
module IoEngine {
  import opened Common
  import opened Streams
  import opened ZoneMap

  datatype Direction = ReadOp | WriteOp

  datatype Transfer = Transfer(stream: ByteStream, position: int, offset: int, count: int)

  /** The caller's buffer and the contents of the streams. */
  datatype World = World(buffer: seq<byte>, memory: map<ByteStream, seq<byte>>)

  /** `ok` is false when an exception ended the operation. */
  datatype Outcome = Outcome(world: World, ok: bool)

  /* -------- performing transfers -------- */

  ghost predicate Reaches(memory: map<ByteStream, seq<byte>>, ts: seq<Transfer>) {
    forall i | 0 <= i < |ts| :: ts[i].stream in memory
  }

  function Perform(op: Direction, t: Transfer, w: World): (r: Outcome)
    requires t.stream in w.memory
    ensures r.world.memory.Keys == w.memory.Keys
  {
    if !Accepts(|w.buffer|, t.position, t.offset, t.count) then
      Outcome(w, false)
    else
      match op
      case ReadOp =>
        Outcome(World(Overlay(w.buffer, t.offset, Fetched(t, w)), w.memory), true)
      case WriteOp =>
        Outcome(World(w.buffer, w.memory[t.stream := Deposit(w.memory[t.stream], t.position, w.buffer[t.offset..t.offset + t.count])]), true)
  }

  function Fetched(t: Transfer, w: World): (r: seq<byte>)
    requires t.stream in w.memory && 0 <= t.position && 0 <= t.count
    ensures |r| <= t.count
  {
    Fetch(w.memory[t.stream], t.position, t.count)
  }

  function Exec(op: Direction, ts: seq<Transfer>, w: World): (r: Outcome)
    requires Reaches(w.memory, ts)
    ensures r.world.memory.Keys == w.memory.Keys
  {
    if ts == [] then Outcome(w, true)
    else
      var r := Perform(op, ts[0], w);
      if r.ok then Exec(op, ts[1..], r.world) else r
  }

  /* -------- planning transfers: _StreamIOInterpreter -------- */

  predicate CheckInReadZone(requested: int, count: int, z: Zone) {
    z.base >= requested && End(z) < requested + count
  }

  function ConvertToOffsetInBuffer(address: int, base: int): int { ToInt32(base - address) }

  /** The transfer for the zone at place `index` of a query of `total` zones. */
  function TransferFor(z: Zone, index: nat, total: nat, address: int, offset: int, count: int): Transfer {
    var inZone := CheckInReadZone(address, count, z);
    if index == 0 then
      if inZone then Transfer(z.stream, 0, offset, ToInt32(z.stream.length))
      else Transfer(z.stream, address - z.base, offset, count)
    else
      var at := ToInt32(ConvertToOffsetInBuffer(address, z.base) + offset);
      if index == total - 1 && !inZone then Transfer(z.stream, 0, at, ToInt32(count - at))
      else Transfer(z.stream, 0, at, ToInt32(z.stream.length))
  }

  function Plan(query: seq<Zone>, index: nat, total: nat, writeMode: bool, address: int, offset: int, count: int)
    : seq<Transfer>
  {
    if query == [] then []
    else if writeMode && !query[0].stream.canWrite then
      Plan(query[1..], index, total, writeMode, address, offset, count)
    else
      [TransferFor(query[0], index, total, address, offset, count)]
      + Plan(query[1..], index + 1, total, writeMode, address, offset, count)
  }

  /** The transfers of a request on a whole map; both directions run in write mode. */
  function PlanFor(zones: seq<Zone>, address: int, offset: int, count: int): seq<Transfer> {
    var q := Touched(zones, false, address, address + count);
    Plan(q, 0, |q|, true, address, offset, count)
  }

  ghost predicate Holds(memory: map<ByteStream, seq<byte>>, zones: seq<Zone>) {
    forall i | 0 <= i < |zones| ::
      zones[i].stream in memory && |memory[zones[i].stream]| == zones[i].stream.length
  }

  ghost predicate Writable(zones: seq<Zone>) {
    forall i | 0 <= i < |zones| :: zones[i].stream.canWrite
  }

  lemma {:induction false} PlanReaches(memory: map<ByteStream, seq<byte>>, query: seq<Zone>, index: nat, total: nat,
                                       writeMode: bool, address: int, offset: int, count: int)
    requires forall i | 0 <= i < |query| :: query[i].stream in memory
    ensures Reaches(memory, Plan(query, index, total, writeMode, address, offset, count))
  {
    if query != [] {
      PlanReaches(memory, query[1..], if writeMode && !query[0].stream.canWrite then index else index + 1,
                  total, writeMode, address, offset, count);
    }
  }

  predicate OnlyWritable(ts: seq<Transfer>) {
    ts == [] || (ts[0].stream.canWrite && OnlyWritable(ts[1..]))
  }

  /** In write mode, in which reads run too, a stream that cannot be written is never touched. */
  lemma {:induction false} ReadOnlyStreamsAreSkipped(query: seq<Zone>, index: nat, total: nat,
                                                     address: int, offset: int, count: int)
    ensures OnlyWritable(Plan(query, index, total, true, address, offset, count))
  {
    if query != [] {
      if query[0].stream.canWrite {
        ReadOnlyStreamsAreSkipped(query[1..], index + 1, total, address, offset, count);
        var t := TransferFor(query[0], index, total, address, offset, count);
        var rest := Plan(query[1..], index + 1, total, true, address, offset, count);
        assert ([t] + rest)[1..] == rest;
      } else {
        ReadOnlyStreamsAreSkipped(query[1..], index, total, address, offset, count);
      }
    }
  }

  /* -------- the transfers tile the request -------- */

  /** First and last-plus-one address of the request that `z` holds. */
  function Low(z: Zone, address: int): int { Max(address, z.base) }

  function High(z: Zone, address: int, count: int): int { Max(Low(z, address), Min(End(z), address + count)) }

  /** `t` moves exactly the part of the request that lies in `z`, to its own place in the buffer. */
  ghost predicate Exact(t: Transfer, z: Zone, address: int, offset: int, count: int) {
    && t.stream == z.stream
    && t.position == Low(z, address) - z.base
    && t.offset == offset + Low(z, address) - address
    && 0 <= t.position && 0 <= t.count && offset <= t.offset && t.offset + t.count <= offset + count
    && Served(z.stream.length, t.position, t.count) == High(z, address, count) - Low(z, address)
  }

  /** A run of zones as the query returns it: places `index..total` of the query of a request. */
  ghost predicate Run(q: seq<Zone>, index: nat, total: nat, address: int, count: int) {
    && Separated(q)
    && total == index + |q|
    && (q != [] && index == 0 ==> Contains(q[0], address))
    && forall i | 0 <= i < |q| :: (index + i > 0 ==> address < q[i].base < address + count)
  }

  lemma RunTail(q: seq<Zone>, index: nat, total: nat, address: int, count: int)
    requires Run(q, index, total, address, count) && q != []
    ensures Run(q[1..], index + 1, total, address, count)
    ensures forall i | 0 <= i < |q| - 1 :: End(q[0]) <= q[1..][i].base
  {
    forall i | 0 <= i < |q| - 1 ensures End(q[0]) <= q[1..][i].base && address < q[1..][i].base < address + count {
      assert q[1..][i] == q[i + 1];
    }
  }

  /** Does the plan serve the whole request when the buffer offset is not zero? Only when no last zone
      is cut off by the end of the request, for there the offset is subtracted from the count. */
  ghost predicate OffsetHarmless(q: seq<Zone>, index: nat, total: nat, address: int, offset: int, count: int) {
    offset == 0 || total == 1 || q == [] || End(q[|q| - 1]) < address + count
  }

  lemma TransferIsExactIff(q: seq<Zone>, index: nat, total: nat, address: int, offset: nat, count: nat)
    requires Run(q, index, total, address, count) && q != [] && offset + count <= INT32_MAX
    ensures Exact(TransferFor(q[0], index, total, address, offset, count), q[0], address, offset, count)
       <==> |q| > 1 || OffsetHarmless(q, index, total, address, offset, count)
  {
    var z := q[0];
    if |q| > 1 {
      assert End(z) <= q[1].base < address + count;
    }
  }

  /** Every zone of the run gets its exact transfer. */
  ghost predicate ExactPlan(q: seq<Zone>, index: nat, total: nat, address: int, offset: int, count: int) {
    q == []
    || (&& Exact(TransferFor(q[0], index, total, address, offset, count), q[0], address, offset, count)
        && ExactPlan(q[1..], index + 1, total, address, offset, count))
  }

  /** The plan serves exactly the mapped part of the request if and only if the buffer offset is 0, or
      only one zone is touched, or the last zone ends inside the request. */
  lemma {:induction false} PlanIsExactIff(q: seq<Zone>, index: nat, total: nat, address: int, offset: nat, count: nat)
    requires Run(q, index, total, address, count) && offset + count <= INT32_MAX
    ensures ExactPlan(q, index, total, address, offset, count)
       <==> OffsetHarmless(q, index, total, address, offset, count)
  {
    if q != [] {
      TransferIsExactIff(q, index, total, address, offset, count);
      RunTail(q, index, total, address, count);
      PlanIsExactIff(q[1..], index + 1, total, address, offset, count);
    }
  }

  /* -------- refinement of a flat address space -------- */

  /** The byte that the map shows at an address. */
  function FlatAt(zones: seq<Zone>, memory: map<ByteStream, seq<byte>>, address: int): Option<byte>
    requires Holds(memory, zones)
  {
    var k := Find(zones, address);
    if k == |zones| then None else Some(memory[zones[k].stream][address - zones[k].base])
  }

  lemma FlatCons(q: seq<Zone>, memory: map<ByteStream, seq<byte>>, a: int)
    requires Holds(memory, q) && q != []
    ensures Holds(memory, q[1..])
    ensures FlatAt(q, memory, a)
         == if Contains(q[0], a) then Some(memory[q[0].stream][a - q[0].base]) else FlatAt(q[1..], memory, a)
  {}

  lemma NotInLater(q: seq<Zone>, a: int)
    requires Separated(q) && q != [] && a < End(q[0])
    ensures !Mapped(q[1..], a)
  {
    forall i | 0 <= i < |q| - 1 ensures !Contains(q[1..][i], a) {
      assert End(q[0]) <= q[i + 1].base;
    }
  }

  /** One exact read transfer fills the part of the buffer that the zone holds. */
  lemma ReadStep(z: Zone, t: Transfer, w: World, address: int, offset: nat, count: nat)
    requires Exact(t, z, address, offset, count) && offset + count <= |w.buffer|
    requires z.stream in w.memory && |w.memory[z.stream]| == z.stream.length
    ensures var r := Perform(ReadOp, t, w);
      && r.ok && r.world.memory == w.memory && |r.world.buffer| == |w.buffer|
      && forall j | 0 <= j < |w.buffer| :: r.world.buffer[j] ==
           if offset <= j < offset + count && Contains(z, address + j - offset)
           then w.memory[z.stream][address + j - offset - z.base] else w.buffer[j]
  {
    var f := Fetched(t, w);
    assert |f| == High(z, address, count) - Low(z, address);
  }

  /** The first transfer's bytes and those of the later zones together show the flat map. */
  lemma FlatStep(q: seq<Zone>, memory: map<ByteStream, seq<byte>>, a: int, before: byte)
    requires Separated(q) && q != [] && Holds(memory, q)
    ensures Holds(memory, q[1..])
    ensures FlatAt(q, memory, a).GetOr(before)
         == FlatAt(q[1..], memory, a).GetOr(
              if Contains(q[0], a) then memory[q[0].stream][a - q[0].base] else before)
  {
    FlatCons(q, memory, a);
    if Contains(q[0], a) { NotInLater(q, a); }
  }

  lemma PlanCons(q: seq<Zone>, index: nat, total: nat, address: int, offset: int, count: int)
    requires Writable(q) && q != []
    ensures Writable(q[1..])
    ensures var ts := Plan(q, index, total, true, address, offset, count);
      && ts != [] && ts[0] == TransferFor(q[0], index, total, address, offset, count)
      && ts[1..] == Plan(q[1..], index + 1, total, true, address, offset, count)
  {}

  /** What executing the plan of `q` has put at place `j` of the buffer. */
  ghost function ReadResult(q: seq<Zone>, w: World, address: int, offset: nat, count: nat, j: nat): byte
    requires Holds(w.memory, q) && j < |w.buffer|
  {
    if offset <= j < offset + count then FlatAt(q, w.memory, address + j - offset).GetOr(w.buffer[j]) else w.buffer[j]
  }

  lemma HeadAndTail(q: seq<Zone>, index: nat, total: nat, memory: map<ByteStream, seq<byte>>,
                    address: int, offset: nat, count: nat)
    requires Run(q, index, total, address, count) && ExactPlan(q, index, total, address, offset, count)
    requires q != [] && Holds(memory, q)
    ensures Run(q[1..], index + 1, total, address, count) && Holds(memory, q[1..])
    ensures ExactPlan(q[1..], index + 1, total, address, offset, count)
    ensures Exact(TransferFor(q[0], index, total, address, offset, count), q[0], address, offset, count)
  {
    RunTail(q, index, total, address, count);
  }

  lemma ReadHead(q: seq<Zone>, t: Transfer, w: World, address: int, offset: nat, count: nat)
    requires Separated(q) && q != [] && Holds(w.memory, q) && offset + count <= |w.buffer|
    requires Exact(t, q[0], address, offset, count)
    ensures Holds(w.memory, q[1..])
    ensures var r := Perform(ReadOp, t, w);
      && r.ok && r.world.memory == w.memory && |r.world.buffer| == |w.buffer|
      && forall j | 0 <= j < |w.buffer| ::
           ReadResult(q[1..], r.world, address, offset, count, j) == ReadResult(q, w, address, offset, count, j)
  {
    ReadStep(q[0], t, w, address, offset, count);
    var w' := Perform(ReadOp, t, w).world;
    forall j | 0 <= j < |w.buffer|
      ensures ReadResult(q[1..], w', address, offset, count, j) == ReadResult(q, w, address, offset, count, j)
    {
      FlatStep(q, w.memory, address + j - offset, w.buffer[j]);
    }
  }

  lemma {:induction false} ExecReadIsFlat(q: seq<Zone>, index: nat, total: nat, w: World,
                                          address: int, offset: nat, count: nat)
    requires Run(q, index, total, address, count) && ExactPlan(q, index, total, address, offset, count)
    requires Writable(q) && Holds(w.memory, q) && offset + count <= |w.buffer|
    ensures var ts := Plan(q, index, total, true, address, offset, count);
      && Reaches(w.memory, ts)
      && var r := Exec(ReadOp, ts, w);
      && r.ok && r.world.memory == w.memory && |r.world.buffer| == |w.buffer|
      && forall j | 0 <= j < |w.buffer| :: r.world.buffer[j] == ReadResult(q, w, address, offset, count, j)
    decreases |q|
  {
    PlanReaches(w.memory, q, index, total, true, address, offset, count);
    if q != [] {
      PlanCons(q, index, total, address, offset, count);
      var t := TransferFor(q[0], index, total, address, offset, count);
      HeadAndTail(q, index, total, w.memory, address, offset, count);
      ReadHead(q, t, w, address, offset, count);
      var w' := Perform(ReadOp, t, w).world;
      ExecReadIsFlat(q[1..], index + 1, total, w', address, offset, count);
    }
  }

  /* -------- writes -------- */

  ghost predicate Distinct(zones: seq<Zone>) {
    forall i, j | 0 <= i < j < |zones| :: zones[i].stream != zones[j].stream
  }

  /** The contents of a stream mapped at `base` after the request has written the buffer. */
  function Patched(data: seq<byte>, base: int, buffer: seq<byte>, address: int, offset: nat, count: nat): (r: seq<byte>)
    requires offset + count <= |buffer|
  {
    seq(|data|, p requires 0 <= p < |data| =>
      if address <= base + p < address + count then buffer[offset + base + p - address] else data[p])
  }

  lemma WriteStep(z: Zone, t: Transfer, w: World, address: int, offset: nat, count: nat)
    requires Exact(t, z, address, offset, count) && offset + count <= |w.buffer|
    requires z.stream in w.memory && |w.memory[z.stream]| == z.stream.length
    ensures var r := Perform(WriteOp, t, w);
      && r.ok && r.world.buffer == w.buffer
      && r.world.memory
         == w.memory[z.stream := Patched(w.memory[z.stream], z.base, w.buffer, address, offset, count)]
  {
    var data := w.memory[z.stream];
    var piece := w.buffer[t.offset..t.offset + t.count];
    assert Deposit(data, t.position, piece) == Patched(data, z.base, w.buffer, address, offset, count);
  }

  /** `after` is `before` with the request written into exactly the streams of `q`. */
  ghost predicate Wrote(q: seq<Zone>, before: map<ByteStream, seq<byte>>, after: map<ByteStream, seq<byte>>,
                        buffer: seq<byte>, address: int, offset: nat, count: nat)
    requires offset + count <= |buffer|
  {
    && after.Keys == before.Keys
    && (forall i | 0 <= i < |q| :: q[i].stream in before && after[q[i].stream]
          == Patched(before[q[i].stream], q[i].base, buffer, address, offset, count))
    && (forall s | s in before && (forall i | 0 <= i < |q| :: q[i].stream != s) :: after[s] == before[s])
  }

  lemma WroteCons(q: seq<Zone>, before: map<ByteStream, seq<byte>>, mid: map<ByteStream, seq<byte>>,
                  after: map<ByteStream, seq<byte>>, buffer: seq<byte>, address: int, offset: nat, count: nat)
    requires offset + count <= |buffer| && q != [] && Distinct(q) && Holds(before, q)
    requires mid == before[q[0].stream := Patched(before[q[0].stream], q[0].base, buffer, address, offset, count)]
    requires Wrote(q[1..], mid, after, buffer, address, offset, count)
    ensures Wrote(q, before, after, buffer, address, offset, count)
  {
    var rest := q[1..];
    DistinctTail(q, before, mid, rest);
    forall i | 0 <= i < |q|
      ensures after[q[i].stream] == Patched(before[q[i].stream], q[i].base, buffer, address, offset, count)
    {
      if i > 0 { assert q[i] == rest[i - 1]; }
    }
    forall s | s in before && (forall i | 0 <= i < |q| :: q[i].stream != s) ensures after[s] == before[s] {
      assert q[0].stream != s;
      assert forall i | 0 <= i < |rest| :: rest[i] == q[i + 1];
    }
  }

  lemma {:induction false} ExecWritePatches(q: seq<Zone>, index: nat, total: nat, w: World,
                                            address: int, offset: nat, count: nat)
    requires Run(q, index, total, address, count) && ExactPlan(q, index, total, address, offset, count)
    requires Writable(q) && Holds(w.memory, q) && Distinct(q) && offset + count <= |w.buffer|
    ensures var ts := Plan(q, index, total, true, address, offset, count);
      && Reaches(w.memory, ts)
      && var r := Exec(WriteOp, ts, w);
      && r.ok && r.world.buffer == w.buffer
      && Wrote(q, w.memory, r.world.memory, w.buffer, address, offset, count)
    decreases |q|
  {
    PlanReaches(w.memory, q, index, total, true, address, offset, count);
    if q != [] {
      PlanCons(q, index, total, address, offset, count);
      var t := TransferFor(q[0], index, total, address, offset, count);
      HeadAndTail(q, index, total, w.memory, address, offset, count);
      WriteStep(q[0], t, w, address, offset, count);
      var w' := Perform(WriteOp, t, w).world;
      DistinctTail(q, w.memory, w'.memory, q[1..]);
      ExecWritePatches(q[1..], index + 1, total, w', address, offset, count);
      WroteCons(q, w.memory, w'.memory, Exec(WriteOp, Plan(q[1..], index + 1, total, true, address, offset, count), w').world.memory,
                w.buffer, address, offset, count);
    }
  }

  lemma DistinctTail(q: seq<Zone>, before: map<ByteStream, seq<byte>>, after: map<ByteStream, seq<byte>>, rest: seq<Zone>)
    requires Distinct(q) && q != [] && Holds(before, q) && rest == q[1..]
    requires after.Keys == before.Keys && forall s | s in before && s != q[0].stream :: after[s] == before[s]
    ensures Distinct(rest) && Holds(after, rest)
    ensures forall i | 0 <= i < |rest| :: rest[i].stream != q[0].stream && after[rest[i].stream] == before[rest[i].stream]
  {
    forall i, j | 0 <= i < j < |rest| ensures rest[i].stream != rest[j].stream {
      assert q[i + 1].stream != q[j + 1].stream;
    }
    forall i | 0 <= i < |rest| ensures rest[i].stream != q[0].stream && rest[i].stream in before {
      assert q[0].stream != q[i + 1].stream;
    }
  }

  /* -------- whole requests on a whole map -------- */

  /** The zones a request touches. */
  function Query(zones: seq<Zone>, address: int, count: int): seq<Zone> {
    Touched(zones, false, address, address + count)
  }

  /** The caller-checkable condition under which a request is served in full. */
  ghost predicate Servable(zones: seq<Zone>, address: int, offset: int, count: int) {
    && Separated(zones)
    && Writable(Query(zones, address, count))
    && OffsetHarmless(Query(zones, address, count), 0, |Query(zones, address, count)|, address, offset, count)
  }

  lemma QueryRuns(zones: seq<Zone>, address: int, count: int)
    requires Separated(zones) && Mapped(zones, address)
    ensures Run(Query(zones, address, count), 0, |Query(zones, address, count)|, address, count)
    ensures Query(zones, address, count) != []
  {
    QueryIsRun(zones, address, address + count);
    RunIsExact(zones, address, address + count);
    var first, past := Find(zones, address), Past(zones, address, address + count);
    SliceRuns(zones, first, past, address, count);
  }

  lemma SliceRuns(zones: seq<Zone>, first: nat, past: nat, address: int, count: int)
    requires Separated(zones) && first < past <= |zones| && Contains(zones[first], address)
    requires forall i | first <= i < past :: Contains(zones[i], address) || address < zones[i].base < address + count
    ensures Run(zones[first..past], 0, past - first, address, count)
  {
    var q := zones[first..past];
    forall i | 0 < i < |q| ensures address < q[i].base < address + count {
      assert End(zones[first]) <= zones[first + i].base;
    }
    forall i, j | 0 <= i < j < |q| ensures q[i].base < q[j].base && End(q[i]) <= q[j].base {
      assert zones[first + i].base < zones[first + j].base;
    }
  }

  /** The queried zones are one slice of the map. */
  lemma QueryIsSlice(zones: seq<Zone>, address: int, count: int) returns (first: nat, past: nat)
    requires Separated(zones) && Mapped(zones, address)
    ensures first == Find(zones, address) && past == Past(zones, address, address + count)
    ensures first < past <= |zones| && Query(zones, address, count) == zones[first..past]
  {
    QueryIsRun(zones, address, address + count);
    first, past := Find(zones, address), Past(zones, address, address + count);
  }

  /** The zone of any address of the request lies in the queried run. */
  lemma HoldersInRun(zones: seq<Zone>, address: int, count: int, x: int)
    requires Separated(zones) && Mapped(zones, address) && address <= x < address + count
    ensures forall i | 0 <= i < |zones| && Contains(zones[i], x) ::
              Find(zones, address) <= i < Past(zones, address, address + count)
  {
    RunIsExact(zones, address, address + count);
    forall i | 0 <= i < |zones| && Contains(zones[i], x)
      ensures Contains(zones[i], address) || address < zones[i].base < address + count
    {
      if zones[i].base <= address { assert Contains(zones[i], address); }
    }
  }

  lemma FindInSlice(zones: seq<Zone>, first: nat, past: nat, x: int)
    requires first <= past <= |zones|
    requires forall i | 0 <= i < |zones| && Contains(zones[i], x) :: first <= i < past
    ensures var q := zones[first..past];
            if Mapped(zones, x) then Mapped(q, x) && Find(q, x) == Find(zones, x) - first else !Mapped(q, x)
  {
    var q := zones[first..past];
    var k := Find(zones, x);
    if k < |zones| {
      assert q[k - first] == zones[k];
      assert forall i | 0 <= i < k - first :: q[i] == zones[first + i];
    } else {
      assert forall i | 0 <= i < |q| :: q[i] == zones[first + i];
    }
  }

  lemma HoldsQuery(zones: seq<Zone>, memory: map<ByteStream, seq<byte>>, address: int, count: int)
    requires Separated(zones) && Mapped(zones, address) && Holds(memory, zones)
    ensures Holds(memory, Query(zones, address, count))
  {
    var first, past := QueryIsSlice(zones, address, count);
    HoldsSlice(zones, memory, first, past);
  }

  lemma HoldsSlice(zones: seq<Zone>, memory: map<ByteStream, seq<byte>>, first: nat, past: nat)
    requires first <= past <= |zones| && Holds(memory, zones)
    ensures Holds(memory, zones[first..past])
  {}

  lemma FlatInRun(zones: seq<Zone>, memory: map<ByteStream, seq<byte>>, first: nat, past: nat, x: int)
    requires Separated(zones) && Holds(memory, zones) && first <= past <= |zones|
    requires forall i | 0 <= i < |zones| && Contains(zones[i], x) :: first <= i < past
    ensures Holds(memory, zones[first..past])
    ensures FlatAt(zones[first..past], memory, x) == FlatAt(zones, memory, x)
  {
    FindInSlice(zones, first, past, x);
  }

  /** Within the request the queried zones show what the whole map shows. */
  lemma FlatInQuery(zones: seq<Zone>, memory: map<ByteStream, seq<byte>>, address: int, count: int, x: int)
    requires Separated(zones) && Mapped(zones, address) && Holds(memory, zones)
    requires address <= x < address + count
    ensures Holds(memory, Query(zones, address, count))
    ensures FlatAt(Query(zones, address, count), memory, x) == FlatAt(zones, memory, x)
  {
    var first, past := QueryIsSlice(zones, address, count);
    HoldersInRun(zones, address, count, x);
    FlatInRun(zones, memory, first, past, x);
  }

  /** What a read shows at place `j` of the buffer: the byte of the flat address space, the buffer's own
      byte in a gap, and the whole buffer untouched when the start is unmapped. */
  ghost function FlatRead(zones: seq<Zone>, w: World, address: int, offset: nat, count: nat, j: nat): byte
    requires Holds(w.memory, zones) && j < |w.buffer|
  {
    if Mapped(zones, address) && offset <= j < offset + count
    then FlatAt(zones, w.memory, address + j - offset).GetOr(w.buffer[j]) else w.buffer[j]
  }

  lemma FlatReadInQuery(zones: seq<Zone>, w: World, address: int, offset: nat, count: nat, j: nat)
    requires Separated(zones) && Mapped(zones, address) && Holds(w.memory, zones) && j < |w.buffer|
    ensures Holds(w.memory, Query(zones, address, count))
    ensures ReadResult(Query(zones, address, count), w, address, offset, count, j)
         == FlatRead(zones, w, address, offset, count, j)
  {
    HoldsQuery(zones, w.memory, address, count);
    if offset <= j < offset + count {
      FlatInQuery(zones, w.memory, address, count, address + j - offset);
    }
  }

  /** Reading through the map refines the flat address space. */
  lemma ReadRefinesFlat(zones: seq<Zone>, w: World, address: int, offset: nat, count: nat)
    requires Servable(zones, address, offset, count) && Holds(w.memory, zones)
    requires offset + count <= |w.buffer| && offset + count <= INT32_MAX
    ensures var ts := PlanFor(zones, address, offset, count);
      && Reaches(w.memory, ts)
      && var r := Exec(ReadOp, ts, w);
      && r.ok && r.world.memory == w.memory && |r.world.buffer| == |w.buffer|
      && forall j | 0 <= j < |w.buffer| :: r.world.buffer[j] == FlatRead(zones, w, address, offset, count, j)
  {
    if Mapped(zones, address) {
      var q := Query(zones, address, count);
      QueryRuns(zones, address, count);
      HoldsQuery(zones, w.memory, address, count);
      PlanIsExactIff(q, 0, |q|, address, offset, count);
      ExecReadIsFlat(q, 0, |q|, w, address, offset, count);
      forall j | 0 <= j < |w.buffer|
        ensures ReadResult(q, w, address, offset, count, j) == FlatRead(zones, w, address, offset, count, j)
      {
        FlatReadInQuery(zones, w, address, offset, count, j);
      }
    } else {
      TouchedFromHit(zones, address, address + count);
    }
  }

  lemma StreamOutsideRun(zones: seq<Zone>, first: nat, past: nat, k: nat)
    requires Distinct(zones) && first <= past <= |zones| && k < |zones| && !(first <= k < past)
    ensures forall i | 0 <= i < past - first :: zones[first..past][i].stream != zones[k].stream
  {
    forall i | 0 <= i < past - first ensures zones[first..past][i].stream != zones[k].stream {
      if k < first { assert zones[k].stream != zones[first + i].stream; }
      else { assert zones[first + i].stream != zones[k].stream; }
    }
  }

  /** What the map shows at `x` once the request has been written. */
  ghost function FlatWritten(zones: seq<Zone>, w: World, address: int, offset: nat, count: nat, x: int): Option<byte>
    requires Holds(w.memory, zones) && offset + count <= |w.buffer|
  {
    if Mapped(zones, address) && Mapped(zones, x) && address <= x < address + count
    then Some(w.buffer[offset + x - address]) else FlatAt(zones, w.memory, x)
  }

  lemma WroteInRun(zones: seq<Zone>, w: World, after: map<ByteStream, seq<byte>>, first: nat, past: nat,
                   address: int, offset: nat, count: nat, x: int)
    requires Holds(w.memory, zones) && Holds(after, zones) && Mapped(zones, address)
    requires first <= Find(zones, x) < past <= |zones| && offset + count <= |w.buffer|
    requires Wrote(zones[first..past], w.memory, after, w.buffer, address, offset, count)
    ensures FlatAt(zones, after, x) == FlatWritten(zones, w, address, offset, count, x)
  {
    var k := Find(zones, x);
    assert zones[first..past][k - first] == zones[k];
  }

  lemma WroteOutsideRun(zones: seq<Zone>, w: World, after: map<ByteStream, seq<byte>>, first: nat, past: nat,
                        address: int, offset: nat, count: nat, x: int)
    requires Holds(w.memory, zones) && Holds(after, zones) && Distinct(zones)
    requires Mapped(zones, x) && !(first <= Find(zones, x) < past) && first <= past <= |zones|
    requires offset + count <= |w.buffer| && !(address <= x < address + count)
    requires Wrote(zones[first..past], w.memory, after, w.buffer, address, offset, count)
    ensures FlatAt(zones, after, x) == FlatWritten(zones, w, address, offset, count, x)
  {
    StreamOutsideRun(zones, first, past, Find(zones, x));
  }

  lemma WroteShows(zones: seq<Zone>, w: World, after: map<ByteStream, seq<byte>>,
                   address: int, offset: nat, count: nat, x: int)
    requires Separated(zones) && Distinct(zones) && Mapped(zones, address) && Holds(w.memory, zones)
    requires offset + count <= |w.buffer|
    requires Wrote(Query(zones, address, count), w.memory, after, w.buffer, address, offset, count)
    requires Holds(after, zones)
    ensures FlatAt(zones, after, x) == FlatWritten(zones, w, address, offset, count, x)
  {
    var first, past := QueryIsSlice(zones, address, count);
    if first <= Find(zones, x) < past {
      WroteInRun(zones, w, after, first, past, address, offset, count, x);
    } else if Mapped(zones, x) {
      if address <= x < address + count { HoldersInRun(zones, address, count, x); }
      WroteOutsideRun(zones, w, after, first, past, address, offset, count, x);
    }
  }

  lemma {:induction false} ExecKeepsLengths(op: Direction, ts: seq<Transfer>, w: World)
    requires Reaches(w.memory, ts)
    ensures forall s | s in w.memory :: |Exec(op, ts, w).world.memory[s]| == |w.memory[s]|
  {
    if ts != [] {
      var r := Perform(op, ts[0], w);
      if r.ok { ExecKeepsLengths(op, ts[1..], r.world); }
    }
  }

  /** Writing through the map refines the flat address space: every mapped requested address shows the
      buffer's byte and no other address changes, provided no stream is mapped twice. */
  lemma WriteRefinesFlat(zones: seq<Zone>, w: World, address: int, offset: nat, count: nat, x: int)
    requires Servable(zones, address, offset, count) && Holds(w.memory, zones) && Distinct(zones)
    requires offset + count <= |w.buffer| && offset + count <= INT32_MAX
    ensures var ts := PlanFor(zones, address, offset, count);
      && Reaches(w.memory, ts)
      && var r := Exec(WriteOp, ts, w);
      && r.ok && r.world.buffer == w.buffer && Holds(r.world.memory, zones)
      && FlatAt(zones, r.world.memory, x) == FlatWritten(zones, w, address, offset, count, x)
  {
    if Mapped(zones, address) {
      var q := Query(zones, address, count);
      QueryRuns(zones, address, count);
      HoldsQuery(zones, w.memory, address, count);
      DistinctQuery(zones, address, count);
      PlanIsExactIff(q, 0, |q|, address, offset, count);
      ExecWritePatches(q, 0, |q|, w, address, offset, count);
      var ts := PlanFor(zones, address, offset, count);
      ExecKeepsLengths(WriteOp, ts, w);
      WroteShows(zones, w, Exec(WriteOp, ts, w).world.memory, address, offset, count, x);
    } else {
      TouchedFromHit(zones, address, address + count);
    }
  }

  lemma DistinctQuery(zones: seq<Zone>, address: int, count: int)
    requires Separated(zones) && Mapped(zones, address) && Distinct(zones)
    ensures Distinct(Query(zones, address, count))
  {
    var first, past := QueryIsSlice(zones, address, count);
    SliceStaysDistinct(zones, first, past);
  }

  lemma SliceStaysDistinct(zones: seq<Zone>, first: nat, past: nat)
    requires Distinct(zones) && first <= past <= |zones|
    ensures Distinct(zones[first..past])
  {
    var q := zones[first..past];
    forall i, j | 0 <= i < j < |q| ensures q[i].stream != q[j].stream {
      assert zones[first + i].stream != zones[first + j].stream;
    }
  }

  lemma StoredShows(zones: seq<Zone>, w: World, blank: seq<byte>, stored: map<ByteStream, seq<byte>>,
                    address: int, offset: nat, count: nat, j: nat, x: int)
    requires Holds(w.memory, zones) && Holds(stored, zones) && x == address + j - offset
    requires offset + count <= |w.buffer| && offset + count <= |blank| && offset <= j < offset + count
    requires FlatAt(zones, stored, x) == FlatWritten(zones, w, address, offset, count, x)
    ensures FlatRead(zones, World(blank, stored), address, offset, count, j)
         == if Mapped(zones, address) && Mapped(zones, x) then w.buffer[j] else blank[j]
  {}

  lemma ReadBack(zones: seq<Zone>, w: World, blank: seq<byte>, stored: map<ByteStream, seq<byte>>,
                 address: int, offset: nat, count: nat, j: nat)
    requires Servable(zones, address, offset, count) && Holds(w.memory, zones) && Distinct(zones)
    requires offset + count <= |w.buffer| && offset + count <= |blank| && offset + count <= INT32_MAX
    requires Reaches(w.memory, PlanFor(zones, address, offset, count))
    requires stored == Exec(WriteOp, PlanFor(zones, address, offset, count), w).world.memory
    requires offset <= j < offset + count
    ensures Holds(stored, zones)
    ensures FlatRead(zones, World(blank, stored), address, offset, count, j)
         == if Mapped(zones, address) && Mapped(zones, address + j - offset) then w.buffer[j] else blank[j]
  {
    var x := address + j - offset;
    WriteRefinesFlat(zones, w, address, offset, count, x);
    StoredShows(zones, w, blank, stored, address, offset, count, j, x);
  }

  /** A read after a write of the same range returns the written bytes wherever a zone is mapped. */
  lemma WriteThenReadReturnsTheBytes(zones: seq<Zone>, w: World, blank: seq<byte>, stored: map<ByteStream, seq<byte>>,
                                     address: int, offset: nat, count: nat, j: nat)
    requires Servable(zones, address, offset, count) && Holds(w.memory, zones) && Distinct(zones)
    requires offset + count <= |w.buffer| && offset + count <= |blank| && offset + count <= INT32_MAX
    requires Reaches(w.memory, PlanFor(zones, address, offset, count))
    requires stored == Exec(WriteOp, PlanFor(zones, address, offset, count), w).world.memory
    requires offset <= j < offset + count
    ensures Reaches(stored, PlanFor(zones, address, offset, count))
    ensures var r := Exec(ReadOp, PlanFor(zones, address, offset, count), World(blank, stored));
      && r.ok && |r.world.buffer| == |blank|
      && r.world.buffer[j] ==
           if Mapped(zones, address) && Mapped(zones, address + j - offset) then w.buffer[j] else blank[j]
  {
    ReadBack(zones, w, blank, stored, address, offset, count, j);
    ReadRefinesFlat(zones, World(blank, stored), address, offset, count);
  }
}
