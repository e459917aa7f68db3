/** What the planner makes of zones that cannot be written. It skips them, in either direction and without
    counting their place, so the places of the zones behind them are those of earlier zones. */
module ReadOnlyZones {
  import opened Common
  import opened ZoneMap
  import opened IoEngine

  /** How many zones of a query can be written, and so get a transfer. */
  function Writables(q: seq<Zone>): (n: nat)
    ensures n <= |q|
  {
    if q == [] then 0 else (if q[0].stream.canWrite then 1 else 0) + Writables(q[1..])
  }

  lemma {:induction false} PlanLength(q: seq<Zone>, index: nat, total: nat, address: int, offset: int, count: int)
    ensures |Plan(q, index, total, true, address, offset, count)| == Writables(q)
    decreases |q|
  {
    if q != [] {
      PlanLength(q[1..], if q[0].stream.canWrite then index + 1 else index, total, address, offset, count);
    }
  }

  lemma {:induction false} WritablesConcat(a: seq<Zone>, b: seq<Zone>)
    ensures Writables(a + b) == Writables(a) + Writables(b)
    decreases |a|
  {
    if a == [] {
      assert a + b == b;
    } else {
      assert (a + b)[0] == a[0] && (a + b)[1..] == a[1..] + b;
      WritablesConcat(a[1..], b);
    }
  }

  lemma PlanHead(q: seq<Zone>, index: nat, total: nat, address: int, offset: int, count: int)
    requires q != []
    ensures var ts := Plan(q, index, total, true, address, offset, count);
      if q[0].stream.canWrite then
        && ts != [] && ts[0] == TransferFor(q[0], index, total, address, offset, count)
        && ts[1..] == Plan(q[1..], index + 1, total, true, address, offset, count)
      else ts == Plan(q[1..], index, total, true, address, offset, count)
  {
    if q[0].stream.canWrite {
      var t := TransferFor(q[0], index, total, address, offset, count);
      var rest := Plan(q[1..], index + 1, total, true, address, offset, count);
      assert ([t] + rest)[0] == t && ([t] + rest)[1..] == rest;
    }
  }

  /* -------- exact transfers -------- */

  /** Every zone that can be written has its exact transfer among `ts`, in order, and there is no other. */
  ghost predicate Serves(q: seq<Zone>, ts: seq<Transfer>, address: int, offset: int, count: int) {
    if q == [] then ts == []
    else if !q[0].stream.canWrite then Serves(q[1..], ts, address, offset, count)
    else ts != [] && Exact(ts[0], q[0], address, offset, count) && Serves(q[1..], ts[1..], address, offset, count)
  }

  /** Zones of a request behind its first one. */
  ghost predicate Behind(q: seq<Zone>, address: int, count: int) {
    Separated(q) && forall i | 0 <= i < |q| :: address < q[i].base < address + count
  }

  lemma BehindTail(q: seq<Zone>, address: int, count: int)
    requires Behind(q, address, count) && q != []
    ensures Behind(q[1..], address, count)
    ensures |q| > 1 ==> End(q[0]) < address + count
  {
    var rest := q[1..];
    forall i | 0 <= i < |rest| ensures address < rest[i].base < address + count { assert rest[i] == q[i + 1]; }
    forall i, j | 0 <= i < j < |rest| ensures rest[i].base < rest[j].base && End(rest[i]) <= rest[j].base {
      assert End(q[i + 1]) <= q[j + 1].base && q[i + 1].base < q[j + 1].base;
    }
    if |q| > 1 { assert End(q[0]) <= q[1].base; }
  }

  /** The length of the stream, cast to Int32, is what the request wants of the zone: the zone ends inside
      or with the request, or its length wraps around to that number. */
  predicate CastFits(z: Zone, address: int, count: int) {
    End(z) < address + count || ToInt32(z.stream.length) == address + count - z.base
  }

  lemma LaterTransferIsExactIff(z: Zone, index: nat, total: nat, address: int, offset: nat, count: nat)
    requires index > 0 && address < z.base < address + count && offset + count <= INT32_MAX
    ensures Exact(TransferFor(z, index, total, address, offset, count), z, address, offset, count)
       <==> if index == total - 1 then offset == 0 || End(z) < address + count else CastFits(z, address, count)
  {}

  /** The condition on the last zone, `places` being the number of transfers of the whole query. */
  predicate LastServed(q: seq<Zone>, places: nat, total: nat, address: int, offset: nat, count: nat) {
    q == [] ||
    var last := q[|q| - 1];
    if !last.stream.canWrite then true
    else if places == total then offset == 0 || End(last) < address + count
    else CastFits(last, address, count)
  }

  lemma {:induction false} BehindServedIff(q: seq<Zone>, index: nat, total: nat, places: nat,
                                            address: int, offset: nat, count: nat)
    requires Behind(q, address, count) && index > 0 && offset + count <= INT32_MAX
    requires places == index + Writables(q)
    ensures Serves(q, Plan(q, index, total, true, address, offset, count), address, offset, count)
       <==> LastServed(q, places, total, address, offset, count)
    decreases |q|
  {
    if q != [] {
      var z, rest := q[0], q[1..];
      PlanHead(q, index, total, address, offset, count);
      BehindTail(q, address, count);
      assert rest != [] ==> rest[|rest| - 1] == q[|q| - 1];
      if z.stream.canWrite {
        LaterTransferIsExactIff(z, index, total, address, offset, count);
        BehindServedIff(rest, index + 1, total, places, address, offset, count);
      } else {
        BehindServedIff(rest, index, total, places, address, offset, count);
      }
    }
  }

  lemma FirstTransferIsExactIff(z: Zone, total: nat, address: int, offset: nat, count: nat)
    requires address <= z.base || Contains(z, address)
    requires z.base < address + count || Contains(z, address)
    requires offset + count <= INT32_MAX
    ensures Exact(TransferFor(z, 0, total, address, offset, count), z, address, offset, count) <==> z.base <= address
  {}

  /** A first zone that cannot be written leaves its place to the next one, which is then misplaced. */
  lemma {:induction false} MisplacedUnlessNoneWritable(q: seq<Zone>, total: nat, address: int, offset: nat, count: nat)
    requires Behind(q, address, count) && offset + count <= INT32_MAX
    ensures Serves(q, Plan(q, 0, total, true, address, offset, count), address, offset, count) <==> Writables(q) == 0
    decreases |q|
  {
    if q != [] {
      PlanHead(q, 0, total, address, offset, count);
      BehindTail(q, address, count);
      if q[0].stream.canWrite {
        FirstTransferIsExactIff(q[0], total, address, offset, count);
      } else {
        MisplacedUnlessNoneWritable(q[1..], total, address, offset, count);
      }
    }
  }

  /** The plan of a request serves exactly the mapped part in zones that can be written, if and only if
      there is no such zone, or the first zone is one and: it is alone, or the last zone is not one, or
      the last zone is not cut off in a way that the planner gets wrong. With all zones writable it gets
      a cut-off last zone right at offset 0; behind a read-only zone it asks for the whole last zone. */
  lemma PlanServesIff(q: seq<Zone>, address: int, offset: nat, count: nat)
    requires Run(q, 0, |q|, address, count) && offset + count <= INT32_MAX
    ensures Serves(q, Plan(q, 0, |q|, true, address, offset, count), address, offset, count)
       <==> Writables(q) == 0
            || (q[0].stream.canWrite && (|q| == 1 || LastServed(q, Writables(q), |q|, address, offset, count)))
  {
    if q != [] {
      var z, rest := q[0], q[1..];
      PlanHead(q, 0, |q|, address, offset, count);
      RunIsBehind(q, address, count);
      assert rest != [] ==> rest[|rest| - 1] == q[|q| - 1];
      if z.stream.canWrite {
        FirstTransferIsExactIff(z, |q|, address, offset, count);
        BehindServedIff(rest, 1, |q|, Writables(q), address, offset, count);
      } else {
        MisplacedUnlessNoneWritable(rest, |q|, address, offset, count);
      }
    }
  }

  lemma RunIsBehind(q: seq<Zone>, address: int, count: int)
    requires Run(q, 0, |q|, address, count) && q != []
    ensures Behind(q[1..], address, count) && Contains(q[0], address)
  {
    RunTail(q, 0, |q|, address, count);
  }

  /* -------- transfers inside their streams -------- */

  /** The transfer starts in its stream and asks for no more than is left of it. */
  predicate Inside(t: Transfer) { 0 <= t.position && t.position + t.count <= t.stream.length }

  predicate AllInside(ts: seq<Transfer>) { ts == [] || (Inside(ts[0]) && AllInside(ts[1..])) }

  /** The first zone that can be written, which gets the first transfer. */
  function FirstWritable(q: seq<Zone>): Option<Zone> {
    if q == [] then None else if q[0].stream.canWrite then Some(q[0]) else FirstWritable(q[1..])
  }

  lemma {:induction false} BehindStaysInside(q: seq<Zone>, index: nat, total: nat, address: int, offset: nat, count: nat)
    requires Behind(q, address, count) && index > 0 && offset + count <= INT32_MAX
    ensures AllInside(Plan(q, index, total, true, address, offset, count))
    decreases |q|
  {
    if q != [] {
      PlanHead(q, index, total, address, offset, count);
      BehindTail(q, address, count);
      BehindStaysInside(q[1..], if q[0].stream.canWrite then index + 1 else index, total, address, offset, count);
    }
  }

  lemma FirstTransferIsInsideIff(z: Zone, total: nat, address: int, offset: nat, count: nat)
    requires offset + count <= INT32_MAX
    ensures Inside(TransferFor(z, 0, total, address, offset, count))
       <==> CheckInReadZone(address, count, z) || (z.base <= address && address + count <= End(z))
  {}

  /** What is left of a query after zones that cannot be written. */
  lemma {:induction false} LeadingStaysInsideIff(q: seq<Zone>, total: nat, address: int, offset: nat, count: nat)
    requires Behind(q, address, count) && offset + count <= INT32_MAX
    ensures AllInside(Plan(q, 0, total, true, address, offset, count))
       <==> match FirstWritable(q) case None => true case Some(z) => CheckInReadZone(address, count, z)
    decreases |q|
  {
    if q != [] {
      PlanHead(q, 0, total, address, offset, count);
      BehindTail(q, address, count);
      if q[0].stream.canWrite {
        FirstTransferIsInsideIff(q[0], total, address, offset, count);
        BehindStaysInside(q[1..], 1, total, address, offset, count);
      } else {
        LeadingStaysInsideIff(q[1..], total, address, offset, count);
      }
    }
  }

  /** The first transfer carries the full count, so the transfers of a request stay inside their streams
      exactly when no touched zone can be written, or the first one that can lies strictly inside the
      request, or it holds the whole request. */
  lemma PlanStaysInsideIff(q: seq<Zone>, address: int, offset: nat, count: nat)
    requires Run(q, 0, |q|, address, count) && offset + count <= INT32_MAX
    ensures AllInside(Plan(q, 0, |q|, true, address, offset, count))
       <==> match FirstWritable(q)
            case None => true
            case Some(z) => CheckInReadZone(address, count, z) || (z.base <= address && address + count <= End(z))
  {
    if q != [] {
      PlanHead(q, 0, |q|, address, offset, count);
      RunIsBehind(q, address, count);
      if q[0].stream.canWrite {
        FirstTransferIsInsideIff(q[0], |q|, address, offset, count);
        BehindStaysInside(q[1..], 1, |q|, address, offset, count);
      } else {
        FirstWritableIsBehind(q[1..], address, count);
        LeadingStaysInsideIff(q[1..], |q|, address, offset, count);
      }
    }
  }

  lemma {:induction false} FirstWritableIsBehind(q: seq<Zone>, address: int, count: int)
    requires Behind(q, address, count)
    ensures FirstWritable(q).Some? ==> FirstWritable(q).value.base > address
    decreases |q|
  {
    if q != [] && !q[0].stream.canWrite {
      BehindTail(q, address, count);
      FirstWritableIsBehind(q[1..], address, count);
    }
  }

  /* -------- what a read-only zone does to the zones behind it -------- */

  /** Behind a first zone that cannot be written, the bytes of the next one go to the start of the buffer,
      where those of the first belong. */
  lemma ReadOnlyFirstZoneMisplaces(a: Zone, b: Zone, address: int, offset: nat, count: nat)
    requires Separated([a, b]) && Contains(a, address) && b.base < address + count && End(b) < address + count
    requires !a.stream.canWrite && b.stream.canWrite && offset + count <= INT32_MAX
    ensures Plan([a, b], 0, 2, true, address, offset, count) == [Transfer(b.stream, 0, offset, b.stream.length)]
    ensures b.base > address
  {
    assert [a, b][0] == a && [a, b][1] == b && End(a) <= b.base;
    assert [a, b][1..] == [b] && [b][1..] == [];
    PlanHead([a, b], 0, 2, address, offset, count);
    PlanHead([b], 0, 2, address, offset, count);
    var ts := Plan([b], 0, 2, true, address, offset, count);
    assert ts[1..] == Plan([], 1, 2, true, address, offset, count) == [];
    assert ts == [ts[0]];
  }

  /** Behind a read-only zone in the middle, a cut-off last zone is asked for all its bytes, past the end of
      the request. */
  lemma ReadOnlyMiddleZoneOverruns(a: Zone, b: Zone, c: Zone, address: int, offset: nat, count: nat)
    requires Separated([a, b, c]) && Contains(a, address) && c.base < address + count < End(c)
    requires a.stream.canWrite && !b.stream.canWrite && c.stream.canWrite
    requires offset + count <= INT32_MAX && c.stream.length <= INT32_MAX
    ensures var ts := Plan([a, b, c], 0, 3, true, address, offset, count);
      && ts[1..] == [Transfer(c.stream, 0, offset + c.base - address, c.stream.length)]
      && offset + c.base - address + c.stream.length > offset + count
  {
    var q := [a, b, c];
    assert q[0] == a && q[1] == b && q[2] == c && End(a) <= c.base;
    PlanHead(q, 0, 3, address, offset, count);
    assert q[1..] == [b, c] && [b, c][1..] == [c] && [c][1..] == [];
    PlanHead([b, c], 1, 3, address, offset, count);
    PlanHead([c], 1, 3, address, offset, count);
    var last := Plan([c], 1, 3, true, address, offset, count);
    assert address < c.base && last[0] == Transfer(c.stream, 0, offset + c.base - address, c.stream.length);
    assert last[1..] == Plan([], 2, 3, true, address, offset, count) == [];
    assert last == [last[0]];
  }
}
