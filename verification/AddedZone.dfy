/** Exactly which requests a zone added to the map changes. */
module AddedZone {
  import opened Common
  import opened ZoneMap
  import opened IoEngine
  import opened ReadOnlyZones

  /** The request meets `z` on the map with `z` added: it starts in `z`, or in a zone below and ends
      above the base of `z`. */
  predicate Meets(zones: seq<Zone>, z: Zone, address: int, count: int) {
    Contains(z, address) || (Mapped(zones[..Slot(zones, z.base)], address) && z.base < address + count)
  }

  /** The query before and after, cut at the place of the new zone. */
  lemma QueriesAround(zones: seq<Zone>, z: Zone, address: int, end: int)
    ensures var k := Slot(zones, z.base);
      var hit := Mapped(zones[..k], address);
      && Touched(zones, false, address, end)
         == Touched(zones[..k], false, address, end) + Touched(zones[k..], hit, address, end)
      && Touched(Insert(zones, z), false, address, end)
         == Touched(zones[..k], false, address, end)
            + (Visit(z, hit, address, end) + Touched(zones[k..], hit || Contains(z, address), address, end))
  {
    var k := Slot(zones, z.base);
    var below, above := zones[..k], zones[k..];
    assert below + above == zones;
    assert Insert(zones, z) == below + ([z] + above);
    TouchedConcat(below, above, false, address, end);
    TouchedConcat(below, [z] + above, false, address, end);
    assert ([z] + above)[0] == z && ([z] + above)[1..] == above;
  }

  /** A request that does not meet the new zone selects what it did before. */
  lemma UnmetQueryStays(zones: seq<Zone>, z: Zone, address: int, count: int)
    requires !Meets(zones, z, address, count)
    ensures Query(Insert(zones, z), address, count) == Query(zones, address, count)
  {
    QueriesAround(zones, z, address, address + count);
  }

  /* -------- the length of a plan -------- */

  /** An earlier hit never loses a zone. */
  lemma {:induction false} HitKeepsWritables(zones: seq<Zone>, hit: bool, address: int, end: int)
    ensures Writables(Touched(zones, hit, address, end)) <= Writables(Touched(zones, true, address, end))
    decreases |zones|
  {
    if zones != [] {
      var z, rest := zones[0], zones[1..];
      HitKeepsWritables(rest, hit || Contains(z, address), address, end);
      WritablesConcat(Visit(z, hit, address, end), Touched(rest, hit || Contains(z, address), address, end));
      WritablesConcat(Visit(z, true, address, end), Touched(rest, true, address, end));
      WritablesConcat(if z.base < end then [z] else [], if Contains(z, address) then [z] else []);
    }
  }

  /** A request that meets a new zone that can be written gets more transfers than before. */
  lemma MetPlanGrows(zones: seq<Zone>, z: Zone, address: int, offset: int, count: int)
    requires z.stream.canWrite && Meets(zones, z, address, count)
    ensures |PlanFor(Insert(zones, z), address, offset, count)| > |PlanFor(zones, address, offset, count)|
  {
    var k, end := Slot(zones, z.base), address + count;
    var hit := Mapped(zones[..k], address);
    QueriesAround(zones, z, address, end);
    var below, visit := Touched(zones[..k], false, address, end), Visit(z, hit, address, end);
    var before, after := Touched(zones[k..], hit, address, end), Touched(zones[k..], hit || Contains(z, address), address, end);
    WritablesConcat(below, before);
    WritablesConcat(below, visit + after);
    WritablesConcat(visit, after);
    HitKeepsWritables(zones[k..], hit, address, end);
    var q, q' := Touched(zones, false, address, end), Touched(Insert(zones, z), false, address, end);
    PlanLength(q, 0, |q|, address, offset, count);
    PlanLength(q', 0, |q'|, address, offset, count);
  }

  /* -------- a zone that cannot be written -------- */

  /** A zone that cannot be written is skipped; only the number of touched zones shows it. */
  lemma {:induction false} ReadOnlyIsSkipped(x: seq<Zone>, z: Zone, y: seq<Zone>, index: nat, total: nat,
                                              address: int, offset: int, count: int)
    requires !z.stream.canWrite
    ensures Plan(x + ([z] + y), index, total, true, address, offset, count)
         == Plan(x + y, index, total, true, address, offset, count)
    decreases |x|
  {
    if x == [] {
      assert x + ([z] + y) == [z] + y && x + y == y && ([z] + y)[0] == z && ([z] + y)[1..] == y;
    } else {
      var rest := x[1..];
      assert (x + ([z] + y))[0] == x[0] && (x + ([z] + y))[1..] == rest + ([z] + y);
      assert (x + y)[0] == x[0] && (x + y)[1..] == rest + y;
      ReadOnlyIsSkipped(rest, z, y, if x[0].stream.canWrite then index + 1 else index, total, address, offset, count);
    }
  }

  /** Two totals that no place reaches make no difference. */
  lemma {:induction false} TotalsBeyondReach(q: seq<Zone>, index: nat, total: nat, other: nat,
                                              address: int, offset: int, count: int)
    requires index + Writables(q) < total && index + Writables(q) < other
    ensures Plan(q, index, total, true, address, offset, count) == Plan(q, index, other, true, address, offset, count)
    decreases |q|
  {
    if q != [] {
      TotalsBeyondReach(q[1..], if q[0].stream.canWrite then index + 1 else index, total, other, address, offset, count);
    }
  }

  /** The zone ends inside the request, or the length of its stream, cast to Int32, is what the planner asks
      a cut-off zone for. */
  predicate EndsWithin(z: Zone, address: int, offset: int, count: int) {
    End(z) < address + count || ToInt32(z.stream.length) == address + count - z.base - offset
  }

  lemma LaterTransferMindsTotalIff(z: Zone, index: nat, total: nat, other: nat, address: int, offset: nat, count: nat)
    requires index > 0 && address < z.base < address + count
    requires offset + count <= INT32_MAX && index + 1 < other
    ensures TransferFor(z, index, total, address, offset, count) == TransferFor(z, index, other, address, offset, count)
       <==> index + 1 != total || EndsWithin(z, address, offset, count)
  {}

  lemma ConsesEqualIff<T>(a: T, x: seq<T>, b: T, y: seq<T>)
    ensures [a] + x == [b] + y <==> a == b && x == y
  {
    if [a] + x == [b] + y {
      assert a == ([a] + x)[0] == ([b] + y)[0] == b;
      assert x == ([a] + x)[1..] == ([b] + y)[1..] == y;
    }
  }

  /** Behind the first zone, with all zones writable, a total that the last place reaches makes a difference
      exactly when the last zone is cut off by the end of the request. */
  lemma {:induction false} TotalMattersIff(q: seq<Zone>, index: nat, total: nat, other: nat, address: int, offset: nat, count: nat)
    requires Behind(q, address, count) && Writable(q) && index > 0 && offset + count <= INT32_MAX
    requires q != [] && index + |q| == total < other
    ensures Plan(q, index, total, true, address, offset, count) == Plan(q, index, other, true, address, offset, count)
       <==> EndsWithin(q[|q| - 1], address, offset, count)
    decreases |q|
  {
    var z, rest := q[0], q[1..];
    LaterTransferMindsTotalIff(z, index, total, other, address, offset, count);
    BehindTail(q, address, count);
    ConsesEqualIff(TransferFor(z, index, total, address, offset, count), Plan(rest, index + 1, total, true, address, offset, count),
                   TransferFor(z, index, other, address, offset, count), Plan(rest, index + 1, other, true, address, offset, count));
    if rest != [] {
      assert rest[|rest| - 1] == q[|q| - 1];
      TotalMattersIff(rest, index + 1, total, other, address, offset, count);
    }
  }

  /** The planner gets the last zone of the query right only because it sees that it is the last. */
  predicate ClipsLast(q: seq<Zone>, address: int, offset: nat, count: nat) {
    |q| > 1 && Writables(q) == |q| && !EndsWithin(q[|q| - 1], address, offset, count)
  }

  lemma {:induction false} AllWritable(q: seq<Zone>)
    ensures Writables(q) == |q| <==> Writable(q)
    decreases |q|
  {
    if q != [] {
      var rest := q[1..];
      AllWritable(rest);
      assert forall i | 0 <= i < |rest| :: rest[i] == q[i + 1];
      assert forall i | 0 < i < |q| :: q[i] == rest[i - 1];
    }
  }

  /** One zone more in the query, skipped, changes the plan exactly when it had clipped the last zone. */
  lemma OneMoreZoneMattersIff(q: seq<Zone>, address: int, offset: nat, count: nat)
    requires Run(q, 0, |q|, address, count) && offset + count <= INT32_MAX
    ensures Plan(q, 0, |q|, true, address, offset, count) == Plan(q, 0, |q| + 1, true, address, offset, count)
       <==> !ClipsLast(q, address, offset, count)
  {
    AllWritable(q);
    if Writables(q) < |q| {
      TotalsBeyondReach(q, 0, |q|, |q| + 1, address, offset, count);
    } else if q != [] {
      var z, rest := q[0], q[1..];
      RunIsBehind(q, address, count);
      RestIsWritable(q);
      ConsesEqualIff(TransferFor(z, 0, |q|, address, offset, count), Plan(rest, 1, |q|, true, address, offset, count),
                     TransferFor(z, 0, |q| + 1, address, offset, count), Plan(rest, 1, |q| + 1, true, address, offset, count));
      if rest != [] {
        assert rest[|rest| - 1] == q[|q| - 1];
        TotalMattersIff(rest, 1, |q|, |q| + 1, address, offset, count);
      }
    }
  }

  lemma RestIsWritable(q: seq<Zone>)
    requires Writable(q) && q != []
    ensures Writable(q[1..])
  {}

  /** Disjoint zones, before and after. */
  ghost predicate Tidy(zones: seq<Zone>, z: Zone) {
    Separated(zones) && Separated(Insert(zones, z))
  }

  /** A request that meets a new zone that cannot be written is none the wiser: it had not clipped its last
      zone, or, started in a gap, it still touches no zone that can be written. */
  predicate Unnoticed(zones: seq<Zone>, z: Zone, address: int, offset: nat, count: nat) {
    if Mapped(zones, address) then !ClipsLast(Query(zones, address, count), address, offset, count)
    else Writables(Query(Insert(zones, z), address, count)) == 0
  }

  lemma MappedBelow(zones: seq<Zone>, z: Zone, address: int)
    requires Separated(zones) && Separated(Insert(zones, z)) && Mapped(zones, address)
    ensures !Contains(z, address)
    ensures Mapped(zones[..Slot(zones, z.base)], address) <==> zones[Find(zones, address)].base < z.base
  {
    var k, i := Slot(zones, z.base), Find(zones, address);
    var r := Insert(zones, z);
    assert r[k] == z && r[if i < k then i else i + 1] == zones[i];
    var j := Find(zones[..k], address);
    if j < k { assert zones[..k][j] == zones[j]; }
    if i < k { assert zones[..k][i] == zones[i]; }
    assert i < k ==> zones[i].base < z.base;
  }

  lemma MetMappedPlan(zones: seq<Zone>, z: Zone, address: int, offset: nat, count: nat)
    requires !z.stream.canWrite && Tidy(zones, z) && offset + count <= INT32_MAX
    requires Mapped(zones, address) && Meets(zones, z, address, count)
    ensures var q := Query(zones, address, count);
      && PlanFor(Insert(zones, z), address, offset, count) == Plan(q, 0, |q| + 1, true, address, offset, count)
      && Run(q, 0, |q|, address, count)
  {
    var k := Slot(zones, z.base);
    MappedBelow(zones, z, address);
    QueriesAround(zones, z, address, address + count);
    QueryRuns(zones, address, count);
    var x, y := Touched(zones[..k], false, address, address + count), Touched(zones[k..], true, address, address + count);
    assert Visit(z, true, address, address + count) == [z];
    ReadOnlyIsSkipped(x, z, y, 0, |x + y| + 1, address, offset, count);
  }

  lemma MetGapPlanIff(zones: seq<Zone>, z: Zone, address: int, offset: int, count: int)
    requires !Mapped(zones, address)
    ensures PlanFor(zones, address, offset, count) == []
    ensures PlanFor(Insert(zones, z), address, offset, count) == []
       <==> Writables(Query(Insert(zones, z), address, count)) == 0
  {
    TouchedFromHit(zones, address, address + count);
    var q := Query(Insert(zones, z), address, count);
    PlanLength(q, 0, |q|, address, offset, count);
  }

  /** Does the new zone change the transfers of the request? */
  ghost predicate Disturbs(zones: seq<Zone>, z: Zone, address: int, offset: nat, count: nat) {
    Meets(zones, z, address, count) && !(!z.stream.canWrite && Tidy(zones, z) && Unnoticed(zones, z, address, offset, count))
  }

  /** Adding a zone leaves the transfers of a request as they are exactly when it does not disturb it: for a
      zone that can be written, when the request does not meet it; for one that cannot, on disjoint zones,
      when the request does not meet it or does not notice it. */
  lemma PlanStaysIff(zones: seq<Zone>, z: Zone, address: int, offset: nat, count: nat)
    requires z.stream.canWrite || (Tidy(zones, z) && offset + count <= INT32_MAX)
    ensures PlanFor(Insert(zones, z), address, offset, count) == PlanFor(zones, address, offset, count)
       <==> !Disturbs(zones, z, address, offset, count)
  {
    if !Meets(zones, z, address, count) {
      UnmetQueryStays(zones, z, address, count);
    } else if z.stream.canWrite {
      MetPlanGrows(zones, z, address, offset, count);
    } else if Mapped(zones, address) {
      var q := Query(zones, address, count);
      MetMappedPlan(zones, z, address, offset, count);
      OneMoreZoneMattersIff(q, address, offset, count);
    } else {
      MetGapPlanIff(zones, z, address, offset, count);
    }
  }

  /** Whatever the zones, a request that is not disturbed keeps its transfers. */
  lemma UndisturbedPlanStays(zones: seq<Zone>, z: Zone, address: int, offset: nat, count: nat)
    requires !Disturbs(zones, z, address, offset, count) && offset + count <= INT32_MAX
    ensures PlanFor(Insert(zones, z), address, offset, count) == PlanFor(zones, address, offset, count)
  {
    if Meets(zones, z, address, count) {
      PlanStaysIff(zones, z, address, offset, count);
    } else {
      UnmetQueryStays(zones, z, address, count);
    }
  }
}
