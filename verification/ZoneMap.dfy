/** The sorted table of mapped streams and the query that picks the zones a request touches. */
module ZoneMap {
  import opened Streams

  datatype Zone = Zone(base: int, stream: ByteStream)

  function End(z: Zone): int { z.base + z.stream.length }

  predicate Contains(z: Zone, address: int) { z.base <= address < End(z) }

  /** Keys ascend, as in every SortedList. */
  ghost predicate Sorted(zones: seq<Zone>) {
    forall i, j | 0 <= i < j < |zones| :: zones[i].base < zones[j].base
  }

  /** Keys ascend and no zone reaches into a later one. */
  ghost predicate Separated(zones: seq<Zone>) {
    Sorted(zones) && forall i, j | 0 <= i < j < |zones| :: End(zones[i]) <= zones[j].base
  }

  /** Index of the first zone holding `address`; the number of zones when there is none. */
  function Find(zones: seq<Zone>, address: int): (k: nat)
    ensures k <= |zones|
    ensures k < |zones| ==> Contains(zones[k], address)
    ensures forall i | 0 <= i < k :: !Contains(zones[i], address)
  {
    if zones == [] || Contains(zones[0], address) then 0 else 1 + Find(zones[1..], address)
  }

  predicate Mapped(zones: seq<Zone>, address: int) { Find(zones, address) < |zones| }

  /** How many leading zones have a key below `key`. */
  function Slot(zones: seq<Zone>, key: int): (k: nat)
    ensures k <= |zones|
    ensures forall i | 0 <= i < k :: zones[i].base < key
    ensures k < |zones| ==> key <= zones[k].base
  {
    if zones == [] || key <= zones[0].base then 0 else 1 + Slot(zones[1..], key)
  }

  predicate HasKey(zones: seq<Zone>, key: int) {
    var k := Slot(zones, key);
    k < |zones| && zones[k].base == key
  }

  function Insert(zones: seq<Zone>, z: Zone): (r: seq<Zone>)
    ensures |r| == |zones| + 1
    ensures forall i | 0 <= i < |r| ::
              r[i] == if i < Slot(zones, z.base) then zones[i] else if i == Slot(zones, z.base) then z else zones[i - 1]
  {
    var k := Slot(zones, z.base);
    zones[..k] + [z] + zones[k..]
  }

  function Delete(zones: seq<Zone>, key: int): (r: seq<Zone>)
    ensures !HasKey(zones, key) ==> r == zones
    ensures HasKey(zones, key) ==>
              && |r| == |zones| - 1
              && forall i | 0 <= i < |r| :: r[i] == if i < Slot(zones, key) then zones[i] else zones[i + 1]
  {
    var k := Slot(zones, key);
    if k < |zones| && zones[k].base == key then zones[..k] + zones[k + 1..] else zones
  }

  /** The zones that the query loop collects from here on, `hit` telling whether the
      zone holding `address` has already been passed. */
  function Touched(zones: seq<Zone>, hit: bool, address: int, end: int): seq<Zone> {
    if zones == [] then [] else Visit(zones[0], hit, address, end)
                                + Touched(zones[1..], hit || Contains(zones[0], address), address, end)
  }

  /** What one turn of the query loop appends. */
  function Visit(z: Zone, hit: bool, address: int, end: int): seq<Zone> {
    (if hit && z.base < end then [z] else []) + (if Contains(z, address) then [z] else [])
  }

  lemma FindCons(zones: seq<Zone>, address: int)
    requires zones != []
    ensures Mapped(zones, address) <==> Contains(zones[0], address) || Mapped(zones[1..], address)
  {}

  /** The loop can be cut in two; the second part only needs to know whether the first had its hit. */
  lemma {:induction false} TouchedConcat(a: seq<Zone>, b: seq<Zone>, hit: bool, address: int, end: int)
    ensures Touched(a + b, hit, address, end)
         == Touched(a, hit, address, end) + Touched(b, hit || Mapped(a, address), address, end)
    decreases |a|
  {
    if a == [] {
      assert a + b == b;
    } else {
      var rest, hit' := a[1..], hit || Contains(a[0], address);
      assert (a + b)[0] == a[0] && (a + b)[1..] == rest + b;
      FindCons(a, address);
      TouchedConcat(rest, b, hit', address, end);
      SeqAssoc(Visit(a[0], hit, address, end), Touched(rest, hit', address, end),
               Touched(b, hit || Mapped(a, address), address, end));
    }
  }

  lemma TouchedSnoc(zones: seq<Zone>, z: Zone, hit: bool, address: int, end: int)
    ensures Touched(zones + [z], hit, address, end)
         == Touched(zones, hit, address, end) + Visit(z, hit || Mapped(zones, address), address, end)
  {
    TouchedConcat(zones, [z], hit, address, end);
    assert [z][1..] == [];
  }

  lemma SeqAssoc<T>(a: seq<T>, b: seq<T>, c: seq<T>)
    ensures a + (b + c) == (a + b) + c
  {}

  /** After the hit, on disjoint zones, the loop keeps a prefix: the zones starting below `end`. */
  lemma {:induction false} TouchedAfterHit(zones: seq<Zone>, address: int, end: int)
    requires Sorted(zones) && forall i | 0 <= i < |zones| :: address < zones[i].base
    ensures Touched(zones, true, address, end) == zones[..Slot(zones, end)]
  {
    if zones != [] {
      TouchedAfterHit(zones[1..], address, end);
      if zones[0].base < end {
        assert zones[..Slot(zones, end)] == [zones[0]] + zones[1..][..Slot(zones[1..], end)];
      } else if |zones| > 1 {
        assert zones[1].base > zones[0].base;
        assert zones[1..][0] == zones[1];
      }
    }
  }

  /** Before the hit the loop collects nothing. */
  lemma {:induction false} TouchedFromHit(zones: seq<Zone>, address: int, end: int)
    ensures var k := Find(zones, address);
            Touched(zones, false, address, end)
            == if k == |zones| then []
               else [zones[k]] + Touched(zones[k + 1..], true, address, end)
  {
    if zones != [] && !Contains(zones[0], address) {
      TouchedFromHit(zones[1..], address, end);
      var k := Find(zones[1..], address);
      if k < |zones| - 1 { assert zones[1..][k + 1..] == zones[k + 2..]; }
    }
  }

  /** Where the run of zones touched by a request ends. */
  function Past(zones: seq<Zone>, address: int, end: int): (past: nat)
    requires Mapped(zones, address)
    ensures Find(zones, address) < past <= |zones|
  {
    var k := Find(zones, address);
    k + 1 + Slot(zones[k + 1..], end)
  }

  lemma TailFollows(zones: seq<Zone>, k: nat, rest: seq<Zone>, address: int)
    requires Separated(zones) && k < |zones| && rest == zones[k + 1..] && Contains(zones[k], address)
    ensures Sorted(rest)
    ensures forall i | 0 <= i < |rest| :: address < rest[i].base
  {
    forall i, j | 0 <= i < j < |rest| ensures rest[i].base < rest[j].base {
      assert zones[k + 1 + i].base < zones[k + 1 + j].base;
    }
    forall i | 0 <= i < |rest| ensures address < rest[i].base {
      assert End(zones[k]) <= zones[k + 1 + i].base;
    }
  }

  lemma RunSlice(zones: seq<Zone>, k: nat, n: nat)
    requires k < |zones| && n <= |zones| - k - 1
    ensures [zones[k]] + zones[k + 1..][..n] == zones[k..k + 1 + n]
  {}

  lemma TailTouched(zones: seq<Zone>, k: nat, rest: seq<Zone>, address: int, end: int)
    requires Separated(zones) && k < |zones| && rest == zones[k + 1..] && Contains(zones[k], address)
    ensures Touched(rest, true, address, end) == rest[..Slot(rest, end)]
  {
    TailFollows(zones, k, rest, address);
    TouchedAfterHit(rest, address, end);
  }

  /** On disjoint zones a request at a mapped address selects one contiguous run of zones: from the
      zone holding the address up to, and without, the first zone starting at or after the end. */
  lemma QueryIsRun(zones: seq<Zone>, address: int, end: int)
    requires Separated(zones) && Mapped(zones, address)
    ensures Touched(zones, false, address, end) == zones[Find(zones, address)..Past(zones, address, end)]
  {
    var k, past := Find(zones, address), Past(zones, address, end);
    var rest := zones[k + 1..];
    calc {
      Touched(zones, false, address, end);
      { TouchedFromHit(zones, address, end); }
      [zones[k]] + Touched(rest, true, address, end);
      { TailTouched(zones, k, rest, address, end); }
      [zones[k]] + rest[..past - k - 1];
      { RunSlice(zones, k, past - k - 1); }
      zones[k..past];
    }
  }

  /** The run is exactly the zones that meet the request. */
  lemma RunIsExact(zones: seq<Zone>, address: int, end: int)
    requires Separated(zones) && Mapped(zones, address)
    ensures forall i | 0 <= i < |zones| ::
              (Find(zones, address) <= i < Past(zones, address, end)
               <==> Contains(zones[i], address) || address < zones[i].base < end)
  {
    var k := Find(zones, address);
    var past, rest := Past(zones, address, end), zones[k + 1..];
    forall i | 0 <= i < |zones|
      ensures k <= i < past <==> Contains(zones[i], address) || address < zones[i].base < end
    {
      if i < k {
        assert End(zones[i]) <= zones[k].base;
      } else if k < i {
        assert End(zones[k]) <= zones[i].base;
        assert zones[i] == rest[i - k - 1];
        if past <= i && past < |zones| {
          assert zones[past] == rest[past - k - 1];
          assert past == i || zones[past].base < zones[i].base;
        }
      }
    }
  }

  lemma InSlice(zones: seq<Zone>, from: nat, to: nat, z: Zone)
    requires from <= to <= |zones|
    ensures z in zones[from..to] <==> exists i | from <= i < to :: zones[i] == z
  {
    if i :| from <= i < to && zones[i] == z { assert zones[from..to][i - from] == z; }
  }

  lemma SliceSorted(zones: seq<Zone>, from: nat, to: nat)
    requires Sorted(zones) && from <= to <= |zones|
    ensures Sorted(zones[from..to])
  {}

  /** The query returns exactly the zones meeting the request, ascending and so without repeats. */
  lemma QueryZoneTouchesExact(zones: seq<Zone>, address: int, count: int, z: Zone)
    requires Separated(zones)
    ensures Sorted(Touched(zones, false, address, address + count))
    ensures z in Touched(zones, false, address, address + count)
       <==> && Mapped(zones, address)
            && exists i | 0 <= i < |zones| ::
                 zones[i] == z && (Contains(z, address) || address < z.base < address + count)
  {
    if Mapped(zones, address) {
      QueryIsRun(zones, address, address + count);
      RunIsExact(zones, address, address + count);
      InSlice(zones, Find(zones, address), Past(zones, address, address + count), z);
      SliceSorted(zones, Find(zones, address), Past(zones, address, address + count));
    } else {
      TouchedFromHit(zones, address, address + count);
    }
  }

  /** Adding keeps a disjoint map disjoint exactly when, besides starting in a gap, which is all that
      `UnifiedStream.Add` checks, the new zone ends at or before the next key. */
  lemma AddKeepsSeparatedIff(zones: seq<Zone>, z: Zone)
    requires Separated(zones)
    requires !Mapped(zones, z.base) && !HasKey(zones, z.base)
    ensures Separated(Insert(zones, z))
       <==> (Slot(zones, z.base) < |zones| ==> End(z) <= zones[Slot(zones, z.base)].base)
  {
    var k := Slot(zones, z.base);
    var r := Insert(zones, z);
    InsertKeepsSorted(zones, z);
    if k < |zones| {
      if End(z) <= zones[k].base {
        InsertSeparated(zones, z);
      } else {
        assert r[k] == z && r[k + 1] == zones[k];
      }
    } else {
      InsertSeparated(zones, z);
    }
  }

  lemma InsertSeparated(zones: seq<Zone>, z: Zone)
    requires Separated(zones) && Sorted(Insert(zones, z)) && !Mapped(zones, z.base)
    requires Slot(zones, z.base) < |zones| ==> End(z) <= zones[Slot(zones, z.base)].base
    ensures Separated(Insert(zones, z))
  {
    var r := Insert(zones, z);
    forall i, j | 0 <= i < j < |r| ensures End(r[i]) <= r[j].base {
      InsertedPair(zones, z, Slot(zones, z.base), i, j, r[i], r[j]);
    }
  }

  lemma InsertedPair(zones: seq<Zone>, z: Zone, k: nat, i: nat, j: nat, a: Zone, b: Zone)
    requires Separated(zones) && !Mapped(zones, z.base) && k == Slot(zones, z.base)
    requires k < |zones| ==> End(z) <= zones[k].base
    requires i < j <= |zones|
    requires a == if i < k then zones[i] else if i == k then z else zones[i - 1]
    requires b == if j < k then zones[j] else if j == k then z else zones[j - 1]
    ensures End(a) <= b.base
  {
    if j == k {
      assert !Contains(zones[i], z.base);
    } else if i == k {
      assert k == j - 1 || zones[k].base < zones[j - 1].base;
    } else {
      assert End(zones[if i < k then i else i - 1]) <= zones[if j < k then j else j - 1].base;
    }
  }

  lemma InsertKeepsSorted(zones: seq<Zone>, z: Zone)
    requires Sorted(zones) && !HasKey(zones, z.base)
    ensures Sorted(Insert(zones, z))
  {
    var k := Slot(zones, z.base);
    var r := Insert(zones, z);
    forall i, j | 0 <= i < j < |r| ensures r[i].base < r[j].base {
      if i == k {
        assert k == j - 1 || zones[k].base < zones[j - 1].base;
      } else if j != k {
        assert zones[if i < k then i else i - 1].base < zones[if j < k then j else j - 1].base;
      }
    }
  }

  lemma DeleteKeepsOrder(zones: seq<Zone>, key: int)
    requires Sorted(zones)
    ensures Sorted(Delete(zones, key))
    ensures Separated(zones) ==> Separated(Delete(zones, key))
  {
    if HasKey(zones, key) {
      var k, r := Slot(zones, key), Delete(zones, key);
      forall i, j | 0 <= i < j < |r| ensures r[i].base < r[j].base {
        assert zones[if i < k then i else i + 1].base < zones[if j < k then j else j + 1].base;
      }
      if Separated(zones) {
        forall i, j | 0 <= i < j < |r| ensures End(r[i]) <= r[j].base {
          assert End(zones[if i < k then i else i + 1]) <= zones[if j < k then j else j + 1].base;
        }
      }
    }
  }

  /** `_StreamLUT`. */
  class StreamLut {
    var zones: seq<Zone>

    constructor ()
      ensures zones == []
    {
      zones := [];
    }

    method QueryZoneTouches(offset: int, length: int) returns (list: seq<Zone>)
      ensures list == Touched(zones, false, offset, offset + length)
    {
      list := [];
      var hit := false;
      for i := 0 to |zones|
        invariant hit == Mapped(zones[..i], offset)
        invariant list == Touched(zones[..i], false, offset, offset + length)
      {
        var zone := zones[i];
        assert zones[..i + 1] == zones[..i] + [zone];
        TouchedSnoc(zones[..i], zone, false, offset, offset + length);
        if hit && zone.base < offset + length {
          list := list + [zone];
        }
        if offset >= zone.base && offset < End(zone) {
          list := list + [zone];
          hit := true;
        }
      }
      assert zones[..|zones|] == zones;
    }

    /** `added` is false where the C# method throws because the key exists. */
    method Add(key: int, value: ByteStream) returns (added: bool)
      requires Sorted(zones)
      modifies this
      ensures Sorted(zones)
      ensures added == !HasKey(old(zones), key)
      ensures zones == if added then Insert(old(zones), Zone(key, value)) else old(zones)
    {
      added := !HasKey(zones, key);
      if added {
        InsertKeepsSorted(zones, Zone(key, value));
        zones := Insert(zones, Zone(key, value));
      }
    }

    method Remove(key: int) returns (removed: bool)
      requires Sorted(zones)
      modifies this
      ensures Sorted(zones)
      ensures removed == HasKey(old(zones), key)
      ensures zones == Delete(old(zones), key)
    {
      DeleteKeepsOrder(zones, key);
      removed := HasKey(zones, key);
      zones := Delete(zones, key);
    }

    method Clear()
      modifies this
      ensures zones == []
    {
      zones := [];
    }
  }
}
