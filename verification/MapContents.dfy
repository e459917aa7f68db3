/** What the calls that change the map do to the bytes a caller sees, and how much the cache can hold. */
module MapContents {
  import opened Common
  import opened Streams
  import opened ZoneMap
  import opened IoEngine
  import opened IoCompiler
  import opened MemoryMap
  import opened CacheCoherence

  /** No zone has the key or holds it. */
  ghost predicate FreeKey(zones: seq<Zone>, key: int) {
    forall i | 0 <= i < |zones| ::
      zones[i].base != key && !(zones[i].base <= key < zones[i].base + zones[i].stream.length)
  }

  lemma AcceptsFreeKeysIff(zones: seq<Zone>, key: int)
    requires Sorted(zones)
    ensures AddAccepts(zones, key) <==> FreeKey(zones, key)
  {
    var k := Slot(zones, key);
    assert forall i | k < i < |zones| :: zones[k].base < zones[i].base;
  }

  /** The zone at place `k` holds the address and none below it does. */
  lemma FirstIsFound(zones: seq<Zone>, k: nat, x: int)
    requires k < |zones| && Contains(zones[k], x) && forall i | 0 <= i < k :: !Contains(zones[i], x)
    ensures Find(zones, x) == k
  {}

  lemma SameZoneShows(a: seq<Zone>, b: seq<Zone>, memory: map<ByteStream, seq<byte>>, x: int, i: nat, j: nat)
    requires Holds(memory, a) && Holds(memory, b) && i == Find(a, x) && j == Find(b, x)
    requires if i < |a| && j < |b| then a[i] == b[j] else i == |a| && j == |b|
    ensures FlatAt(a, memory, x) == FlatAt(b, memory, x)
  {}

  lemma InsertedIsFound(zones: seq<Zone>, z: Zone, x: int)
    requires Sorted(zones) && FreeKey(zones, z.base) && Contains(z, x)
    ensures Find(Insert(zones, z), x) == Slot(zones, z.base)
  {
    var k, r := Slot(zones, z.base), Insert(zones, z);
    forall i | 0 <= i < k ensures !Contains(r[i], x) { assert r[i] == zones[i]; }
    FirstIsFound(r, k, x);
  }

  lemma AddedStreamShows(zones: seq<Zone>, z: Zone, memory: map<ByteStream, seq<byte>>)
    requires Sorted(zones) && FreeKey(zones, z.base) && Holds(memory, Insert(zones, z))
    ensures z.stream in memory && |memory[z.stream]| == z.stream.length
    ensures forall x | z.base <= x < End(z) :: FlatAt(Insert(zones, z), memory, x) == Some(memory[z.stream][x - z.base])
  {
    assert Insert(zones, z)[Slot(zones, z.base)] == z;
    forall x | z.base <= x < End(z)
      ensures FlatAt(Insert(zones, z), memory, x) == Some(memory[z.stream][x - z.base])
    {
      InsertedIsFound(zones, z, x);
    }
  }

  lemma InsertedElsewhere(zones: seq<Zone>, z: Zone, memory: map<ByteStream, seq<byte>>, x: int)
    requires Holds(memory, zones) && Holds(memory, Insert(zones, z)) && !Contains(z, x)
    ensures FlatAt(Insert(zones, z), memory, x) == FlatAt(zones, memory, x)
  {
    var k, i, r := Slot(zones, z.base), Find(zones, x), Insert(zones, z);
    var j := if i == |zones| then |r| else if i < k then i else i + 1;
    forall n | 0 <= n < j ensures !Contains(r[n], x) {
      if n != k { assert r[n] == zones[if n < k then n else n - 1]; }
    }
    if j < |r| { FirstIsFound(r, j, x); }
    SameZoneShows(r, zones, memory, x, j, i);
  }

  /** `Add` succeeds exactly on a key that no zone has or holds. Then every byte of the stream shows from
      the key on and every other address is as before; otherwise nothing has changed. */
  lemma MapShowsTheStream(s: State, key: int, stream: ByteStream)
    requires Valid(s) && stream in s.memory
    ensures var r := Step(s, Map(key, stream));
      && (r.response.ok <==> FreeKey(s.zones, key))
      && (!r.response.ok ==> r.state == s)
      && (r.response.ok ==>
            && Holds(r.state.memory, r.state.zones)
            && (forall x | key <= x < key + stream.length ::
                  FlatAt(r.state.zones, r.state.memory, x) == Some(s.memory[stream][x - key]))
            && (forall x | !(key <= x < key + stream.length) ::
                  FlatAt(r.state.zones, r.state.memory, x) == FlatAt(s.zones, s.memory, x)))
  {
    AcceptsFreeKeysIff(s.zones, key);
    if FreeKey(s.zones, key) {
      var z := Zone(key, stream);
      MapIsValid(s, key, stream);
      forall x ensures FlatAt(Insert(s.zones, z), s.memory, x)
                    == if Contains(z, x) then Some(s.memory[stream][x - key]) else FlatAt(s.zones, s.memory, x)
      {
        if Contains(z, x) {
          InsertedIsFound(s.zones, z, x);
        } else {
          InsertedElsewhere(s.zones, z, s.memory, x);
        }
      }
    }
  }

  /** `Remove` reports whether the key was there. On disjoint zones its bytes are gone then, and every other
      address is as before; and nothing stays compiled. */
  lemma UnmapHidesTheStream(s: State, key: int)
    requires Valid(s) && Separated(s.zones)
    ensures var r := Step(s, Unmap(key));
      && (r.response.ok <==> exists i :: 0 <= i < |s.zones| && s.zones[i].base == key)
      && r.state.cache.compiled == map[] && r.state.position == s.position
      && Holds(r.state.memory, r.state.zones)
      && forall x ::
           FlatAt(r.state.zones, r.state.memory, x)
           == if (exists i :: 0 <= i < |s.zones| && s.zones[i].base == key && Contains(s.zones[i], x)) then None
              else FlatAt(s.zones, s.memory, x)
  {
    UnmapIsValid(s, key);
    KeyIsAtItsSlot(s.zones, key);
    var k := Slot(s.zones, key);
    forall x ensures FlatAt(Delete(s.zones, key), s.memory, x)
                  == if HasKey(s.zones, key) && Contains(s.zones[k], x) then None else FlatAt(s.zones, s.memory, x)
    {
      if HasKey(s.zones, key) { DeletedShows(s.zones, key, s.memory, x); }
    }
  }

  lemma KeyIsAtItsSlot(zones: seq<Zone>, key: int)
    requires Sorted(zones)
    ensures forall i | 0 <= i < |zones| && zones[i].base == key :: HasKey(zones, key) && i == Slot(zones, key)
  {
    var k := Slot(zones, key);
    assert forall i | k < i < |zones| :: zones[k].base < zones[i].base;
  }

  lemma OnlyOneHolds(zones: seq<Zone>, i: nat, x: int)
    requires Separated(zones) && i < |zones| && Contains(zones[i], x)
    ensures forall n | 0 <= n < |zones| && n != i :: !Contains(zones[n], x)
  {
    forall n | 0 <= n < |zones| && n != i ensures !Contains(zones[n], x) {
      if n < i { assert End(zones[n]) <= zones[i].base; } else { assert End(zones[i]) <= zones[n].base; }
    }
  }

  /** What a list with place `k` left out finds. */
  lemma LeftOutIsFound(zones: seq<Zone>, r: seq<Zone>, k: nat, i: nat, x: int)
    requires k < |zones| && i == Find(zones, x) && |r| == |zones| - 1
    requires forall n | 0 <= n < |r| :: r[n] == zones[if n < k then n else n + 1]
    requires forall n | 0 <= n < |zones| && n != i :: !Contains(zones[n], x)
    ensures Find(r, x) == if i == k || i == |zones| then |r| else if i < k then i else i - 1
  {
    var j := if i == k || i == |zones| then |r| else if i < k then i else i - 1;
    forall n | 0 <= n < j ensures !Contains(r[n], x) {
      var m := if n < k then n else n + 1;
      assert r[n] == zones[m] && m != i;
    }
    if j < |r| { FirstIsFound(r, j, x); }
  }

  lemma DeletedIsFound(zones: seq<Zone>, key: int, x: int, k: nat, i: nat)
    requires Separated(zones) && HasKey(zones, key) && k == Slot(zones, key) && i == Find(zones, x)
    ensures Find(Delete(zones, key), x)
         == if i == k || i == |zones| then |zones| - 1 else if i < k then i else i - 1
    ensures i == k <==> Contains(zones[k], x)
  {
    if i < |zones| { OnlyOneHolds(zones, i, x); }
    LeftOutIsFound(zones, Delete(zones, key), k, i, x);
  }

  lemma DeletedPlace(zones: seq<Zone>, key: int, i: nat, k: nat)
    requires HasKey(zones, key) && k == Slot(zones, key) && i < |zones| && i != k
    ensures Delete(zones, key)[if i < k then i else i - 1] == zones[i]
  {}

  lemma DeletedShows(zones: seq<Zone>, key: int, memory: map<ByteStream, seq<byte>>, x: int)
    requires Separated(zones) && HasKey(zones, key) && Holds(memory, zones) && Holds(memory, Delete(zones, key))
    ensures FlatAt(Delete(zones, key), memory, x)
         == if Contains(zones[Slot(zones, key)], x) then None else FlatAt(zones, memory, x)
  {
    var k, i, r := Slot(zones, key), Find(zones, x), Delete(zones, key);
    DeletedIsFound(zones, key, x, k, i);
    if i != k {
      if i < |zones| { DeletedPlace(zones, key, i, k); }
      SameZoneShows(zones, r, memory, x, i, Find(r, x));
    }
  }

  /** `Clear` unmaps every address, rewinds and empties the cache. */
  lemma ResetUnmapsAll(s: State, x: int)
    requires Valid(s)
    ensures var t := Step(s, Reset).state;
      && FlatAt(t.zones, t.memory, x) == None && t.position == 0
      && t.cache.compiled == map[] && t.cache.refs == [] && t.cache.count == 0
      && t.memory == s.memory && t.useCompiler == s.useCompiler
  {}

  /* -------- how much the cache can hold -------- */

  /** A compiled request forgets the operations of others exactly when more than 450 have been counted. */
  lemma OthersAreForgottenIff(s: State, offset: int, count: int, key: int)
    requires Valid(s) && key in s.cache.compiled && key != KeyOf(s, offset, count)
    ensures key !in NextCache(s, offset, count).compiled <==> s.cache.count > 450
  {}

  /** The cache holds no more operations than it has counted, and has not counted far beyond its limit. */
  ghost predicate Bounded(c: Cache) { |c.compiled| <= c.count <= 451 }

  lemma OneKeyMore<T>(m: map<int, T>, key: int, value: T)
    ensures |m[key := value]| <= |m| + 1
  {
    assert m[key := value].Keys == m.Keys + {key};
    assert |m[key := value]| == |m[key := value].Keys| && |m| == |m.Keys|;
  }

  lemma StepKeepsBounded(s: State, r: Request)
    requires Valid(s) && (r.Map? ==> r.stream in s.memory) && Bounded(s.cache)
    ensures Bounded(Step(s, r).state.cache)
  {
    if r.Io? {
      var key, ts := KeyOf(s, r.offset, r.count), Planned(s, r.offset, r.count);
      OneKeyMore(Evicted(s.cache).compiled, key, EmitRecords(Evicted(s.cache).refs, ts));
    }
  }

  /** Over every run the cache holds at most 451 compiled operations. */
  lemma {:induction false} RunKeepsBounded(s: State, rs: seq<Request>)
    requires Valid(s) && Streamed(s, rs) && Bounded(s.cache)
    ensures Bounded(CacheCoherence.Run(s, rs).0.cache)
    decreases |rs|
  {
    if rs != [] {
      StepIsValid(s, rs[0]);
      StepKeepsStreams(s, rs[0]);
      StepKeepsBounded(s, rs[0]);
      RunKeepsBounded(Step(s, rs[0]).state, rs[1..]);
    }
  }
}
