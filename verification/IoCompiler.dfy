/** The cache of compiled operations: the transfers of a request are recorded once, against a table of
    stream references, and replayed whenever a request with the same key comes back. */
module IoCompiler {
  import opened Common
  import opened Bits
  import opened Streams
  import opened IoEngine

  /** One recorded transfer; `index` points into the table of stream references. */
  datatype Record = Record(index: nat, position: int, offset: int, count: int)

  datatype Cache = Cache(compiled: map<int, seq<Record>>, refs: seq<ByteStream>, count: nat)

  const EMPTY_CACHE := Cache(map[], [], 0)

  /* -------- keys -------- */

  function GenerateHash(address: int, offset: int, count: int): int {
    var abase := address / 0x1_0000;
    var aoffset := ToInt64(address * 0x1_0000);
    Xor(Xor(abase, aoffset), ToInt32(count + offset))
  }

  lemma XorBelow(a: nat, k: nat, low: nat)
    requires low < Pow2(k)
    ensures Xor(low, a * Pow2(k)) == a * Pow2(k) + low
  {
    XorCommutes(low, a * Pow2(k));
    XorDisjoint(a, k, low);
  }

  lemma XorLowPart(a: nat, k: nat, low: nat, s: nat)
    requires low < Pow2(k) && s < Pow2(k)
    ensures Xor(a * Pow2(k) + low, s) == a * Pow2(k) + Xor(low, s) && 0 <= Xor(low, s) < Pow2(k)
  {
    XorSplit(a, 0, k, low, s);
    XorZero(a);
  }

  lemma HashLayout(address: nat, sum: nat)
    requires address < 0x1_0000_0000 && sum < 0x1_0000
    ensures GenerateHash(address, 0, sum) == address * 0x1_0000 + Xor(address / 0x1_0000, sum)
    ensures 0 <= Xor(address / 0x1_0000, sum) < 0x1_0000
  {
    Pow2Values();
    XorBelow(address, 16, address / 0x1_0000);
    XorLowPart(address, 16, address / 0x1_0000, sum);
  }

  /** Below 2^32 addresses and 2^16 bytes two requests share a key exactly when they share the address
      and the sum of count and buffer offset; with offset 0 keys never collide. */
  lemma KeysCollideIff(a: nat, o: nat, c: nat, a': nat, o': nat, c': nat)
    requires a < 0x1_0000_0000 && a' < 0x1_0000_0000 && c + o < 0x1_0000 && c' + o' < 0x1_0000
    ensures GenerateHash(a, o, c) == GenerateHash(a', o', c') <==> a == a' && c + o == c' + o'
  {
    HashLayout(a, c + o);
    HashLayout(a', c' + o');
    if GenerateHash(a, o, c) == GenerateHash(a', o', c') {
      QuotientUnique(0x1_0000, a, Xor(a / 0x1_0000, c + o), a', Xor(a' / 0x1_0000, c' + o'));
      XorCancels(a / 0x1_0000, c + o, c' + o');
    }
  }

  /* -------- stream references -------- */

  ghost predicate NoRepeats(refs: seq<ByteStream>) {
    forall i, j | 0 <= i < j < |refs| :: refs[i] != refs[j]
  }

  function IndexOf(refs: seq<ByteStream>, s: ByteStream): (k: nat)
    ensures k <= |refs|
    ensures k < |refs| ==> refs[k] == s
    ensures forall i | 0 <= i < k :: refs[i] != s
  {
    if refs == [] || refs[0] == s then 0 else 1 + IndexOf(refs[1..], s)
  }

  /** The search over all references but the last, with index 0 when it finds nothing. */
  function Lookup(refs: seq<ByteStream>, s: ByteStream): (k: nat)
    requires refs != []
    ensures k < |refs|
  {
    var k := IndexOf(refs[..|refs| - 1], s);
    if k < |refs| - 1 then k else 0
  }

  function Registered(refs: seq<ByteStream>, s: ByteStream): seq<ByteStream> {
    if s in refs then refs else refs + [s]
  }

  function ResolveIndex(refs: seq<ByteStream>, s: ByteStream): (k: nat)
    ensures k < |Registered(refs, s)|
  {
    if s in refs then Lookup(refs, s) else |refs|
  }

  /** The lookup does find the stream: it is new, or alone, or not the last one registered. */
  predicate LookupHits(refs: seq<ByteStream>, s: ByteStream) {
    s in refs ==> |refs| == 1 || refs[|refs| - 1] != s
  }

  lemma ResolvesToTheStreamIff(refs: seq<ByteStream>, s: ByteStream)
    requires NoRepeats(refs)
    ensures Registered(refs, s)[ResolveIndex(refs, s)] == s <==> LookupHits(refs, s)
  {
    if s in refs {
      var n := |refs| - 1;
      if refs[n] == s {
        assert IndexOf(refs[..n], s) == n;
        if n > 0 { assert refs[0] != refs[n]; }
      } else {
        var i :| 0 <= i < |refs| && refs[i] == s;
        assert refs[..n][i] == s;
      }
    }
  }

  lemma RegisteredKeepsNoRepeats(refs: seq<ByteStream>, s: ByteStream)
    requires NoRepeats(refs)
    ensures NoRepeats(Registered(refs, s))
  {}

  /* -------- emitting and replaying -------- */

  function EmitRefs(refs: seq<ByteStream>, ts: seq<Transfer>): (r: seq<ByteStream>)
    ensures refs <= r
    decreases |ts|
  {
    if ts == [] then refs else EmitRefs(Registered(refs, ts[0].stream), ts[1..])
  }

  function EmitRecords(refs: seq<ByteStream>, ts: seq<Transfer>): (r: seq<Record>)
    ensures |r| == |ts|
    ensures forall i | 0 <= i < |r| :: r[i].index < |EmitRefs(refs, ts)|
    decreases |ts|
  {
    if ts == [] then []
    else
      var t, refs' := ts[0], Registered(refs, ts[0].stream);
      assert |refs'| <= |EmitRefs(refs', ts[1..])|;
      [Record(ResolveIndex(refs, t.stream), t.position, t.offset, t.count)] + EmitRecords(refs', ts[1..])
  }

  predicate InTable(recs: seq<Record>, refs: seq<ByteStream>) {
    forall i | 0 <= i < |recs| :: recs[i].index < |refs|
  }

  function LinkOne(r: Record, refs: seq<ByteStream>): Transfer
    requires r.index < |refs|
  {
    Transfer(refs[r.index], r.position, r.offset, r.count)
  }

  /** The transfers that replaying `recs` performs. */
  function Link(recs: seq<Record>, refs: seq<ByteStream>): (ts: seq<Transfer>)
    requires InTable(recs, refs)
    ensures |ts| == |recs|
    ensures forall i | 0 <= i < |ts| :: ts[i] == LinkOne(recs[i], refs)
  {
    seq(|recs|, i requires 0 <= i < |recs| => LinkOne(recs[i], refs))
  }

  /** Every lookup made while emitting `ts` finds its stream. */
  predicate LookupsHit(refs: seq<ByteStream>, ts: seq<Transfer>)
    decreases |ts|
  {
    ts == [] || (LookupHits(refs, ts[0].stream) && LookupsHit(Registered(refs, ts[0].stream), ts[1..]))
  }

  lemma {:induction false} EmitKeepsNoRepeats(refs: seq<ByteStream>, ts: seq<Transfer>)
    requires NoRepeats(refs)
    ensures NoRepeats(EmitRefs(refs, ts))
    decreases |ts|
  {
    if ts != [] {
      RegisteredKeepsNoRepeats(refs, ts[0].stream);
      EmitKeepsNoRepeats(Registered(refs, ts[0].stream), ts[1..]);
    }
  }

  lemma LinkCons(r: Record, recs: seq<Record>, refs: seq<ByteStream>)
    requires r.index < |refs| && InTable(recs, refs)
    ensures InTable([r] + recs, refs) && Link([r] + recs, refs) == [LinkOne(r, refs)] + Link(recs, refs)
  {}

  lemma ConsEqualIff(t: Transfer, ts: seq<Transfer>, u: Transfer, us: seq<Transfer>)
    ensures [t] + ts == [u] + us <==> t == u && ts == us
  {
    if [t] + ts == [u] + us {
      assert t == ([t] + ts)[0] == ([u] + us)[0] == u;
      assert ts == ([t] + ts)[1..] == ([u] + us)[1..] == us;
    }
  }

  /** Replaying what was emitted repeats the transfers exactly when every lookup hits. */
  lemma {:induction false} ReplayIsFaithfulIff(refs: seq<ByteStream>, ts: seq<Transfer>)
    requires NoRepeats(refs)
    ensures Link(EmitRecords(refs, ts), EmitRefs(refs, ts)) == ts <==> LookupsHit(refs, ts)
    decreases |ts|
  {
    if ts != [] {
      var t, rest, refs' := ts[0], ts[1..], Registered(refs, ts[0].stream);
      RegisteredKeepsNoRepeats(refs, t.stream);
      ReplayIsFaithfulIff(refs', rest);
      var all, recs := EmitRefs(refs', rest), EmitRecords(refs', rest);
      var r := Record(ResolveIndex(refs, t.stream), t.position, t.offset, t.count);
      LinkCons(r, recs, all);
      FirstIsFaithfulIff(refs, t, all, r);
      ConsEqualIff(LinkOne(r, all), Link(recs, all), t, rest);
      assert ts == [t] + rest;
    }
  }

  lemma FirstIsFaithfulIff(refs: seq<ByteStream>, t: Transfer, all: seq<ByteStream>, r: Record)
    requires NoRepeats(refs) && Registered(refs, t.stream) <= all
    requires r == Record(ResolveIndex(refs, t.stream), t.position, t.offset, t.count)
    ensures r.index < |all| && (LinkOne(r, all) == t <==> LookupHits(refs, t.stream))
  {
    assert Registered(refs, t.stream)[r.index] == all[r.index];
    ResolvesToTheStreamIff(refs, t.stream);
  }

  lemma LinkSurvivesGrowth(recs: seq<Record>, refs: seq<ByteStream>, more: seq<ByteStream>)
    requires InTable(recs, refs) && refs <= more
    ensures InTable(recs, more) && Link(recs, more) == Link(recs, refs)
  {}
}
