/**
  * The unaligned store pair SWL/SWR and load pair LDL/LDR. Memory is kept in the host's order: an
  * aligned word or doubleword lies there lowest byte first, so the guest sees it reversed.
  */
module Unaligned {

  import opened Common
  import opened Streams
  import opened Bits
  import opened Bytes
  import opened ByteSwap

  const SWL_MASK: seq<nat> := [0x00000000, 0xFF000000, 0xFFFF0000, 0xFFFFFF00]
  const SWL_SHIFT: seq<nat> := [0, 8, 16, 24]
  const SWR_MASK: seq<nat> := [0x00FFFFFF, 0x0000FFFF, 0x000000FF, 0x00000000]
  const SWR_SHIFT: seq<nat> := [24, 16, 8, 0]

  const LDL_MASK: seq<nat> :=
    [0, 0xFF, 0xFFFF, 0xFFFFFF, 0xFFFFFFFF, 0xFF_FFFFFFFF, 0xFFFF_FFFFFFFF, 0xFFFFFF_FFFFFFFF]
  const LDL_SHIFT: seq<nat> := [0, 8, 16, 24, 32, 40, 48, 56]
  const LDR_MASK: seq<nat> :=
    [0xFFFFFFFF_FFFFFF00, 0xFFFFFFFF_FFFF0000, 0xFFFFFFFF_FF000000, 0xFFFFFFFF_00000000,
     0xFFFFFF00_00000000, 0xFFFF0000_00000000, 0xFF000000_00000000, 0]
  const LDR_SHIFT: seq<nat> := [56, 48, 40, 32, 24, 16, 8, 0]

  /* -------- the arithmetic of the four instructions -------- */

  /** The word that SWL writes: `w` from memory, `r` from the register, `o` the place in the word. */
  function SwlWord(w: nat, r: nat, o: nat): nat
    requires o < 4
  {
    Add(4, And(w, SWL_MASK[o]), Right(r, SWL_SHIFT[o]))
  }

  function SwrWord(w: nat, r: nat, o: nat): nat
    requires o < 4
  {
    Add(4, And(w, SWR_MASK[o]), Left(4, r, SWR_SHIFT[o]))
  }

  /** The register that LDL leaves: `r` before, `v` the doubleword from memory. */
  function LdlValue(r: nat, v: nat, o: nat): nat
    requires o < 8
  {
    Add(8, And(r, LDL_MASK[o]), Left(8, v, LDL_SHIFT[o]))
  }

  function LdrValue(r: nat, v: nat, o: nat): nat
    requires o < 8
  {
    Add(8, And(r, LDR_MASK[o]), Right(v, LDR_SHIFT[o]))
  }

  /* -------- in bytes -------- */

  lemma SmallTops()
    ensures Top(0) == 1 && Top(1) == 0x100 && Top(2) == 0x1_0000 && Top(3) == 0x100_0000 && Top(4) == 0x1_0000_0000
  {
    TopStep(0);
    TopStep(1);
    TopStep(2);
    TopStep(3);
  }

  lemma LargeTops()
    ensures Top(5) == 0x100_0000_0000 && Top(6) == 0x1_0000_0000_0000
    ensures Top(7) == 0x100_0000_0000_0000 && Top(8) == 0x1_0000_0000_0000_0000
  {
    assert Top(4) == 0x1_0000_0000 by { SmallTops(); }
    TopStep(4);
    TopStep(5);
    TopStep(6);
    TopStep(7);
  }

  lemma Tops()
    ensures Top(0) == 1 && Top(1) == 0x100 && Top(2) == 0x1_0000 && Top(3) == 0x100_0000 && Top(4) == 0x1_0000_0000
    ensures Top(5) == 0x100_0000_0000 && Top(6) == 0x1_0000_0000_0000
    ensures Top(7) == 0x100_0000_0000_0000 && Top(8) == 0x1_0000_0000_0000_0000
  {
    SmallTops();
    LargeTops();
  }

  lemma StoreTables(o: nat)
    requires o < 4
    ensures SWL_MASK[o] == HighMask(o, 4 - o) && SWL_SHIFT[o] == 8 * o
    ensures SWR_MASK[o] == Top(3 - o) - 1 && SWR_SHIFT[o] == 8 * (3 - o)
  {
    Tops();
  }

  lemma LdlTable(o: nat)
    requires o < 8
    ensures LDL_MASK[o] == Top(o) - 1 && LDL_SHIFT[o] == 8 * o
  {
    Tops();
  }

  lemma LdrTable(o: nat)
    requires o < 8
    ensures LDR_MASK[o] == HighMask(7 - o, o + 1) && LDR_SHIFT[o] == 8 * (7 - o)
  {
    Tops();
  }

  /** SWL puts the high bytes of the register from the addressed byte to the end of the word. */
  lemma SwlWordBytes(w: seq<byte>, r: seq<byte>, o: nat)
    requires |w| == |r| == 4 && o < 4
    ensures SwlWord(BigEndian(w), BigEndian(r), o) == BigEndian(w[..o] + r[..4 - o])
  {
    StoreTables(o);
    MergeBelow(w, r, o, 4 - o);
  }

  /** SWR puts the low bytes of the register from the start of the word to the addressed byte. */
  lemma SwrWordBytes(w: seq<byte>, r: seq<byte>, o: nat)
    requires |w| == |r| == 4 && o < 4
    ensures SwrWord(BigEndian(w), BigEndian(r), o) == BigEndian(r[3 - o..] + w[o + 1..])
  {
    StoreTables(o);
    MergeAbove(w, r, o + 1, 3 - o);
  }

  /** LDL loads from the addressed byte to the end of the doubleword and keeps the rest. */
  lemma LdlValueBytes(r: seq<byte>, v: seq<byte>, o: nat)
    requires |r| == |v| == 8 && o < 8
    ensures LdlValue(BigEndian(r), BigEndian(v), o) == BigEndian(v[o..] + r[8 - o..])
  {
    LdlTable(o);
    MergeAbove(r, v, 8 - o, o);
  }

  lemma LdrUnfolds(r: nat, v: nat, o: nat)
    requires o < 8
    ensures LdrValue(r, v, o) == Add(8, And(r, HighMask(7 - o, o + 1)), Right(v, 8 * (7 - o)))
  {
    LdrTable(o);
  }

  /** LDR loads from the start of the doubleword to the addressed byte and keeps the rest. */
  lemma LdrValueBytes(r: seq<byte>, v: seq<byte>, o: nat)
    requires |r| == |v| == 8 && o < 8
    ensures LdrValue(BigEndian(r), BigEndian(v), o) == BigEndian(r[..7 - o] + v[..o + 1])
  {
    LdrUnfolds(BigEndian(r), BigEndian(v), o);
    MergeBelow(r, v, 7 - o, o + 1);
  }

  /* -------- memory as the host keeps it and as the guest sees it -------- */

  /** An aligned group of `n` bytes at `q`, read as a host number. */
  function LoadGroup(n: nat, raw: seq<byte>, q: nat): nat
    requires q + n <= |raw|
  {
    BigEndian(Reversed(raw[q..q + n]))
  }

  function StoreGroup(n: nat, raw: seq<byte>, q: nat, v: nat): (r: seq<byte>)
    requires q + n <= |raw|
    ensures |r| == |raw|
  {
    Overlay(raw, q, Reversed(ToBytes(n, v)))
  }

  lemma LoadShowsGuest(n: nat, raw: seq<byte>, q: nat)
    requires n > 0 && |raw| % n == 0 && q % n == 0 && n % n == 0 && q + n <= |raw|
    ensures LoadGroup(n, raw, q) == BigEndian(Swapped(n, raw)[q..q + n])
  {
    SliceOfSwapped(n, raw, q, n);
    FirstGroup(n, raw[q..q + n]);
  }

  /** Whether a position lies in the group at `q`, and where it mirrors to. */
  lemma MirrorAround(n: nat, q: nat, i: nat)
    requires n > 0 && q % n == 0
    ensures q <= i < q + n ==> Mirror(n, i) == q + (n - 1 - (i - q))
    ensures q <= Mirror(n, i) < q + n <==> q <= i < q + n
  {
    MirrorStaysInGroup(n, i);
    if q <= i < q + n { ModUnique(i, n, q / n, i - q); }
    if q <= Mirror(n, i) < q + n { ModUnique(Mirror(n, i), n, q / n, Mirror(n, i) - q); }
  }

  lemma OverlayShowsGuest(n: nat, raw: seq<byte>, q: nat, b: seq<byte>)
    requires n > 0 && |raw| % n == 0 && q % n == 0 && |b| == n && q + n <= |raw|
    ensures Swapped(n, Overlay(raw, q, Reversed(b))) == Overlay(Swapped(n, raw), q, b)
  {
    var left, right := Swapped(n, Overlay(raw, q, Reversed(b))), Overlay(Swapped(n, raw), q, b);
    forall i {:trigger left[i]} | 0 <= i < |raw| ensures left[i] == right[i] { MirrorAround(n, q, i); }
  }

  lemma StoreShowsGuest(n: nat, raw: seq<byte>, q: nat, b: seq<byte>)
    requires n > 0 && |raw| % n == 0 && q % n == 0 && |b| == n && q + n <= |raw|
    ensures Swapped(n, StoreGroup(n, raw, q, BigEndian(b))) == Overlay(Swapped(n, raw), q, b)
  {
    BytesReadBack(b);
    OverlayShowsGuest(n, raw, q, b);
  }

  /* -------- one instruction -------- */

  /** Memory after SWL at `a` of a register holding `v`. */
  function SwlMemory(raw: seq<byte>, v: nat, a: nat): (r: seq<byte>)
    requires |raw| % 4 == 0 && a < |raw|
    ensures |r| == |raw|
  {
    var o, q := a % 4, a - a % 4;
    StoreGroup(4, raw, q, SwlWord(LoadGroup(4, raw, q), v % Top(4), o))
  }

  function SwrMemory(raw: seq<byte>, v: nat, a: nat): (r: seq<byte>)
    requires |raw| % 4 == 0 && a < |raw|
    ensures |r| == |raw|
  {
    var o, q := a % 4, a - a % 4;
    StoreGroup(4, raw, q, SwrWord(LoadGroup(4, raw, q), v % Top(4), o))
  }

  /** The register that LDL at `a` makes of `v`. */
  function LdlRegister(raw: seq<byte>, v: nat, a: nat): nat
    requires |raw| % 8 == 0 && a < |raw|
  {
    LdlValue(v, LoadGroup(8, raw, a - a % 8), a % 8)
  }

  function LdrRegister(raw: seq<byte>, v: nat, a: nat): nat
    requires |raw| % 8 == 0 && a < |raw|
  {
    LdrValue(v, LoadGroup(8, raw, a - a % 8), a % 8)
  }

  lemma GroupStart(n: nat, length: nat, a: nat, o: nat, q: nat)
    requires n > 0 && length % n == 0 && a < length && o == a % n && q == a - o
    ensures q % n == 0 && q + n <= length && o < n
  {
    WholePart(n, a);
    WholeGroupsBelow(n, a, length);
  }

  /** Laying kept bytes over themselves changes nothing. */
  lemma KeptFront(g: seq<byte>, q: nat, w: seq<byte>, o: nat, a: nat, x: seq<byte>)
    requires q + |w| <= |g| && w == g[q..q + |w|] && o + |x| == |w| && a == q + o
    ensures Overlay(g, q, w[..o] + x) == Overlay(g, a, x)
  {}

  lemma KeptRest(g: seq<byte>, q: nat, w: seq<byte>, x: seq<byte>)
    requires q + |w| <= |g| && w == g[q..q + |w|] && |x| <= |w|
    ensures Overlay(g, q, x + w[|x|..]) == Overlay(g, q, x)
  {}

  lemma SwlStores(raw: seq<byte>, v: nat, a: nat, o: nat, q: nat, w: seq<byte>, r: seq<byte>)
    requires |raw| % 4 == 0 && a < |raw| && o == a % 4 && q == a - o && q + 4 <= |raw| && q % 4 == 0
    requires w == Swapped(4, raw)[q..q + 4] && r == ToBytes(4, v)
    ensures SwlMemory(raw, v, a) == StoreGroup(4, raw, q, BigEndian(w[..o] + r[..4 - o]))
  {
    LoadShowsGuest(4, raw, q);
    BytesHoldLowPart(4, v);
    SwlWordBytes(w, r, o);
  }

  /** SWL at `a` changes the guest bytes from `a` to the end of its word, to the register's high bytes. */
  lemma SwlOnGuest(raw: seq<byte>, v: nat, a: nat, o: nat, q: nat)
    requires |raw| % 4 == 0 && a < |raw| && o == a % 4 && q == a - o
    ensures q + 4 <= |raw|
    ensures Swapped(4, SwlMemory(raw, v, a)) == Overlay(Swapped(4, raw), a, ToBytes(4, v)[..4 - o])
  {
    GroupStart(4, |raw|, a, o, q);
    var g, r := Swapped(4, raw), ToBytes(4, v);
    var w := g[q..q + 4];
    SwlStores(raw, v, a, o, q, w, r);
    StoreShowsGuest(4, raw, q, w[..o] + r[..4 - o]);
    KeptFront(g, q, w, o, a, r[..4 - o]);
  }

  lemma SwrStores(raw: seq<byte>, v: nat, a: nat, o: nat, q: nat, w: seq<byte>, r: seq<byte>)
    requires |raw| % 4 == 0 && a < |raw| && o == a % 4 && q == a - o && q + 4 <= |raw| && q % 4 == 0
    requires w == Swapped(4, raw)[q..q + 4] && r == ToBytes(4, v)
    ensures SwrMemory(raw, v, a) == StoreGroup(4, raw, q, BigEndian(r[3 - o..] + w[o + 1..]))
  {
    LoadShowsGuest(4, raw, q);
    BytesHoldLowPart(4, v);
    SwrWordBytes(w, r, o);
  }

  /** SWR at `a` changes the guest bytes from the start of its word to `a`, to the register's low bytes. */
  lemma SwrOnGuest(raw: seq<byte>, v: nat, a: nat, o: nat, q: nat)
    requires |raw| % 4 == 0 && a < |raw| && o == a % 4 && q == a - o
    ensures q + 4 <= |raw|
    ensures Swapped(4, SwrMemory(raw, v, a)) == Overlay(Swapped(4, raw), q, ToBytes(4, v)[3 - o..])
  {
    GroupStart(4, |raw|, a, o, q);
    var g, r := Swapped(4, raw), ToBytes(4, v);
    var w := g[q..q + 4];
    SwrStores(raw, v, a, o, q, w, r);
    StoreShowsGuest(4, raw, q, r[3 - o..] + w[o + 1..]);
    KeptRest(g, q, w, r[3 - o..]);
  }

  lemma LoadsCombine(raw: seq<byte>, v: nat, a: nat, o: nat, q: nat, w: seq<byte>, r: seq<byte>)
    requires |raw| % 8 == 0 && a < |raw| && o == a % 8 && q == a - o && q + 8 <= |raw| && q % 8 == 0 && v < Top(8)
    requires w == Swapped(8, raw)[q..q + 8] && r == ToBytes(8, v)
    ensures LdlRegister(raw, v, a) == LdlValue(BigEndian(r), BigEndian(w), o)
    ensures LdrRegister(raw, v, a) == LdrValue(BigEndian(r), BigEndian(w), o)
  {
    LoadShowsGuest(8, raw, q);
    ReadsBack(v, 8);
  }

  /** LDL at `a` loads the guest bytes from `a` to the end of its doubleword into the high end. */
  lemma LdlFromGuest(raw: seq<byte>, v: nat, a: nat, o: nat, q: nat)
    requires |raw| % 8 == 0 && a < |raw| && o == a % 8 && q == a - o && v < Top(8)
    ensures q + 8 <= |raw|
    ensures LdlRegister(raw, v, a) == BigEndian(Swapped(8, raw)[a..q + 8] + ToBytes(8, v)[8 - o..])
  {
    GroupStart(8, |raw|, a, o, q);
    var g, r := Swapped(8, raw), ToBytes(8, v);
    var w := g[q..q + 8];
    LoadsCombine(raw, v, a, o, q, w, r);
    LdlValueBytes(r, w, o);
    assert w[o..] == g[a..q + 8];
  }

  /** LDR at `a` loads the guest bytes from the start of its doubleword to `a` into the low end. */
  lemma LdrFromGuest(raw: seq<byte>, v: nat, a: nat, o: nat, q: nat)
    requires |raw| % 8 == 0 && a < |raw| && o == a % 8 && q == a - o && v < Top(8)
    ensures q + 8 <= |raw|
    ensures LdrRegister(raw, v, a) == BigEndian(ToBytes(8, v)[..7 - o] + Swapped(8, raw)[q..a + 1])
  {
    GroupStart(8, |raw|, a, o, q);
    var g, r := Swapped(8, raw), ToBytes(8, v);
    var w := g[q..q + 8];
    LoadsCombine(raw, v, a, o, q, w, r);
    LdrValueBytes(r, w, o);
    assert w[..o + 1] == g[q..a + 1];
  }

  /* -------- the pairs -------- */

  /** The place in its group of the last byte of `n` unaligned ones that start at `a`. */
  lemma LastPlace(n: nat, a: nat, b: nat, o: nat, o': nat)
    requires n > 0 && b == a + n - 1 && o == a % n && o' == b % n
    ensures o' == (if o == 0 then n - 1 else o - 1) && o <= a && o' <= b && o < n && o' < n
  {
    if o == 0 {
      ModUnique(a + n - 1, n, a / n, n - 1);
    } else {
      ModUnique(a + n - 1, n, a / n + 1, o - 1);
    }
  }

  lemma FrontThenRest(g: seq<byte>, r: seq<byte>, a: nat, k: nat)
    requires a + |r| <= |g| && k <= |r|
    ensures Overlay(Overlay(g, a, r[..k]), a + k, r[k..]) == Overlay(g, a, r)
    ensures Overlay(Overlay(g, a + k, r[k..]), a, r[..k]) == Overlay(g, a, r)
  {}

  lemma AllTwice(g: seq<byte>, r: seq<byte>, a: nat)
    requires a + |r| <= |g|
    ensures Overlay(Overlay(g, a, r), a, r) == Overlay(g, a, r)
  {}

  /** The two pieces of a value of `n` bytes, laid on either side of a group border. */
  lemma PairOverlay(n: nat, g: seq<byte>, r: seq<byte>, a: nat, o: nat, o': nat, q': nat)
    requires |r| == n > 0 && a + n <= |g| && o < n && o' == (if o == 0 then n - 1 else o - 1) && q' == a + n - 1 - o'
    ensures Overlay(Overlay(g, a, r[..n - o]), q', r[n - 1 - o'..]) == Overlay(g, a, r)
  {
    if o == 0 {
      assert r[..n] == r == r[0..];
      AllTwice(g, r, a);
    } else {
      FrontThenRest(g, r, a, n - o);
    }
  }

  lemma PairOverlayBack(n: nat, g: seq<byte>, r: seq<byte>, a: nat, o: nat, o': nat, q': nat)
    requires |r| == n > 0 && a + n <= |g| && o < n && o' == (if o == 0 then n - 1 else o - 1) && q' == a + n - 1 - o'
    ensures Overlay(Overlay(g, q', r[n - 1 - o'..]), a, r[..n - o]) == Overlay(g, a, r)
  {
    if o == 0 {
      assert r[..n] == r == r[0..];
      AllTwice(g, r, a);
    } else {
      FrontThenRest(g, r, a, n - o);
    }
  }

  lemma WordOverlay(g: seq<byte>, left: seq<byte>, r: seq<byte>, a: nat, o: nat, o': nat, q': nat)
    requires |r| == 4 && a + 4 <= |g| && o < 4 && o' == (if o == 0 then 3 else o - 1) && q' == a + 3 - o'
    requires left == Overlay(g, a, r[..4 - o])
    ensures Overlay(left, q', r[3 - o'..]) == Overlay(g, a, r)
  {
    PairOverlay(4, g, r, a, o, o', q');
  }

  /** SWL at `a` and then SWR at `a + 3` set exactly the guest bytes `a..a + 4`. */
  lemma SwlThenSwr(raw: seq<byte>, v: nat, a: nat, b: nat, left: seq<byte>)
    requires |raw| % 4 == 0 && b == a + 3 < |raw| && left == SwlMemory(raw, v, a)
    ensures Swapped(4, SwrMemory(left, v, b)) == Overlay(Swapped(4, raw), a, ToBytes(4, v))
  {
    var o, o' := a % 4, b % 4;
    LastPlace(4, a, b, o, o');
    SwlOnGuest(raw, v, a, o, a - o);
    SwrOnGuest(left, v, b, o', b - o');
    WordOverlay(Swapped(4, raw), Swapped(4, left), ToBytes(4, v), a, o, o', b - o');
  }

  /** The order of the two stores does not matter. */
  lemma SwrThenSwl(raw: seq<byte>, v: nat, a: nat, b: nat, right: seq<byte>)
    requires |raw| % 4 == 0 && b == a + 3 < |raw| && right == SwrMemory(raw, v, b)
    ensures Swapped(4, SwlMemory(right, v, a)) == Overlay(Swapped(4, raw), a, ToBytes(4, v))
  {
    var o, o' := a % 4, b % 4;
    var g, r := Swapped(4, raw), ToBytes(4, v);
    LastPlace(4, a, b, o, o');
    assert Swapped(4, right) == Overlay(g, b - o', r[3 - o'..]) by {
      SwrOnGuest(raw, v, b, o', b - o');
    }
    SwlOnGuest(right, v, a, o, a - o);
    PairOverlayBack(4, g, r, a, o, o', b - o');
  }

  /** A register loaded from the left is the front of the bytes and the rest of the old register. */
  lemma PairLoad(g: seq<byte>, r: seq<byte>, a: nat, o: nat, o': nat, q': nat, left: seq<byte>, right: seq<byte>)
    requires |r| == 8 && a + 8 <= |g| && o < 8 && o' == (if o == 0 then 7 else o - 1) && q' == a + 7 - o'
    requires left == g[a..a + 8 - o] + r[8 - o..] && right == r[..7 - o'] + g[q'..a + 8]
    ensures left[..7 - o'] + g[q'..a + 8] == g[a..a + 8]
    ensures g[a..a + 8 - o] + right[8 - o..] == g[a..a + 8]
  {}

  lemma BytesOf(bytes: seq<byte>)
    requires |bytes| == 8
    ensures BigEndian(bytes) < Top(8) && ToBytes(8, BigEndian(bytes)) == bytes
  {
    BigEndianFits(bytes);
    BytesReadBack(bytes);
  }

  /** LDL at `a` and then LDR at `a + 7` load exactly the guest bytes `a..a + 8`. */
  lemma LdlThenLdr(raw: seq<byte>, v: nat, a: nat, b: nat, x: nat)
    requires |raw| % 8 == 0 && b == a + 7 < |raw| && v < Top(8) && x == LdlRegister(raw, v, a)
    ensures LdrRegister(raw, x, b) == BigEndian(Swapped(8, raw)[a..a + 8])
  {
    var g, r, o, o' := Swapped(8, raw), ToBytes(8, v), a % 8, b % 8;
    LastPlace(8, a, b, o, o');
    var left := LdlLoads(raw, v, a, o, x);
    LdrFromGuest(raw, x, b, o', b - o');
    PairLoad(g, r, a, o, o', b - o', left, r[..7 - o'] + g[b - o'..a + 8]);
  }

  lemma LdlLoads(raw: seq<byte>, v: nat, a: nat, o: nat, x: nat) returns (left: seq<byte>)
    requires |raw| % 8 == 0 && a + 8 <= |raw| && v < Top(8) && x == LdlRegister(raw, v, a) && o == a % 8 <= a
    ensures left == Swapped(8, raw)[a..a + 8 - o] + ToBytes(8, v)[8 - o..]
    ensures x < Top(8) && ToBytes(8, x) == left
  {
    LdlFromGuest(raw, v, a, o, a - o);
    left := Swapped(8, raw)[a..a + 8 - o] + ToBytes(8, v)[8 - o..];
    BytesOf(left);
  }

  lemma LdrLoads(raw: seq<byte>, v: nat, b: nat, o': nat, x: nat) returns (right: seq<byte>)
    requires |raw| % 8 == 0 && b < |raw| && v < Top(8) && x == LdrRegister(raw, v, b) && o' == b % 8 <= b
    ensures right == ToBytes(8, v)[..7 - o'] + Swapped(8, raw)[b - o'..b + 1]
    ensures x < Top(8) && ToBytes(8, x) == right
  {
    LdrFromGuest(raw, v, b, o', b - o');
    right := ToBytes(8, v)[..7 - o'] + Swapped(8, raw)[b - o'..b + 1];
    BytesOf(right);
  }

  /** The order of the two loads does not matter. */
  lemma LdrThenLdl(raw: seq<byte>, v: nat, a: nat, b: nat, x: nat)
    requires |raw| % 8 == 0 && b == a + 7 < |raw| && v < Top(8) && x == LdrRegister(raw, v, b)
    ensures LdlRegister(raw, x, a) == BigEndian(Swapped(8, raw)[a..a + 8])
  {
    var g, r, o, o' := Swapped(8, raw), ToBytes(8, v), a % 8, b % 8;
    LastPlace(8, a, b, o, o');
    var right := LdrLoads(raw, v, b, o', x);
    LdlFromGuest(raw, x, a, o, a - o);
    PairLoad(g, r, a, o, o', b - o', g[a..a + 8 - o] + r[8 - o..], right);
  }

  /** LDL at `a` and then LDR at any `b`, where the pair leads when the target is its own base: the high
      bytes are those loaded from `a` on, the low bytes those up to `b`. */
  lemma LdlThenLdrElsewhere(raw: seq<byte>, v: nat, a: nat, b: nat, x: nat, o: nat, o': nat)
    requires |raw| % 8 == 0 && a < |raw| && b < |raw| && v < Top(8) && x == LdlRegister(raw, v, a)
    requires o == a % 8 <= a && o' == b % 8 <= b
    ensures a - o + 8 <= |raw| && b - o' + 8 <= |raw|
    ensures var g := Swapped(8, raw);
      var left := g[a..a - o + 8] + ToBytes(8, v)[8 - o..];
      LdrRegister(raw, x, b) == BigEndian(left[..7 - o'] + g[b - o'..b + 1])
  {
    LdlFromGuest(raw, v, a, o, a - o);
    var left := Swapped(8, raw)[a..a - o + 8] + ToBytes(8, v)[8 - o..];
    BytesOf(left);
    LdrFromGuest(raw, x, b, o', b - o');
  }

  /** So it loads the doubleword at `a` exactly when the bytes kept from LDL and the bytes fetched by LDR
      are those of the doubleword, wherever `a` and `b` lie in their groups. */
  lemma LdlThenLdrIsRightIff(raw: seq<byte>, v: nat, a: nat, b: nat, x: nat, o: nat, o': nat, k: nat,
                             left: seq<byte>, g: seq<byte>)
    requires |raw| % 8 == 0 && a + 8 <= |raw| && b < |raw| && v < Top(8) && x == LdlRegister(raw, v, a)
    requires o == a % 8 <= a && o' == b % 8 <= b && k + o' == 7
    requires g == Swapped(8, raw) && left == g[a..a - o + 8] + ToBytes(8, v)[8 - o..]
    ensures b - o' + 8 <= |raw|
    ensures LdrRegister(raw, x, b) == BigEndian(g[a..a + 8])
      <==> left[..k] == g[a..a + k] && g[b - o'..b + 1] == g[a + k..a + 8]
  {
    LdlThenLdrLoads(raw, v, a, b, x, o, o', k, left, g);
    KeptAndFetchedIff(g, left, a, b, k, o');
  }

  lemma LdlThenLdrLoads(raw: seq<byte>, v: nat, a: nat, b: nat, x: nat, o: nat, o': nat, k: nat,
                        left: seq<byte>, g: seq<byte>)
    requires |raw| % 8 == 0 && a + 8 <= |raw| && b < |raw| && v < Top(8) && x == LdlRegister(raw, v, a)
    requires o == a % 8 <= a && o' == b % 8 <= b && k + o' == 7
    requires g == Swapped(8, raw) && left == g[a..a - o + 8] + ToBytes(8, v)[8 - o..]
    ensures |left| == 8 && b - o' + 8 <= |raw|
    ensures LdrRegister(raw, x, b) == BigEndian(left[..k] + g[b - o'..b + 1])
  {
    LdlThenLdrElsewhere(raw, v, a, b, x, o, o');
  }

  lemma KeptAndFetchedIff(g: seq<byte>, left: seq<byte>, a: nat, b: nat, k: nat, m: nat)
    requires |left| == 8 && a + 8 <= |g| && k + m == 7 && m <= b < |g|
    ensures BigEndian(left[..k] + g[b - m..b + 1]) == BigEndian(g[a..a + 8])
       <==> left[..k] == g[a..a + k] && g[b - m..b + 1] == g[a + k..a + 8]
  {
    JoinedIsIff(left[..k], g[b - m..b + 1], g[a..a + 8], k, g[a..a + k], g[a + k..a + 8]);
  }

  lemma JoinedIsIff(front: seq<byte>, rest: seq<byte>, whole: seq<byte>, k: nat, first: seq<byte>, second: seq<byte>)
    requires |front| == |first| == k && |rest| == |second| && whole == first + second
    ensures BigEndian(front + rest) == BigEndian(whole) <==> front == first && rest == second
  {
    BytesReadBack(front + rest);
    BytesReadBack(whole);
    if front + rest == whole {
      assert front == (front + rest)[..k] == first && rest == (front + rest)[k..] == second;
    }
  }

  /** For an aligned doubleword that is loaded over its own base, the pair loads the doubleword at the
      address that it just loaded, and is right exactly when the two are equal. */
  lemma BaseAsTargetIsRightIff(raw: seq<byte>, v: nat, a: nat, p: nat)
    requires |raw| % 8 == 0 && a % 8 == 0 && a + 8 <= |raw| && v < Top(8)
    requires p == LdlRegister(raw, v, a) && p % 8 == 0 && p + 8 <= |raw|
    ensures LdrRegister(raw, p, p + 7) == BigEndian(Swapped(8, raw)[a..a + 8])
       <==> Swapped(8, raw)[p..p + 8] == Swapped(8, raw)[a..a + 8]
  {
    ModUnique(p + 7, 8, p / 8, 7);
    AlignedPairIsRightIff(raw, v, a, p + 7, p, Swapped(8, raw));
  }

  lemma AlignedPairIsRightIff(raw: seq<byte>, v: nat, a: nat, b: nat, x: nat, g: seq<byte>)
    requires |raw| % 8 == 0 && a + 8 <= |raw| && 7 <= b < |raw| && v < Top(8) && x == LdlRegister(raw, v, a)
    requires a % 8 == 0 && b % 8 == 7 && g == Swapped(8, raw)
    ensures LdrRegister(raw, x, b) == BigEndian(g[a..a + 8]) <==> g[b - 7..b + 1] == g[a..a + 8]
  {
    LdlThenLdrIsRightIff(raw, v, a, b, x, 0, 7, 0, g[a..a - 0 + 8] + ToBytes(8, v)[8 - 0..], g);
  }

  /* -------- the instructions on registers and memory -------- */

  /** The base register, signed, plus the signed immediate, unchecked. */
  function Address(base: nat, immediate: int): int {
    ToInt64(ToInt64(base) + immediate)
  }

  /** `a` is base plus immediate in 64-bit arithmetic. */
  predicate Addresses(a: nat, base: nat, immediate: int) {
    (a - (base + immediate)) % 0x1_0000_0000_0000_0000 == 0
  }

  /** The address is the one Int64 that is congruent to base plus immediate modulo 2^64. */
  lemma AddressIs(base: nat, immediate: int, a: int)
    requires -0x8000_0000_0000_0000 <= a < 0x8000_0000_0000_0000
    ensures -0x8000_0000_0000_0000 <= Address(base, immediate) < 0x8000_0000_0000_0000
    ensures Address(base, immediate) == a <==> (a - (base + immediate)) % 0x1_0000_0000_0000_0000 == 0
  {
    var inner := WrapsBy(base);
    var outer := WrapsBy(ToInt64(base) + immediate);
    var r := Address(base, immediate);
    assert r == base + immediate + (inner + outer) * TWO64;
    if (a - (base + immediate)) % TWO64 == 0 {
      var k := (a - (base + immediate)) / TWO64;
      assert a - (base + immediate) == k * TWO64;
      assert r - a == (inner + outer - k) * TWO64;
    }
    SmallMultiple(inner + outer);
  }

  lemma WrapsBy(x: int) returns (k: int)
    ensures ToInt64(x) == x + k * TWO64 && -0x8000_0000_0000_0000 <= ToInt64(x) < 0x8000_0000_0000_0000
  {
    k := -((x + 0x8000_0000_0000_0000) / TWO64);
  }

  lemma SmallMultiple(k: int)
    ensures k * TWO64 % TWO64 == 0
  {}

  /** An ordinary address: a register below 2^63 plus the immediate, or a negative one, in two's complement. */
  lemma SignedBaseAddresses(a: nat, base: nat, immediate: int)
    requires base < 0x1_0000_0000_0000_0000
    requires a == (if base < 0x8000_0000_0000_0000 then base else base - 0x1_0000_0000_0000_0000) + immediate
    ensures Addresses(a, base, immediate)
  {}

  lemma Beyond(a: nat, base: nat, immediate: int, n: nat)
    requires Addresses(a, base, immediate)
    ensures Addresses(a + n, base, immediate + n)
  {
    assert a + n - (base + (immediate + n)) == a - (base + immediate);
  }

  lemma LdlKeeps(v: nat, o: nat)
    requires o < 8 && v < Top(8)
    ensures 0 <= And(v, LDL_MASK[o]) <= v
  {
    LdlTable(o);
    MasksShrink(v, 8 - o, o, ToBytes(8, v));
  }

  lemma LdrKeeps(v: nat, o: nat)
    requires o < 8 && v < Top(8)
    ensures 0 <= And(v, LDR_MASK[o]) <= v
  {
    LdrTable(o);
    MasksShrink(v, 7 - o, o + 1, ToBytes(8, v));
  }

  lemma SetTwice(s: seq<nat>, k: nat, x: nat, y: nat)
    requires k < |s|
    ensures s[k := x][k := y] == s[k := y]
  {}

  datatype Cause = NoException | ReservedInstruction

  class LoadStoreUnit {
    var gpr: seq<nat>
    var memory: seq<byte>
    var operating64: bool
    var causeException: Cause

    ghost predicate Valid()
      reads this
    {
      |gpr| == 32 && gpr[0] == 0 && (forall i | 0 <= i < 32 :: gpr[i] < Top(8))
      && |memory| % 8 == 0 && |memory| % 4 == 0  // the second for the solver's sake
      && |memory| <= 0x8000_0000_0000_0000
    }

    constructor (gpr: seq<nat>, memory: seq<byte>, operating64: bool)
      requires |gpr| == 32 && gpr[0] == 0 && (forall i | 0 <= i < 32 :: gpr[i] < Top(8))
      requires |memory| % 8 == 0 && |memory| % 4 == 0 && |memory| <= 0x8000_0000_0000_0000
      ensures Valid() && this.gpr == gpr && this.memory == memory && this.operating64 == operating64
      ensures causeException == NoException
    {
      this.gpr, this.memory, this.operating64, causeException := gpr, memory, operating64, NoException;
    }

    /** Register 0 keeps its zero. */
    method WriteGpr(index: nat, value: nat)
      requires Valid() && index < 32 && value < Top(8)
      modifies this`gpr
      ensures Valid() && gpr == if index > 0 then old(gpr)[index := value] else old(gpr)
    {
      if index > 0 { gpr := gpr[index := value]; }
    }

    method Swl(rt: nat, rs: nat, immediate: int, ghost a: nat)
      requires Valid() && rt < 32 && rs < 32 && Addresses(a, gpr[rs], immediate) && a < |memory|
      modifies this`memory
      ensures Valid() && memory == SwlMemory(old(memory), gpr[rt], a)
    {
      AddressIs(gpr[rs], immediate, a);
      var address := Address(gpr[rs], immediate);
      var offset := address % 4;
      GroupStart(4, |memory|, address, offset, address - offset);
      var value := LoadGroup(4, memory, address - offset);
      memory := StoreGroup(4, memory, address - offset, SwlWord(value, gpr[rt] % Top(4), offset));
    }

    method Swr(rt: nat, rs: nat, immediate: int, ghost a: nat)
      requires Valid() && rt < 32 && rs < 32 && Addresses(a, gpr[rs], immediate) && a < |memory|
      modifies this`memory
      ensures Valid() && memory == SwrMemory(old(memory), gpr[rt], a)
    {
      AddressIs(gpr[rs], immediate, a);
      var address := Address(gpr[rs], immediate);
      var offset := address % 4;
      GroupStart(4, |memory|, address, offset, address - offset);
      var value := LoadGroup(4, memory, address - offset);
      memory := StoreGroup(4, memory, address - offset, SwrWord(value, gpr[rt] % Top(4), offset));
    }

    method Ldl(rt: nat, rs: nat, immediate: int, ghost a: nat)
      requires Valid() && rt < 32 && rs < 32 && Addresses(a, gpr[rs], immediate) && a < |memory|
      modifies this`gpr, this`causeException
      ensures Valid()
      ensures !operating64 ==> gpr == old(gpr) && causeException == ReservedInstruction
      ensures operating64 ==>
                && causeException == old(causeException)
                && gpr == if rt == 0 then old(gpr)
                          else old(gpr)[rt := LdlRegister(memory, old(gpr[rt]), a)]
    {
      if !operating64 {
        causeException := ReservedInstruction;
        return;
      }
      AddressIs(gpr[rs], immediate, a);
      var address := Address(gpr[rs], immediate);
      var offset := address % 8;
      GroupStart(8, |memory|, address, offset, address - offset);
      var value := LoadGroup(8, memory, address - offset);
      LdlKeeps(gpr[rt], offset);
      WriteGpr(rt, And(gpr[rt], LDL_MASK[offset]));
      WriteGpr(rt, Add(8, gpr[rt], Left(8, value, LDL_SHIFT[offset])));
    }

    method Ldr(rt: nat, rs: nat, immediate: int, ghost a: nat)
      requires Valid() && rt < 32 && rs < 32 && Addresses(a, gpr[rs], immediate) && a < |memory|
      modifies this`gpr, this`causeException
      ensures Valid()
      ensures !operating64 ==> gpr == old(gpr) && causeException == ReservedInstruction
      ensures operating64 ==>
                && causeException == old(causeException)
                && gpr == if rt == 0 then old(gpr)
                          else old(gpr)[rt := LdrRegister(memory, old(gpr[rt]), a)]
    {
      if !operating64 {
        causeException := ReservedInstruction;
        return;
      }
      AddressIs(gpr[rs], immediate, a);
      var address := Address(gpr[rs], immediate);
      var offset := address % 8;
      GroupStart(8, |memory|, address, offset, address - offset);
      var value := LoadGroup(8, memory, address - offset);
      LdrKeeps(gpr[rt], offset);
      WriteGpr(rt, And(gpr[rt], LDR_MASK[offset]));
      WriteGpr(rt, Add(8, gpr[rt], Right(value, LDR_SHIFT[offset])));
    }

    method StorePair(rt: nat, rs: nat, immediate: int, ghost a: nat)
      requires Valid() && rt < 32 && rs < 32
      requires Addresses(a, gpr[rs], immediate) && a + 4 <= |memory|
      modifies this`memory
      ensures Valid() && memory == SwrMemory(SwlMemory(old(memory), gpr[rt], a), gpr[rt], a + 3)
    {
      Beyond(a, gpr[rs], immediate, 3);
      Swl(rt, rs, immediate, a);
      Swr(rt, rs, immediate + 3, a + 3);
    }

    /** SWL and SWR with immediates three apart store the register's low word at any guest address. */
    method StoreUnalignedWord(rt: nat, rs: nat, immediate: int, ghost a: nat)
      requires Valid() && rt < 32 && rs < 32
      requires Addresses(a, gpr[rs], immediate) && a + 4 <= |memory|
      modifies this`memory
      ensures Valid()
      ensures Swapped(4, memory) == Overlay(Swapped(4, old(memory)), a, ToBytes(4, gpr[rt]))
    {
      ghost var raw, v := memory, gpr[rt];
      StorePair(rt, rs, immediate, a);
      SwlThenSwr(raw, v, a, a + 3, SwlMemory(raw, v, a));
    }

    method LoadPair(rt: nat, rs: nat, immediate: int, ghost a: nat)
      requires Valid() && operating64 && 0 < rt < 32 && rs < 32 && rs != rt
      requires Addresses(a, gpr[rs], immediate) && a + 8 <= |memory|
      modifies this`gpr, this`causeException
      ensures Valid() && causeException == old(causeException)
      ensures gpr == old(gpr)[rt := LdrRegister(memory, LdlRegister(memory, old(gpr[rt]), a), a + 7)]
    {
      Beyond(a, gpr[rs], immediate, 7);
      Ldl(rt, rs, immediate, a);
      ghost var first := gpr[rt];
      Ldr(rt, rs, immediate + 7, a + 7);
      SetTwice(old(gpr), rt, first, LdrRegister(memory, first, a + 7));
    }

    /** LDL and LDR with immediates seven apart load the doubleword at any guest address. */
    method LoadUnalignedDoubleword(rt: nat, rs: nat, immediate: int, ghost a: nat)
      requires Valid() && operating64 && 0 < rt < 32 && rs < 32 && rs != rt
      requires Addresses(a, gpr[rs], immediate) && a + 8 <= |memory|
      modifies this`gpr, this`causeException
      ensures Valid() && causeException == old(causeException)
      ensures gpr == old(gpr)[rt := BigEndian(Swapped(8, memory)[a..a + 8])]
    {
      ghost var before := gpr[rt];
      LoadPair(rt, rs, immediate, a);
      LdlThenLdr(memory, before, a, a + 7, LdlRegister(memory, before, a));
    }
  }
}
