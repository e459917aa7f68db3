/** The table-driven CRC-32 of the boot code against the bit-serial CRC of section 8 of RFC 1952. */
module Crc32 {

  import opened CrcKernel
  import opened CrcTable

  /** The reflected polynomial. */
  const POLYNOMIAL: bv32 := 0xEDB88320

  const SEED: bv32 := 0xFFFFFFFF

  function Shift(c: bv32): bv32 { if c & 1 == 1 then (c >> 1) ^ POLYNOMIAL else c >> 1 }

  function LowBit(c: bv32): bv32 { c & 1 }

  function Halve(c: bv32): bv32 { c >> 1 }

  function LowByte(c: bv32): bv32 { c & 0xFF }

  function HighBytes(c: bv32): bv32 { c & 0xFFFFFF00 }

  function DropByte(c: bv32): bv32 { c >> 8 }

  predicate IsByte(c: bv32) { c & 0xFF == c }

  const REGISTER: Kernel<bv32> :=
    Kernel(Shift, Plus, LowBit, Halve, LowByte, HighBytes, IsByte, DropByte, Entry, 0)

  /* -------- bit facts -------- */

  lemma BitIsZeroOrOne(c: bv32)
    ensures c & 1 == 0 || c & 1 == 1
  {}

  lemma XorShiftLaw(c: bv32, d: bv32)
    ensures ((c ^ d) >> 1) == (c >> 1) ^ (d >> 1) && (c ^ d) & 1 == (c & 1) ^ (d & 1)
  {}

  lemma Cancel(a: bv32, b: bv32, p: bv32)
    ensures (a ^ p) ^ (b ^ p) == a ^ b && (a ^ p) ^ b == (a ^ b) ^ p && a ^ (b ^ p) == (a ^ b) ^ p
  {}

  lemma ShiftXor(c: bv32, d: bv32)
    ensures Shift(c ^ d) == Shift(c) ^ Shift(d)
  {
    XorShiftLaw(c, d);
    BitIsZeroOrOne(c);
    BitIsZeroOrOne(d);
    Cancel(c >> 1, d >> 1, POLYNOMIAL);
  }

  lemma TopBits(c: bv32, d: bv32)
    ensures (c >> 1) ^ POLYNOMIAL != d >> 1 && c >> 1 != (d >> 1) ^ POLYNOMIAL
    ensures c >> 1 == d >> 1 && c & 1 == d & 1 ==> c == d
    ensures (c >> 1) ^ POLYNOMIAL == (d >> 1) ^ POLYNOMIAL ==> c >> 1 == d >> 1
  {}

  /** No two registers shift to the same one. */
  lemma ShiftInjective(c: bv32, d: bv32)
    requires Shift(c) == Shift(d)
    ensures c == d
  {
    TopBits(c, d);
    BitIsZeroOrOne(c);
    BitIsZeroOrOne(d);
  }

  lemma SplitBits(c: bv32, bits: bv32)
    ensures (c ^ bits) >> 1 == ((c ^ (bits & 1)) >> 1) ^ (bits >> 1)
    ensures (c ^ bits) & 1 == (c ^ (bits & 1)) & 1
  {}

  lemma ShiftAs(c: bv32, halved: bv32, low: bv32)
    requires halved == c >> 1 && low == c & 1
    ensures Shift(c) == if low == 1 then Plus(halved, POLYNOMIAL) else halved
  {}

  /** Registers with the same lowest bit shift alike, up to what was xor-ed in above it. */
  lemma ShiftsAlike(c: bv32, d: bv32, halved: bv32, above: bv32)
    requires c & 1 == d & 1 && halved == d >> 1 && c >> 1 == Plus(halved, above)
    ensures Shift(c) == Plus(Shift(d), above)
  {
    Cancel(halved, above, POLYNOMIAL);
    ShiftAs(c, Plus(halved, above), d & 1);
    ShiftAs(d, halved, d & 1);
  }

  /** All but the lowest bit just move down. */
  lemma ShiftSplits(c: bv32, bits: bv32)
    ensures Shift(Plus(c, bits)) == Plus(Shift(Plus(c, LowBit(bits))), Halve(bits))
  {
    SplitBits(c, bits);
    ShiftsAlike(Plus(c, bits), Plus(c, LowBit(bits)), Plus(c, LowBit(bits)) >> 1, Halve(bits));
  }

  lemma ByteHalves(b: bv32)
    ensures (b & 0xFF) >> 1 >> 1 >> 1 >> 1 >> 1 >> 1 >> 1 >> 1 == 0
  {}

  lemma ClearedStaysEven(c: bv32)
    ensures var h := c & 0xFFFFFF00;
      && h & 1 == 0 && (h >> 1) & 1 == 0 && (h >> 1 >> 1) & 1 == 0 && (h >> 1 >> 1 >> 1) & 1 == 0
      && (h >> 1 >> 1 >> 1 >> 1) & 1 == 0 && (h >> 1 >> 1 >> 1 >> 1 >> 1) & 1 == 0
      && (h >> 1 >> 1 >> 1 >> 1 >> 1 >> 1) & 1 == 0 && (h >> 1 >> 1 >> 1 >> 1 >> 1 >> 1 >> 1) & 1 == 0
      && h >> 1 >> 1 >> 1 >> 1 >> 1 >> 1 >> 1 >> 1 == c >> 8
  {}

  lemma IterateEight<T>(f: T -> T, x: T)
    ensures Iterate(f, x, 8) == f(f(f(f(f(f(f(f(x))))))))
  {
    var x2 := f(f(x));
    var x4 := f(f(x2));
    var x6 := f(f(x4));
    assert Iterate(f, x, 8) == Iterate(f, x2, 6) == Iterate(f, x4, 4) == Iterate(f, x6, 2);
  }

  /** The three high bytes only move down, for any step that halves even numbers. */
  lemma HighBytesMoveDown(f: bv32 -> bv32, c: bv32)
    requires forall x :: x & 1 == 0 ==> f(x) == x >> 1
    ensures Iterate(f, c & 0xFFFFFF00, 8) == c >> 8
  {
    var h := c & 0xFFFFFF00;
    ClearedStaysEven(c);
    IterateEight(f, h);
  }

  lemma EvenShifts(x: bv32)
    requires x & 1 == 0
    ensures Shift(x) == x >> 1
  {}

  lemma HighBytesOnlyMove(c: bv32)
    ensures Iterate(Shift, c & 0xFFFFFF00, 8) == c >> 8
  {
    forall x: bv32 | x & 1 == 0 ensures Shift(x) == x >> 1 { EvenShifts(x); }
    HighBytesMoveDown(Shift, c);
  }

  lemma HighAndLow(c: bv32)
    ensures (c & 0xFF) ^ (c & 0xFFFFFF00) == c
  {}

  lemma ByteIsUsedUp(b: bv32)
    requires IsByte(b)
    ensures Iterate(Halve, b, 8) == 0
  {
    IterateEight(Halve, b);
    ByteHalves(b);
  }

  lemma XorAboveByte(c: bv32, b: bv32)
    requires b & 0xFF == b
    ensures (c ^ b) >> 8 == c >> 8
  {}

  lemma XorCancels(x: bv32, y: bv32, z: bv32)
    ensures x ^ z == y ^ z ==> x == y
    ensures x ^ y == x ^ z ==> y == z
    ensures x ^ 0 == x
  {}

  /* -------- the laws of the register -------- */

  lemma ShiftIsLinear()
    ensures IsLinear(REGISTER)
  {
    forall x, y ensures Shift(Plus(x, y)) == Plus(Shift(x), Shift(y)) { ShiftXor(x, y); }
  }

  lemma ShiftIsInjective()
    ensures IsInjective(REGISTER)
  {
    forall x, y | Shift(x) == Shift(y) ensures x == y { ShiftInjective(x, y); }
  }

  lemma ShiftStepsByLowBit()
    ensures StepsByLowBit(REGISTER)
  {
    forall c, b ensures Shift(Plus(c, b)) == Plus(Shift(Plus(c, LowBit(b))), Halve(b)) { ShiftSplits(c, b); }
  }

  lemma PlusCancels()
    ensures Cancels(REGISTER)
  {
    forall x, y, z
      ensures (Plus(x, z) == Plus(y, z) ==> x == y) && (Plus(x, y) == Plus(x, z) ==> y == z) && Plus(x, 0) == x
    {
      XorCancels(x, y, z);
    }
  }

  lemma RegisterSplitsInBytes()
    ensures SplitsInBytes(REGISTER)
  {
    forall c ensures Plus(LowByte(c), HighBytes(c)) == c { HighAndLow(c); }
    forall c ensures Iterate(Shift, HighBytes(c), 8) == DropByte(c) { HighBytesOnlyMove(c); }
  }

  lemma RegisterBytesAreSmall()
    ensures BytesAreSmall(REGISTER)
  {
    forall b | IsByte(b) ensures Iterate(Halve, b, 8) == 0 { ByteIsUsedUp(b); }
    forall b, c | IsByte(b) ensures DropByte(Plus(c, b)) == DropByte(c) { XorAboveByte(c, b); }
  }

  /* -------- the table -------- */

  lemma SameShift(c: bv32)
    ensures ShiftOnce(c) == Shift(c)
  {}

  lemma ShiftByteIterates(c: bv32)
    ensures ShiftByte(c) == Iterate(Shift, c, 8)
  {
    forall x ensures ShiftOnce(x) == Shift(x) { SameShift(x); }
    IterateEight(Shift, c);
  }

  lemma RowOfEntry(c: bv32, h: bv32, l: bv32)
    requires h == (c >> 4) & 15 && l == c & 15 && h < 16 && l < 16
    ensures |TABLE_ROWS| == 16 && |TABLE_ROWS[h as int]| == |TABLE_ROWS[0]| == 16
    ensures Entry(c) == Plus(TABLE_ROWS[h as int][0], TABLE_ROWS[0][l as int])
  {
    EntryAt(h as int, l as int);
  }

  lemma HeadsOfEntry(c: bv32, h: bv32, l: bv32, head: bv32) returns (eHigh: bv32, eLow: bv32)
    requires h == (c >> 4) & 15 && l == c & 15 && h < 16 && l < 16 && head == h << 4
    ensures Entry(c) == Plus(eHigh, eLow)
    ensures eHigh == Iterate(Shift, head, 8) && eLow == Iterate(Shift, l, 8)
  {
    RowOfEntry(c, h, l);
    eHigh, eLow := TABLE_ROWS[h as int][0], TABLE_ROWS[0][l as int];
    assert eHigh == Iterate(Shift, head, 8) by {
      FirstColumn(h, head);
      ShiftByteIterates(head);
    }
    assert eLow == Iterate(Shift, l, 8) by {
      FirstRow(l);
      ShiftByteIterates(l);
    }
  }

  lemma JoinHeads(low: bv32, head: bv32, l: bv32, eHigh: bv32, eLow: bv32)
    requires Plus(head, l) == low
    requires eHigh == Iterate(Shift, head, 8) && eLow == Iterate(Shift, l, 8)
    ensures Plus(eHigh, eLow) == Iterate(Shift, low, 8)
  {
    ShiftIsLinear();
    IterateIsLinear(REGISTER, head, l, 8);
  }

  lemma EntryIsEightSteps(c: bv32, h: bv32, l: bv32, head: bv32, low: bv32)
    requires h == (c >> 4) & 15 && l == c & 15 && head == h << 4 && low == c & 0xFF
    ensures Entry(c) == Iterate(Shift, low, 8)
  {
    Nibbles(c);
    var eHigh, eLow := HeadsOfEntry(c, h, l, head);
    JoinHeads(low, head, l, eHigh, eLow);
  }

  /** Every entry of the table is its own index after eight bit steps. */
  lemma TableEntriesAreEightSteps()
    ensures TableIsEightSteps(REGISTER)
  {
    forall c ensures Entry(c) == Iterate(Shift, LowByte(c), 8) {
      var h := (c >> 4) & 15;
      EntryIsEightSteps(c, h, c & 15, h << 4, c & 0xFF);
    }
  }

  lemma RegisterLaws()
    ensures Laws(REGISTER)
  {
    ShiftIsLinear();
    ShiftStepsByLowBit();
    ShiftIsInjective();
    PlusCancels();
    RegisterSplitsInBytes();
    TableEntriesAreEightSteps();
    RegisterBytesAreSmall();
  }

  /* -------- messages -------- */

  function Wide(b: bv8): bv32 { b as bv32 }

  function Widened(bytes: seq<bv8>): (words: seq<bv32>)
    ensures |words| == |bytes| && forall i :: 0 <= i < |bytes| ==> words[i] == Wide(bytes[i])
  {
    seq(|bytes|, i requires 0 <= i < |bytes| => Wide(bytes[i]))
  }

  lemma ByteFits(b: bv8)
    ensures IsByte(Wide(b))
  {}

  lemma WidenedAreBytes(bytes: seq<bv8>)
    ensures AllBytes(REGISTER, Widened(bytes))
  {
    forall i | 0 <= i < |bytes| ensures IsByte(Widened(bytes)[i]) { ByteFits(bytes[i]); }
  }

  /** CRC-32 of a message, one bit at a time: section 8 of RFC 1952. */
  function Reference(bytes: seq<bv8>): bv32 {
    Plus(FeedBytes(REGISTER, 0xFFFFFFFF, Widened(bytes)), 0xFFFFFFFF)
  }

  /** What hashing a chunk makes of the running value: the seed is xor-ed in before and after. */
  function Hashed(value: bv32, bytes: seq<bv8>): bv32 {
    Plus(Rounds(REGISTER, Plus(value, SEED), Widened(bytes)), SEED)
  }

  lemma RoundsAreReference(c: bv32, bytes: seq<bv8>)
    ensures Rounds(REGISTER, c, Widened(bytes)) == FeedBytes(REGISTER, c, Widened(bytes))
  {
    RegisterLaws();
    LawsMakeRoundsFeed(REGISTER);
    WidenedAreBytes(bytes);
    RoundsFeedBytes(REGISTER, c, Widened(bytes));
  }

  lemma SeedCancels(c: bv32)
    ensures Plus(Plus(c, SEED), SEED) == c && Plus(0, SEED) == SEED
  {}

  /** From a fresh value, the table loop computes the reference checksum. */
  lemma FreshHashIsReference(bytes: seq<bv8>)
    ensures Hashed(0, bytes) == Reference(bytes)
  {
    SeedCancels(0);
    RoundsAreReference(SEED, bytes);
  }

  lemma WidenedConcat(first: seq<bv8>, second: seq<bv8>)
    ensures Widened(first + second) == Widened(first) + Widened(second)
  {}

  /** Hashing two chunks in turn is hashing their concatenation, from any running value. */
  lemma ChunksConcatenate(value: bv32, first: seq<bv8>, second: seq<bv8>)
    ensures Hashed(Hashed(value, first), second) == Hashed(value, first + second)
  {
    var c := Plus(value, SEED);
    var d := FeedBytes(REGISTER, c, Widened(first));
    RoundsAreReference(c, first);
    SeedCancels(d);
    RoundsAreReference(d, second);
    RoundsAreReference(c, first + second);
    WidenedConcat(first, second);
    FeedBytesConcat(REGISTER, c, Widened(first), Widened(second));
  }

  /** Messages of one length that differ in a single byte never share a checksum. */
  lemma OneByteChangesTheChecksum(first: seq<bv8>, second: seq<bv8>, i: int)
    requires 0 <= i < |first| == |second| && first[i] != second[i]
    requires first[..i] == second[..i] && first[i + 1..] == second[i + 1..]
    ensures Reference(first) != Reference(second)
  {
    var before, after := Widened(first[..i]), Widened(first[i + 1..]);
    var a, b := Wide(first[i]), Wide(second[i]);
    assert Widened(first) == before + [a] + after;
    assert Widened(second) == before + [b] + after;
    RegisterLaws();
    LawsMakeFeedSeparate(REGISTER);
    WidenedAreBytes(first[i + 1..]);
    ByteFits(first[i]);
    ByteFits(second[i]);
    WideningSeparates(first[i], second[i]);
    OneChangedByteShows(REGISTER, SEED, before, a, b, after);
    XorCancels(FeedBytes(REGISTER, SEED, Widened(first)), FeedBytes(REGISTER, SEED, Widened(second)), SEED);
  }

  lemma WideningSeparates(a: bv8, b: bv8)
    ensures Wide(a) == Wide(b) ==> a == b
  {}

  /* -------- the digest -------- */

  function Digest(c: bv32): (bytes: seq<bv8>)
    ensures |bytes| == 4
  {
    [((c >> 24) & 0xFF) as bv8, ((c >> 16) & 0xFF) as bv8, ((c >> 8) & 0xFF) as bv8, (c & 0xFF) as bv8]
  }

  function CrcValue(bytes: seq<bv8>): bv32
    requires |bytes| == 4
  {
    ((bytes[0] as bv32) << 24) | ((bytes[1] as bv32) << 16) | ((bytes[2] as bv32) << 8) | (bytes[3] as bv32)
  }

  /** The four digest bytes read back as the value they were made from. */
  lemma DigestReadsBack(c: bv32)
    ensures CrcValue(Digest(c)) == c
  {}

  lemma FeedZeroBit(c: bv32, n: nat)
    requires n > 0
    ensures FeedBits(REGISTER, c, 0, n) == FeedBits(REGISTER, Shift(c), 0, n - 1)
  {
    XorCancels(c, c, 0);
    assert LowBit(0) == 0 && Halve(0) == 0;
    assert Plus(c, LowBit(0)) == c;
  }

  lemma ZeroByteShifts()
    ensures Shift(0xFFFFFFFF) == 0x92477CDF && Shift(0x92477CDF) == 0xA49B3D4F
    ensures Shift(0xA49B3D4F) == 0xBFF51D87 && Shift(0xBFF51D87) == 0xB2420DE3
    ensures Shift(0xB2420DE3) == 0xB49985D1 && Shift(0xB49985D1) == 0xB7F441C8
    ensures Shift(0xB7F441C8) == 0x5BFA20E4 && Shift(0x5BFA20E4) == 0x2DFD1072
  {}

  lemma ZeroByteFeeds()
    ensures FeedBits(REGISTER, 0xFFFFFFFF, 0, 8) == 0x2DFD1072
  {
    ZeroByteShifts();
    FeedZeroBit(0xFFFFFFFF, 8);
    FeedZeroBit(0x92477CDF, 7);
    FeedZeroBit(0xA49B3D4F, 6);
    FeedZeroBit(0xBFF51D87, 5);
    FeedZeroBit(0xB2420DE3, 4);
    FeedZeroBit(0xB49985D1, 3);
    FeedZeroBit(0xB7F441C8, 2);
    FeedZeroBit(0x5BFA20E4, 1);
  }

  /** The published checksum of the single zero byte, and its digest, most significant byte first. */
  lemma ChecksumOfAZeroByte()
    ensures Reference([0]) == 0xD202EF8D && Digest(Reference([0])) == [0xD2, 0x02, 0xEF, 0x8D]
  {
    var words := Widened([0]);
    ZeroByteFeeds();
    assert words == [0] && words[..0] == [];
    assert FeedBytes(REGISTER, 0xFFFFFFFF, []) == 0xFFFFFFFF;
    assert FeedBytes(REGISTER, 0xFFFFFFFF, words) == FeedBits(REGISTER, 0xFFFFFFFF, 0, 8);
  }

  function TableRound(c: bv32, b: bv8): bv32 { Entry(c ^ Wide(b)) ^ (c >> 8) }

  lemma LoopRound(c: bv32, b: bv8)
    ensures TableRound(c, b) == Round(REGISTER, c, Wide(b))
  {}

  lemma SliceGrows(bytes: seq<bv8>, start: nat, at: nat)
    requires start <= at < |bytes|
    ensures Widened(bytes[start..at + 1]) == Widened(bytes[start..at]) + [Wide(bytes[at])]
  {}

  /** The table loop's register after `bytes[start..at]`. */
  function Running(seeded: bv32, bytes: seq<bv8>, start: nat, at: nat): bv32
    requires start <= at <= |bytes|
  {
    Rounds(REGISTER, seeded, Widened(bytes[start..at]))
  }

  lemma RunningStarts(seeded: bv32, bytes: seq<bv8>, start: nat)
    requires start <= |bytes|
    ensures Running(seeded, bytes, start, start) == seeded
  {
    assert Widened(bytes[start..start]) == [];
  }

  lemma RunningGrows(seeded: bv32, bytes: seq<bv8>, start: nat, at: nat, c: bv32, b: bv8)
    requires start <= at < |bytes| && c == Running(seeded, bytes, start, at) && b == bytes[at]
    ensures TableRound(c, b) == Running(seeded, bytes, start, at + 1)
  {
    LoopRound(c, b);
    SliceGrows(bytes, start, at);
    AppendRounds(REGISTER, seeded, Widened(bytes[start..at]), Wide(b));
  }

  method TableLoop(buffer: array<bv8>, start: nat, length: nat, crc: bv32) returns (c: bv32)
    requires start + length <= buffer.Length
    ensures c == Rounds(REGISTER, crc, Widened(buffer[start..start + length]))
  {
    ghost var bytes := buffer[..];
    c := crc;
    var at := start;
    RunningStarts(crc, bytes, start);
    while at < start + length
      invariant start <= at <= start + length
      invariant c == Running(crc, bytes, start, at)
    {
      RunningGrows(crc, bytes, start, at, c, buffer[at]);
      c := TableRound(c, buffer[at]);
      at := at + 1;
    }
    assert buffer[start..start + length] == bytes[start..at];
  }

  class Crc32HashAlgorithm {
    var crcValue: bv32

    constructor ()
      ensures crcValue == 0
    {
      crcValue := 0;
    }

    method Initialize()
      modifies this
      ensures crcValue == 0
    {
      crcValue := 0;
    }

    method HashCore(buffer: array<bv8>, start: nat, length: nat)
      requires start + length <= buffer.Length
      modifies this
      ensures crcValue == Hashed(old(crcValue), buffer[start..start + length])
    {
      crcValue := Plus(crcValue, SEED);
      crcValue := TableLoop(buffer, start, length, crcValue);
      crcValue := Plus(crcValue, SEED);
    }

    method HashFinal() returns (hashValue: seq<bv8>)
      ensures |hashValue| == 4 && CrcValue(hashValue) == crcValue
    {
      hashValue := Digest(crcValue);
      DigestReadsBack(crcValue);
    }

    /** A fresh hash of a whole buffer yields the reference checksum. */
    method ComputeHash(buffer: array<bv8>) returns (hashValue: seq<bv8>)
      modifies this
      ensures |hashValue| == 4 && CrcValue(hashValue) == Reference(buffer[..])
    {
      Initialize();
      HashCore(buffer, 0, buffer.Length);
      FreshHashIsReference(buffer[..]);
      assert buffer[0..buffer.Length] == buffer[..];
      hashValue := HashFinal();
    }
  }
}
