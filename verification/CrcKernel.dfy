/**
  * A byte-at-a-time checksum with a look-up table, against the same checksum fed one bit at a
  * time, for any register type with the handful of laws such a table needs.
  */
module CrcKernel {

  /** The operations of a register: bits enter at the low end and the register shifts down. */
  datatype Kernel<!T(!new)> = Kernel(
    shift: T -> T,          // one bit step
    xor: (T, T) -> T,
    lowBit: T -> T,
    halve: T -> T,          // drops the lowest bit
    lowByte: T -> T,
    highBytes: T -> T,      // clears the lowest byte
    isByte: T -> bool,
    dropByte: T -> T,       // moves the high bytes down by one
    entry: T -> T,          // the table, indexed by the lowest byte of a register
    zero: T
  )

  function Iterate<T>(f: T -> T, c: T, n: nat): T
    decreases n
  {
    if n == 0 then c else Iterate(f, f(c), n - 1)
  }

  /** The reference: `n` bits of `bits` enter one at a time, lowest first. */
  function FeedBits<T(!new)>(k: Kernel<T>, c: T, bits: T, n: nat): T
    decreases n
  {
    if n == 0 then c else FeedBits(k, k.shift(k.xor(c, k.lowBit(bits))), k.halve(bits), n - 1)
  }

  function FeedBytes<T(!new)>(k: Kernel<T>, c: T, bytes: seq<T>): T
    decreases |bytes|
  {
    if bytes == [] then c
    else FeedBits(k, FeedBytes(k, c, bytes[..|bytes| - 1]), bytes[|bytes| - 1], 8)
  }

  /** One round of the table loop. */
  function Round<T(!new)>(k: Kernel<T>, c: T, b: T): T {
    k.xor(k.entry(k.xor(c, b)), k.dropByte(c))
  }

  function Rounds<T(!new)>(k: Kernel<T>, c: T, bytes: seq<T>): T
    decreases |bytes|
  {
    if bytes == [] then c else Round(k, Rounds(k, c, bytes[..|bytes| - 1]), bytes[|bytes| - 1])
  }

  /* -------- the laws -------- */

  ghost predicate IsLinear<T(!new)>(k: Kernel<T>) {
    forall x, y :: k.shift(k.xor(x, y)) == k.xor(k.shift(x), k.shift(y))
  }

  /** Only the lowest bit takes part in a step; the others just move down. */
  ghost predicate StepsByLowBit<T(!new)>(k: Kernel<T>) {
    forall c, b :: k.shift(k.xor(c, b)) == k.xor(k.shift(k.xor(c, k.lowBit(b))), k.halve(b))
  }

  ghost predicate IsInjective<T(!new)>(k: Kernel<T>) {
    forall x, y :: k.shift(x) == k.shift(y) ==> x == y
  }

  ghost predicate Cancels<T(!new)>(k: Kernel<T>) {
    && (forall x, y, z {:trigger k.xor(x, z), k.xor(y, z)} :: k.xor(x, z) == k.xor(y, z) ==> x == y)
    && (forall x, y, z {:trigger k.xor(x, y), k.xor(x, z)} :: k.xor(x, y) == k.xor(x, z) ==> y == z)
    && (forall x :: k.xor(x, k.zero) == x)
  }

  ghost predicate SplitsInBytes<T(!new)>(k: Kernel<T>) {
    && (forall c :: k.xor(k.lowByte(c), k.highBytes(c)) == c)
    && (forall c :: Iterate(k.shift, k.highBytes(c), 8) == k.dropByte(c))
  }

  ghost predicate TableIsEightSteps<T(!new)>(k: Kernel<T>) {
    forall c :: k.entry(c) == Iterate(k.shift, k.lowByte(c), 8)
  }

  /** Eight halvings use a byte up, and dropping the lowest byte of a register does not see it. */
  ghost predicate BytesAreSmall<T(!new)>(k: Kernel<T>) {
    && (forall b :: k.isByte(b) ==> Iterate(k.halve, b, 8) == k.zero)
    && (forall b, c :: k.isByte(b) ==> k.dropByte(k.xor(c, b)) == k.dropByte(c))
  }

  ghost predicate Laws<T(!new)>(k: Kernel<T>) {
    && IsLinear(k) && StepsByLowBit(k) && IsInjective(k)
    && Cancels(k) && SplitsInBytes(k) && TableIsEightSteps(k) && BytesAreSmall(k)
  }

  ghost predicate AllBytes<T(!new)>(k: Kernel<T>, bytes: seq<T>) {
    forall i :: 0 <= i < |bytes| ==> k.isByte(bytes[i])
  }

  /* -------- a round feeds a byte -------- */

  lemma {:induction false} IterateIsLinear<T(!new)>(k: Kernel<T>, c: T, d: T, n: nat)
    requires IsLinear(k)
    ensures Iterate(k.shift, k.xor(c, d), n) == k.xor(Iterate(k.shift, c, n), Iterate(k.shift, d, n))
    decreases n
  {
    if n > 0 { IterateIsLinear(k, k.shift(c), k.shift(d), n - 1); }
  }

  lemma {:induction false} IterateIsInjective<T(!new)>(k: Kernel<T>, c: T, d: T, n: nat)
    requires IsInjective(k) && Iterate(k.shift, c, n) == Iterate(k.shift, d, n)
    ensures c == d
    decreases n
  {
    if n > 0 { IterateIsInjective(k, k.shift(c), k.shift(d), n - 1); }
  }

  /** Feeding bits one at a time is combining them in at once and then stepping. */
  lemma {:induction false} FeedIsIterate<T(!new)>(k: Kernel<T>, c: T, bits: T, n: nat)
    requires StepsByLowBit(k)
    ensures k.xor(FeedBits(k, c, bits, n), Iterate(k.halve, bits, n)) == Iterate(k.shift, k.xor(c, bits), n)
    decreases n
  {
    if n > 0 { FeedIsIterate(k, k.shift(k.xor(c, k.lowBit(bits))), k.halve(bits), n - 1); }
  }

  lemma FeedByteIsIterate<T(!new)>(k: Kernel<T>, c: T, b: T)
    requires Laws(k) && k.isByte(b)
    ensures FeedBits(k, c, b, 8) == Iterate(k.shift, k.xor(c, b), 8)
  {
    FeedIsIterate(k, c, b, 8);
  }

  /** Eight steps act on the lowest byte alone; the rest only moves down. */
  lemma EightSteps<T(!new)>(k: Kernel<T>, c: T)
    requires Laws(k)
    ensures Iterate(k.shift, c, 8) == k.xor(k.entry(c), k.dropByte(c))
  {
    IterateIsLinear(k, k.lowByte(c), k.highBytes(c), 8);
    assert Iterate(k.shift, k.highBytes(c), 8) == k.dropByte(c);
  }

  /** One round of the table loop feeds the eight bits of a byte. */
  lemma RoundFeedsAByte<T(!new)>(k: Kernel<T>, c: T, b: T)
    requires Laws(k) && k.isByte(b)
    ensures Round(k, c, b) == FeedBits(k, c, b, 8)
  {
    FeedByteIsIterate(k, c, b);
    EightSteps(k, k.xor(c, b));
  }

  ghost predicate RoundsFeed<T(!new)>(k: Kernel<T>) {
    forall c, b :: k.isByte(b) ==> Round(k, c, b) == FeedBits(k, c, b, 8)
  }

  ghost predicate FeedSeparates<T(!new)>(k: Kernel<T>) {
    forall c, d, a, b {:trigger FeedBits(k, c, a, 8), FeedBits(k, d, b, 8)} ::
      k.isByte(a) && k.isByte(b) && (c == d || a == b) && FeedBits(k, c, a, 8) == FeedBits(k, d, b, 8)
      ==> c == d && a == b
  }

  lemma LawsMakeRoundsFeed<T(!new)>(k: Kernel<T>)
    requires Laws(k)
    ensures RoundsFeed(k)
  {
    forall c, b | k.isByte(b) ensures Round(k, c, b) == FeedBits(k, c, b, 8) { RoundFeedsAByte(k, c, b); }
  }

  /** The table loop computes the bit-serial checksum of every byte string. */
  lemma {:induction false} RoundsFeedBytes<T(!new)>(k: Kernel<T>, c: T, bytes: seq<T>)
    requires RoundsFeed(k) && AllBytes(k, bytes)
    ensures Rounds(k, c, bytes) == FeedBytes(k, c, bytes)
    decreases |bytes|
  {
    if bytes != [] {
      var n := |bytes| - 1;
      RoundsFeedBytes(k, c, bytes[..n]);
    }
  }

  /* -------- chunks and changes -------- */

  lemma {:induction false} FeedBytesConcat<T(!new)>(k: Kernel<T>, c: T, first: seq<T>, second: seq<T>)
    ensures FeedBytes(k, c, first + second) == FeedBytes(k, FeedBytes(k, c, first), second)
    decreases |second|
  {
    if second == [] {
      assert first + second == first;
    } else {
      var n := |second| - 1;
      assert (first + second)[..|first| + n] == first + second[..n];
      FeedBytesConcat(k, c, first, second[..n]);
    }
  }

  /** Different registers, or different bytes, never end alike. */
  lemma FeedByteIsInjective<T(!new)>(k: Kernel<T>, c: T, d: T, a: T, b: T)
    requires Laws(k) && k.isByte(a) && k.isByte(b)
    requires c == d || a == b
    requires FeedBits(k, c, a, 8) == FeedBits(k, d, b, 8)
    ensures c == d && a == b
  {
    FeedByteIsIterate(k, c, a);
    FeedByteIsIterate(k, d, b);
    IterateIsInjective(k, k.xor(c, a), k.xor(d, b), 8);
  }

  lemma LawsMakeFeedSeparate<T(!new)>(k: Kernel<T>)
    requires Laws(k)
    ensures FeedSeparates(k)
  {
    forall c, d, a, b {:trigger FeedBits(k, c, a, 8), FeedBits(k, d, b, 8)}
      | k.isByte(a) && k.isByte(b) && (c == d || a == b) && FeedBits(k, c, a, 8) == FeedBits(k, d, b, 8)
      ensures c == d && a == b
    {
      FeedByteIsInjective(k, c, d, a, b);
    }
  }

  lemma {:induction false} FeedBytesIsInjective<T(!new)>(k: Kernel<T>, c: T, d: T, bytes: seq<T>)
    requires FeedSeparates(k) && AllBytes(k, bytes)
    requires FeedBytes(k, c, bytes) == FeedBytes(k, d, bytes)
    ensures c == d
    decreases |bytes|
  {
    if bytes != [] {
      var n := |bytes| - 1;
      FeedBytesIsInjective(k, c, d, bytes[..n]);
    }
  }

  /** A byte string changed in one place only has another checksum. */
  lemma OneChangedByteShows<T(!new)>(k: Kernel<T>, c: T, before: seq<T>, a: T, b: T, after: seq<T>)
    requires FeedSeparates(k) && AllBytes(k, after) && k.isByte(a) && k.isByte(b) && a != b
    ensures FeedBytes(k, c, before + [a] + after) != FeedBytes(k, c, before + [b] + after)
  {
    var x := FeedBytes(k, c, before);
    FeedBytesConcat(k, c, before + [a], after);
    FeedBytesConcat(k, c, before + [b], after);
    AppendFeeds(k, c, before, a);
    AppendFeeds(k, c, before, b);
    if FeedBytes(k, c, before + [a] + after) == FeedBytes(k, c, before + [b] + after) {
      FeedBytesIsInjective(k, FeedBits(k, x, a, 8), FeedBits(k, x, b, 8), after);
    }
  }

  lemma AppendFeeds<T(!new)>(k: Kernel<T>, c: T, bytes: seq<T>, b: T)
    ensures FeedBytes(k, c, bytes + [b]) == FeedBits(k, FeedBytes(k, c, bytes), b, 8)
  {
    assert (bytes + [b])[..|bytes|] == bytes;
  }

  lemma AppendRounds<T(!new)>(k: Kernel<T>, c: T, bytes: seq<T>, b: T)
    ensures Rounds(k, c, bytes + [b]) == Round(k, Rounds(k, c, bytes), b)
  {
    assert (bytes + [b])[..|bytes|] == bytes;
  }
}
