/** Streams that present the bytes of another stream with every group of 2, 4, 8 or 12 reversed. */
module ByteSwap {

  import opened Common
  import opened Streams
  import opened Bits

  datatype Swap = Int16Swap | Int32Swap | Int64Swap | Int96Swap {
    function Size(): (n: nat)
      ensures n >= 2
    {
      match this
      case Int16Swap => 2
      case Int32Swap => 4
      case Int64Swap => 8
      case Int96Swap => 12
    }
  }

  /** The masks and divisions of each class. */
  function Masked(swap: Swap, p: nat): int {
    match swap
    case Int16Swap => And(p, 0x7FFF_FFFF_FFFF_FFFE) + 1 - p % 2
    case Int32Swap => And(p, 0x7FFF_FFFF_FFFF_FFFC) + 3 - p % 4
    case Int64Swap => And(p, 0x7FFF_FFFF_FFFF_FFF8) + 7 - p % 8
    case Int96Swap => p / 12 * 12 + 11 - p % 12
  }

  /** Where the byte at `p` of the swapped stream lies, in unchecked Int64 arithmetic. */
  function ComputeNextSwapPosition(swap: Swap, p: nat): int { ToInt64(Masked(swap, p)) }

  /* -------- the masks keep the group and the subtraction mirrors the place in it -------- */

  /** Positions are Int64 values that are not negative. */
  const MASK_RANGE: nat := 0x8000_0000_0000_0000

  /** The mirror image of `p` inside its group of `n`. */
  function Mirror(n: nat, p: nat): (q: nat)
    requires n > 0
  {
    p - p % n + (n - 1 - p % n)
  }

  /** A mask of ones above `k` zeros clears the lowest `k` bits. */
  lemma MaskClearsLowBits(q: nat, r: nat, k: nat, m: nat)
    requires q < Pow2(m) && r < Pow2(k)
    ensures And(q * Pow2(k) + r, (Pow2(m) - 1) * Pow2(k)) == q * Pow2(k)
  {
    AndHigh(q, Pow2(m) - 1, k, r);
    assert And(q, Pow2(m) - 1) == q by {
      AndLowMask(q, m);
      SmallRemainder(q, Pow2(m));
    }
  }

  lemma MaskPowers()
    ensures Pow2(1) == 2 && Pow2(2) == 4 && Pow2(3) == 8
    ensures Pow2(62) * 2 == Pow2(61) * 4 == Pow2(60) * 8 == MASK_RANGE
  {
    Pow2Values();
    Pow2Adds(16, 8);
    Pow2Adds(32, 24);
    Pow2Adds(56, 4);
  }

  /** At every position each class reverses the bytes of its groups, exactly where the mirror image is a
      position too; the one exception is the group of 12 that the range of Int64 cuts off. */
  lemma SwapPositionIsMirror(swap: Swap, p: nat)
    requires p < MASK_RANGE
    ensures ComputeNextSwapPosition(swap, p) == Mirror(swap.Size(), p) <==> Mirror(swap.Size(), p) < MASK_RANGE
    ensures Mirror(swap.Size(), p) >= MASK_RANGE ==> swap.Int96Swap? && ComputeNextSwapPosition(swap, p) < 0
  {
    MaskedIsMirror(swap, p);
    MirrorRange(swap, p);
    Int64Wraps(Mirror(swap.Size(), p));
  }

  lemma Int64Wraps(x: nat)
    requires x < 2 * MASK_RANGE
    ensures if x < MASK_RANGE then ToInt64(x) == x else ToInt64(x) < 0
  {}

  lemma MirrorRange(swap: Swap, p: nat)
    requires p < MASK_RANGE
    ensures Mirror(swap.Size(), p) < 2 * MASK_RANGE
    ensures Mirror(swap.Size(), p) >= MASK_RANGE ==> swap.Int96Swap?
  {
    match swap
    case Int16Swap =>
    case Int32Swap =>
    case Int64Swap =>
    case Int96Swap =>
  }

  lemma MaskedIsMirror(swap: Swap, p: nat)
    requires p < MASK_RANGE
    ensures Masked(swap, p) == Mirror(swap.Size(), p)
  {
    MaskPowers();
    match swap
    case Int16Swap => MaskClearsLowBits(p / 2, p % 2, 1, 62);
    case Int32Swap => MaskClearsLowBits(p / 4, p % 4, 2, 61);
    case Int64Swap => MaskClearsLowBits(p / 8, p % 8, 3, 60);
    case Int96Swap =>
  }

  /* -------- mirroring is its own inverse and keeps every whole number of groups -------- */

  lemma MirrorStaysInGroup(n: nat, p: nat)
    requires n > 0
    ensures Mirror(n, p) / n == p / n && Mirror(n, p) % n == n - 1 - p % n
  {
    ModUnique(Mirror(n, p), n, p / n, n - 1 - p % n);
  }

  lemma MirrorIsInvolution(n: nat, p: nat)
    requires n > 0
    ensures Mirror(n, Mirror(n, p)) == p
  {
    MirrorStaysInGroup(n, p);
  }

  lemma WholeGroupsBelow(n: nat, p: nat, whole: nat)
    requires n > 0 && whole % n == 0 && p < whole
    ensures p - p % n + n <= whole
  {
    var g, h := p / n, whole / n;
    if g >= h { ProductsKeepOrder(h, g, n); }
    ProductsKeepOrder(g + 1, h, n);
  }

  lemma ProductsKeepOrder(a: nat, b: nat, d: nat)
    ensures a <= b ==> a * d <= b * d
  {}

  lemma WholePart(n: nat, count: nat)
    requires n > 0
    ensures (count - count % n) % n == 0
  {
    ModUnique(count - count % n, n, count / n, 0);
  }

  /** The first `d` positions all mirror to below `count` exactly when they lie in its whole groups. */
  lemma MirrorsFitIff(n: nat, d: nat, count: nat)
    requires n > 0
    ensures (forall j: nat | j < d :: Mirror(n, j) < count) <==> d <= count - count % n
  {
    var whole := count - count % n;
    WholePart(n, count);
    if d <= whole {
      forall j: nat | j < d ensures Mirror(n, j) < count { WholeGroupsBelow(n, j, whole); }
    } else {
      assert Mirror(n, whole) >= count;
    }
  }

  /** Each class permutes the positions below `count` exactly when its group size divides `count`. */
  lemma SwapPermutesIff(swap: Swap, count: nat)
    requires count < MASK_RANGE
    ensures (forall p: nat | p < count :: 0 <= ComputeNextSwapPosition(swap, p) < count) <==> count % swap.Size() == 0
    ensures forall p: nat | p < count ::
              var q := ComputeNextSwapPosition(swap, p);
              0 <= q < count ==> ComputeNextSwapPosition(swap, q) == p
  {
    var n := swap.Size();
    forall p: nat | p < count
      ensures var m, q := Mirror(n, p), ComputeNextSwapPosition(swap, p); if m < MASK_RANGE then q == m else q < 0
    {
      SwapPositionIsMirror(swap, p);
    }
    MirrorsFitIff(n, count, count);
    forall p: nat | p < count ensures Mirror(n, Mirror(n, p)) == p { MirrorIsInvolution(n, p); }
  }

  /* -------- what the permutation does to bytes -------- */

  function Reversed(s: seq<byte>): (r: seq<byte>)
    ensures |r| == |s| && forall i | 0 <= i < |s| :: r[i] == s[|s| - 1 - i]
  {
    seq(|s|, i requires 0 <= i < |s| => s[|s| - 1 - i])
  }

  /** Every group of `n` bytes reversed, the groups in place. */
  function GroupsReversed(n: nat, s: seq<byte>): (r: seq<byte>)
    requires n > 0
    ensures |r| == |s|
    decreases |s|
  {
    if |s| < n then s else Reversed(s[..n]) + GroupsReversed(n, s[n..])
  }

  /** The bytes of `s` as a swapped stream presents them. */
  function Swapped(n: nat, s: seq<byte>): (r: seq<byte>)
    requires n > 0 && |s| % n == 0
    ensures |r| == |s|
    ensures forall i | 0 <= i < |s| :: Mirror(n, i) < |s| && r[i] == s[Mirror(n, i)]
  {
    MirrorsFitIff(n, |s|, |s|);
    seq<byte>(|s|, i requires 0 <= i < |s| => s[Mirror(n, i)])
  }

  /** Swapping twice gives the bytes back. */
  lemma SwappedTwice(n: nat, s: seq<byte>)
    requires n > 0 && |s| % n == 0
    ensures Swapped(n, Swapped(n, s)) == s
  {
    forall i | 0 <= i < |s| ensures Swapped(n, Swapped(n, s))[i] == s[i] { MirrorIsInvolution(n, i); }
  }

  lemma MirrorShifts(n: nat, base: nat, p: nat)
    requires n > 0 && base % n == 0
    ensures Mirror(n, base + p) == base + Mirror(n, p)
  {
    assert base + p == n * (base / n + p / n) + p % n;
    ModUnique(base + p, n, base / n + p / n, p % n);
  }

  lemma DropGroup(n: nat, length: nat)
    requires n > 0 && length % n == 0 && length > 0
    ensures length >= n && (length - n) % n == 0 && n % n == 0
  {
    ProductsKeepOrder(1, length / n, n);
    ModUnique(length - n, n, length / n - 1, 0);
  }

  lemma SliceOfSwapped(n: nat, s: seq<byte>, at: nat, count: nat)
    requires n > 0 && |s| % n == 0 && at % n == 0 && count % n == 0 && at + count <= |s|
    ensures Swapped(n, s[at..at + count]) == Swapped(n, s)[at..at + count]
  {
    var part := Swapped(n, s[at..at + count]);
    forall i {:trigger part[i]} | 0 <= i < count ensures part[i] == Swapped(n, s)[at + i] {
      MirrorShifts(n, at, i);
    }
  }

  lemma FirstGroup(n: nat, s: seq<byte>)
    requires n > 0 && |s| == n && n % n == 0
    ensures Swapped(n, s) == Reversed(s)
  {
    forall i | 0 <= i < n ensures Swapped(n, s)[i] == Reversed(s)[i] { SmallRemainder(i, n); }
  }

  lemma SwappedByGroups(n: nat, s: seq<byte>)
    requires n > 0 && |s| % n == 0 && |s| >= n && n % n == 0 && (|s| - n) % n == 0
    ensures Swapped(n, s) == Swapped(n, s[..n]) + Swapped(n, s[n..])
  {
    var first, rest := s[..n], s[n..];
    assert s[0..0 + n] == first && s[n..n + |rest|] == rest;
    SliceOfSwapped(n, s, 0, n);
    SliceOfSwapped(n, s, n, |rest|);
  }

  /** The position arithmetic reverses the bytes of each group and moves nothing else. */
  lemma {:induction false} SwappedReversesGroups(n: nat, s: seq<byte>)
    requires n > 0 && |s| % n == 0
    ensures Swapped(n, s) == GroupsReversed(n, s)
    decreases |s|
  {
    if s != [] {
      DropGroup(n, |s|);
      SwappedReversesGroups(n, s[n..]);
      FirstGroup(n, s[..n]);
      SwappedByGroups(n, s);
    }
  }

  /* -------- reading and writing through a swapped stream -------- */

  /** A base stream serves what it has; the rest of the inner buffer stays zero. */
  function Padded(data: seq<byte>, position: nat, count: nat): (r: seq<byte>)
    ensures |r| == count
    ensures forall i | 0 <= i < count :: r[i] == if position + i < |data| then data[position + i] else 0
  {
    Overlay(Zeros(count), 0, Fetch(data, position, count))
  }

  /** The calls that a swapped stream does not answer with an exception. */
  predicate Completes(n: nat, bufferLength: nat, position: int, offset: int, count: int)
    requires n > 0
  {
    && 0 <= position && 0 <= count
    && (count <= offset || (count % n <= offset && count <= bufferLength))
  }

  /** The loop body at `i` stays inside both buffers. */
  predicate InBounds(n: nat, bufferLength: nat, offset: int, count: nat, i: int)
    requires n > 0 && offset <= i
  {
    0 <= i < bufferLength && Mirror(n, i - offset) < count
  }

  /** The loop over `offset..count` stays in bounds exactly when `offset` leaves out the odd bytes. */
  lemma CompletesIffInBounds(n: nat, bufferLength: nat, position: nat, offset: int, count: nat)
    requires n > 0
    ensures Completes(n, bufferLength, position, offset, count)
       <==> forall i | offset <= i < count :: InBounds(n, bufferLength, offset, count, i)
  {
    if offset < count {
      MirrorsFitIff(n, count - offset, count);
      if forall i | offset <= i < count :: InBounds(n, bufferLength, offset, count, i) {
        assert InBounds(n, bufferLength, offset, count, offset);
        assert InBounds(n, bufferLength, offset, count, count - 1);
        forall j: nat | j < count - offset ensures Mirror(n, j) < count {
          assert InBounds(n, bufferLength, offset, count, offset + j);
        }
      }
    }
  }

  /** The caller's buffer after the loop has run over `offset..stop`. */
  function FilledTo(n: nat, was: seq<byte>, inner: seq<byte>, offset: int, stop: int): (r: seq<byte>)
    requires n > 0 && forall i | offset <= i < stop :: InBounds(n, |was|, offset, |inner|, i)
    ensures |r| == |was|
    ensures forall i | 0 <= i < |was| ::
              r[i] == if offset <= i < stop
                      then assert InBounds(n, |was|, offset, |inner|, i); inner[Mirror(n, i - offset)]
                      else was[i]
  {
    seq<byte>(|was|, i requires 0 <= i < |was| =>
      if offset <= i < stop then assert InBounds(n, |was|, offset, |inner|, i); inner[Mirror(n, i - offset)]
      else was[i])
  }

  /** The inner buffer after the loop of a write has run over `offset..stop`. */
  function Gathered(n: nat, buffer: seq<byte>, offset: int, stop: int, count: nat): (r: seq<byte>)
    requires n > 0 && (offset < stop ==> 0 <= offset && stop <= |buffer|)
    ensures |r| == count
    ensures forall q | 0 <= q < count ::
              r[q] == if offset + Mirror(n, q) < stop then buffer[offset + Mirror(n, q)] else 0
  {
    seq<byte>(count, q requires 0 <= q < count =>
      if offset + Mirror(n, q) < stop then buffer[offset + Mirror(n, q)] else 0)
  }

  lemma GatherOne(n: nat, buffer: seq<byte>, offset: int, i: int, count: nat)
    requires n > 0 && 0 <= i < |buffer| && 0 <= offset <= i && Mirror(n, i - offset) < count
    ensures Gathered(n, buffer, offset, i, count)[Mirror(n, i - offset) := buffer[i]]
         == Gathered(n, buffer, offset, i + 1, count)
  {
    MirrorIsInvolution(n, i - offset);
    forall q | 0 <= q < count && Mirror(n, q) == i - offset ensures q == Mirror(n, i - offset) {
      MirrorIsInvolution(n, q);
    }
  }

  /** With no offset and whole groups, a read fills the buffer with the swapped bytes. */
  lemma ReadSwapsTheBytes(n: nat, was: seq<byte>, data: seq<byte>, position: nat, count: nat)
    requires n > 0 && count % n == 0 && count <= |was|
    ensures forall i | 0 <= i < count :: InBounds(n, |was|, 0, count, i)
    ensures FilledTo(n, was, Padded(data, position, count), 0, count)
         == Swapped(n, Padded(data, position, count)) + was[count..]
  {
    CompletesIffInBounds(n, |was|, position, 0, count);
  }

  /** With no offset and whole groups, a write hands on the swapped bytes. */
  lemma WriteSwapsTheBytes(n: nat, buffer: seq<byte>, count: nat)
    requires n > 0 && count % n == 0 && count <= |buffer|
    ensures Gathered(n, buffer, 0, count, count) == Swapped(n, buffer[..count])
  {
    MirrorsFitIff(n, count, count);
  }

  /** The inner buffer holds the caller's byte `i` where the loop put it. */
  predicate Placed(n: nat, inner: seq<byte>, buffer: seq<byte>, offset: nat, i: int)
    requires n > 0 && offset <= i
  {
    InBounds(n, |buffer|, offset, |inner|, i) && inner[Mirror(n, i - offset)] == buffer[i]
  }

  lemma GatheredAt(n: nat, buffer: seq<byte>, offset: nat, count: nat, i: int)
    requires n > 0 && offset <= i < count <= |buffer| && InBounds(n, |buffer|, offset, count, i)
    ensures Placed(n, Gathered(n, buffer, offset, count, count), buffer, offset, i)
  {
    MirrorIsInvolution(n, i - offset);
  }

  lemma AllPlaced(n: nat, buffer: seq<byte>, offset: nat, count: nat)
    requires n > 0 && offset < count <= |buffer|
    requires forall i | offset <= i < count :: InBounds(n, |buffer|, offset, count, i)
    ensures forall i | offset <= i < count ::
              Placed(n, Gathered(n, buffer, offset, count, count), buffer, offset, i)
  {
    forall i | offset <= i < count
      ensures Placed(n, Gathered(n, buffer, offset, count, count), buffer, offset, i)
    {
      assert InBounds(n, |buffer|, offset, count, i);
      GatheredAt(n, buffer, offset, count, i);
    }
  }

  lemma FilledRestores(n: nat, buffer: seq<byte>, was: seq<byte>, inner: seq<byte>, offset: nat)
    requires n > 0 && offset < |inner| <= |was| == |buffer|
    requires forall i | offset <= i < |inner| :: Placed(n, inner, buffer, offset, i)
    ensures forall i | offset <= i < |inner| :: InBounds(n, |was|, offset, |inner|, i)
    ensures FilledTo(n, was, inner, offset, |inner|) == was[..offset] + buffer[offset..|inner|] + was[|inner|..]
  {
    forall i | offset <= i < |inner|
      ensures InBounds(n, |was|, offset, |inner|, i) && inner[Mirror(n, i - offset)] == buffer[i]
    {
      assert Placed(n, inner, buffer, offset, i);
    }
  }

  /** Reading back what a completed write stored gives the caller's bytes, whatever the offset. */
  lemma WriteThenReadIsIdentity(n: nat, buffer: seq<byte>, was: seq<byte>, data: seq<byte>, position: nat,
                                offset: nat, count: nat, inner: seq<byte>)
    requires n > 0 && |was| == |buffer| && Completes(n, |buffer|, position, offset, count)
    requires offset < count && position + count <= |data|
    requires inner == Padded(Deposit(data, position, Gathered(n, buffer, offset, count, count)), position, count)
    ensures forall i | offset <= i < count :: InBounds(n, |was|, offset, |inner|, i)
    ensures FilledTo(n, was, inner, offset, count) == was[..offset] + buffer[offset..count] + was[count..]
  {
    CompletesIffInBounds(n, |was|, position, offset, count);
    DepositThenPad(data, position, Gathered(n, buffer, offset, count, count));
    AllPlaced(n, buffer, offset, count);
    FilledRestores(n, buffer, was, inner, offset);
  }

  lemma DepositThenPad(data: seq<byte>, position: nat, piece: seq<byte>)
    requires position + |piece| <= |data|
    ensures Padded(Deposit(data, position, piece), position, |piece|) == piece
  {}

  /** A positive offset makes a write store zeros in place of the bytes that it leaves out. */
  lemma OffsetWritesZeros(n: nat, buffer: seq<byte>, offset: nat, count: nat, j: nat)
    requires n > 0 && count % n == 0 && offset < count <= |buffer| && count - offset <= j < count
    ensures Mirror(n, j) < count && Gathered(n, buffer, offset, count, count)[Mirror(n, j)] == 0
  {
    MirrorsFitIff(n, count, count);
    MirrorIsInvolution(n, j);
  }

  /** What the caller of a write means: its bytes from `offset` on, with their groups reversed. */
  ghost predicate WritesAsMeant(n: nat, buffer: seq<byte>, offset: nat, count: nat)
    requires n > 0 && count % n == 0 && offset < count && offset + count <= |buffer|
  {
    Gathered(n, buffer, offset, count, count) == Swapped(n, buffer[offset..offset + count])
  }

  /** A write hands on what the caller means, for every buffer, exactly when the offset is 0. */
  lemma WritesAsMeantIff(n: nat, length: nat, offset: nat, count: nat)
    requires n > 0 && count % n == 0 && offset < count && offset + count <= length
    ensures (forall buffer: seq<byte> | |buffer| == length :: WritesAsMeant(n, buffer, offset, count)) <==> offset == 0
  {
    if offset == 0 {
      forall buffer: seq<byte> | |buffer| == length ensures WritesAsMeant(n, buffer, 0, count) {
        WriteSwapsTheBytes(n, buffer, count);
        assert buffer[0..0 + count] == buffer[..count];
      }
    } else {
      var j := count - offset;
      var buffer := Zeros(length)[count := 1];
      OffsetWritesZeros(n, buffer, offset, count, j);
      MirrorIsInvolution(n, j);
      assert Swapped(n, buffer[offset..offset + count])[Mirror(n, j)] == buffer[offset + j] == 1;
      assert !WritesAsMeant(n, buffer, offset, count);
    }
  }

  /** What the caller of a read means: the reversed groups from `offset` on. */
  ghost predicate ReadsAsMeant(n: nat, was: seq<byte>, data: seq<byte>, position: nat, offset: nat, count: nat)
    requires n > 0 && count % n == 0 && offset < count && offset + count <= |was|
    requires forall i | offset <= i < count :: InBounds(n, |was|, offset, count, i)
  {
    FilledTo(n, was, Padded(data, position, count), offset, count)
    == was[..offset] + Swapped(n, Padded(data, position, count)) + was[offset + count..]
  }

  /** A read fills the buffer as the caller means, for every content of the stream, exactly when the
      offset is 0. */
  lemma ReadsAsMeantIff(n: nat, was: seq<byte>, length: nat, position: nat, offset: nat, count: nat)
    requires n > 0 && count % n == 0 && offset < count && offset + count <= |was| && position + count <= length
    ensures forall i | offset <= i < count :: InBounds(n, |was|, offset, count, i)
    ensures (forall data: seq<byte> | |data| == length :: ReadsAsMeant(n, was, data, position, offset, count))
       <==> offset == 0
  {
    CompletesIffInBounds(n, |was|, position, offset, count);
    if offset == 0 {
      forall data: seq<byte> | |data| == length ensures ReadsAsMeant(n, was, data, position, 0, count) {
        ReadSwapsTheBytes(n, was, data, position, count);
      }
    } else {
      var data := ReadLeavesOut(n, was, length, position, offset, count);
      assert !ReadsAsMeant(n, was, data, position, offset, count);
    }
  }

  /** With a positive offset the byte at `count` of the buffer stays as it was. */
  lemma ReadLeavesOut(n: nat, was: seq<byte>, length: nat, position: nat, offset: nat, count: nat)
    returns (data: seq<byte>)
    requires n > 0 && count % n == 0 && 0 < offset < count && offset + count <= |was| && position + count <= length
    requires forall i | offset <= i < count :: InBounds(n, |was|, offset, count, i)
    ensures |data| == length
    ensures FilledTo(n, was, Padded(data, position, count), offset, count)[count]
         != (was[..offset] + Swapped(n, Padded(data, position, count)) + was[offset + count..])[count]
  {
    var j := count - offset;
    MirrorsFitIff(n, count, count);
    assert Mirror(n, j) < count;
    data := Zeros(length)[position + Mirror(n, j) := if was[count] == 0 then 1 else 0];
    assert Swapped(n, Padded(data, position, count))[j] == data[position + Mirror(n, j)];
  }

  /** Where a read starting inside a group differs from the swapped image: the last byte of the group
      that it counts from its own start. */
  lemma UnalignedReadDiffers(n: nat, length: nat, position: nat, count: nat) returns (image: seq<byte>)
    requires n > 1 && length % n == 0 && count % n == 0 && 0 < count && position + count <= length
    requires position % n != 0
    ensures |image| == length
    ensures Swapped(n, Padded(image, position, count))[0] == 1 && Swapped(n, image)[position] == 0
  {
    DropGroup(n, count);
    FirstMirror(n);
    image := Zeros(length)[position + n - 1 := 1];
    MirrorsFitIff(n, length, length);
    assert Mirror(n, position) != position + n - 1;
  }

  lemma FirstMirror(n: nat)
    requires n > 0
    ensures Mirror(n, 0) == n - 1
  {}

  ghost predicate ReadShowsSlice(n: nat, image: seq<byte>, position: nat, count: nat)
    requires n > 1 && |image| % n == 0 && count % n == 0 && position + count <= |image|
  {
    Swapped(n, Padded(image, position, count)) == Swapped(n, image)[position..position + count]
  }

  lemma AlignedReadShowsSlice(n: nat, image: seq<byte>, position: nat, count: nat)
    requires n > 1 && |image| % n == 0 && count % n == 0 && position + count <= |image| && position % n == 0
    ensures ReadShowsSlice(n, image, position, count)
  {
    assert Padded(image, position, count) == image[position..position + count];
    SliceOfSwapped(n, image, position, count);
  }

  /** Swapping counts groups from where a read starts, so a read shows a slice of the swapped image
      for every image exactly when it starts between two groups. */
  lemma ReadsSliceTheImageIff(n: nat, length: nat, position: nat, count: nat)
    requires n > 1 && length % n == 0 && count % n == 0 && 0 < count && position + count <= length
    ensures (forall image: seq<byte> | |image| == length :: ReadShowsSlice(n, image, position, count))
       <==> position % n == 0
  {
    if position % n == 0 {
      forall image: seq<byte> | |image| == length ensures ReadShowsSlice(n, image, position, count) {
        AlignedReadShowsSlice(n, image, position, count);
      }
    } else {
      var image := UnalignedReadDiffers(n, length, position, count);
      assert Swapped(n, image)[position..position + count][0] == 0;
      assert !ReadShowsSlice(n, image, position, count);
    }
  }

  class ByteSwapStream {
    const swap: Swap
    const baseStream: ByteStream

    constructor (swap: Swap, baseStream: ByteStream)
      ensures this.swap == swap && this.baseStream == baseStream
    {
      this.swap, this.baseStream := swap, baseStream;
    }

    /** The loop of Read; `ok` is false where an index goes out of range. */
    method Scatter(buffer: array<byte>, inner: array<byte>, offset: int32, count: nat) returns (ok: bool, stop: int)
      requires buffer != inner && inner.Length == count <= INT32_MAX
      modifies buffer
      ensures ok <==> forall i | offset <= i < count :: InBounds(swap.Size(), buffer.Length, offset, count, i)
      ensures ok ==> stop == Max(offset, count)
      ensures offset <= stop && forall i | offset <= i < stop :: InBounds(swap.Size(), buffer.Length, offset, count, i)
      ensures buffer[..] == FilledTo(swap.Size(), old(buffer[..]), inner[..], offset, stop)
    {
      ok, stop := true, offset;
      while stop < count && ok
        invariant offset <= stop <= Max(offset, count)
        invariant forall i | offset <= i < stop :: InBounds(swap.Size(), buffer.Length, offset, count, i)
        invariant !ok ==> stop < count && !InBounds(swap.Size(), buffer.Length, offset, count, stop)
        invariant buffer[..] == FilledTo(swap.Size(), old(buffer[..]), inner[..], offset, stop)
        decreases count - stop, if ok then 1 else 0
      {
        ok := ScatterAt(buffer, inner, offset, stop, old(buffer[..]));
        stop := if ok then stop + 1 else stop;
      }
    }

    method ScatterAt(buffer: array<byte>, inner: array<byte>, offset: int32, i: int32, ghost was: seq<byte>)
      returns (ok: bool)
      requires buffer != inner && inner.Length <= INT32_MAX && offset <= i < inner.Length && |was| == buffer.Length
      requires forall k | offset <= k < i :: InBounds(swap.Size(), |was|, offset, inner.Length, k)
      requires buffer[..] == FilledTo(swap.Size(), was, inner[..], offset, i)
      modifies buffer
      ensures ok == InBounds(swap.Size(), buffer.Length, offset, inner.Length, i)
      ensures ok ==> buffer[..] == FilledTo(swap.Size(), was, inner[..], offset, i + 1)
      ensures !ok ==> buffer[..] == old(buffer[..])
    {
      SwapPositionIsMirror(swap, i - offset);
      var from := ComputeNextSwapPosition(swap, i - offset);
      ok := from < inner.Length && 0 <= i < buffer.Length;
      if ok {
        buffer[i] := inner[from];
      }
    }

    /** `ok` is false where the C# stream throws. A short base stream still counts as a full read. */
    method Read(buffer: array<byte>, offset: int32, count: int32) returns (ok: bool)
      requires baseStream.Valid()
      modifies baseStream`position, buffer
      ensures ok == Completes(swap.Size(), buffer.Length, old(baseStream.position), offset, count)
      ensures forall i | 0 <= i < buffer.Length && buffer[i] != old(buffer[i]) ::
                && 0 <= old(baseStream.position) && offset <= i < count
                && InBounds(swap.Size(), buffer.Length, offset, count, i)
                && buffer[i] == Padded(baseStream.data, old(baseStream.position), count)[Mirror(swap.Size(), i - offset)]
      ensures ok ==>
                && (forall i | offset <= i < count :: InBounds(swap.Size(), buffer.Length, offset, count, i))
                && buffer[..] == FilledTo(swap.Size(), old(buffer[..]),
                                          Padded(baseStream.data, old(baseStream.position), count), offset, count)
                && baseStream.position
                   == old(baseStream.position) + Served(baseStream.length, old(baseStream.position), count)
    {
      ok := false;
      if count >= 0 {
        var inner := new byte[count](_ => 0);
        assert inner[..] == Zeros(count);
        ok := baseStream.Read(inner, 0, count);
        if ok {
          CompletesIffInBounds(swap.Size(), buffer.Length, old(baseStream.position), offset, count);
          var stop;
          ok, stop := Scatter(buffer, inner, offset, count);
        }
      }
    }

    /** The loop of Write; `ok` is false where an index goes out of range. */
    method Gather(buffer: array<byte>, inner: array<byte>, offset: int32, count: nat) returns (ok: bool)
      requires buffer != inner && inner.Length == count <= INT32_MAX && inner[..] == Zeros(count)
      modifies inner
      ensures ok <==> forall i | offset <= i < count :: InBounds(swap.Size(), buffer.Length, offset, count, i)
      ensures ok && offset < count ==> 0 <= offset && count <= buffer.Length
      ensures ok ==> inner[..] == Gathered(swap.Size(), buffer[..], offset, count, count)
    {
      ok := true;
      var i := offset;
      ghost var n, bytes := swap.Size(), buffer[..];
      while i < count && ok
        invariant buffer[..] == bytes && offset <= i <= Max(offset, count)
        invariant offset < i ==> 0 <= offset && i <= |bytes|
        invariant forall k | offset <= k < i :: InBounds(n, |bytes|, offset, count, k)
        invariant !ok ==> i < count && !InBounds(n, |bytes|, offset, count, i)
        invariant inner[..] == Gathered(n, bytes, offset, i, count)
        decreases count - i, if ok then 1 else 0
      {
        ok := GatherAt(buffer, inner, offset, i, count);
        i := if ok then i + 1 else i;
      }
    }

    method GatherAt(buffer: array<byte>, inner: array<byte>, offset: int32, i: int32, count: nat) returns (ok: bool)
      requires buffer != inner && inner.Length == count <= INT32_MAX
      requires offset <= i && (offset < i ==> 0 <= offset && i <= buffer.Length)
      requires inner[..] == Gathered(swap.Size(), buffer[..], offset, i, count)
      modifies inner
      ensures ok == InBounds(swap.Size(), buffer.Length, offset, count, i)
      ensures ok ==> 0 <= offset && i < buffer.Length
      ensures inner[..] == if ok then Gathered(swap.Size(), buffer[..], offset, i + 1, count) else old(inner[..])
    {
      SwapPositionIsMirror(swap, i - offset);
      var to := ComputeNextSwapPosition(swap, i - offset);
      ok := 0 <= i < buffer.Length && to < count;
      if ok {
        GatherOne(swap.Size(), buffer[..], offset, i, count);
        inner[to] := buffer[i];
      }
    }

    /** `ok` is false where the C# stream throws, always before the base stream has changed. */
    method Write(buffer: array<byte>, offset: int32, count: int32) returns (ok: bool)
      requires baseStream.Valid()
      modifies baseStream`position, baseStream`data
      ensures baseStream.Valid()
      ensures ok == Completes(swap.Size(), buffer.Length, old(baseStream.position), offset, count)
      ensures !ok ==> baseStream.data == old(baseStream.data) && baseStream.position == old(baseStream.position)
      ensures ok ==>
                && (offset < count ==> 0 <= offset && count <= buffer.Length)
                && baseStream.data == Deposit(old(baseStream.data), old(baseStream.position),
                                              Gathered(swap.Size(), buffer[..], offset, count, count))
                && baseStream.position
                   == old(baseStream.position) + Served(baseStream.length, old(baseStream.position), count)
    {
      ok := false;
      if count >= 0 {
        var inner := new byte[count](_ => 0);
        assert inner[..] == Zeros(count);
        ok := Gather(buffer, inner, offset, count);
        if baseStream.position >= 0 {
          CompletesIffInBounds(swap.Size(), buffer.Length, baseStream.position, offset, count);
        }
        if ok {
          ok := baseStream.Write(inner, 0, count);
          assert inner[0..0 + count] == inner[..];
        }
      }
    }
  }
}
