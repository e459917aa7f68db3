/** The lazily loaded block cache over a cartridge image: `BlockStream` with the loader of `_RomBlockStream`. */
module BlockStreams {
  import opened Common
  import Bits
  import opened Streams

  const BLOCK := 15360

  /** A byte of the image, 0 beyond its end. */
  function SourceByte(source: seq<byte>, x: nat): byte { if x < |source| then source[x] else 0 }

  /** What `LoadBlock` puts into a new block. */
  function LoadedBlock(source: seq<byte>, k: nat): (b: seq<byte>)
    ensures |b| == BLOCK
  {
    seq<byte>(BLOCK, i requires 0 <= i < BLOCK => SourceByte(source, k * BLOCK + i))
  }

  type Table = seq<Option<seq<byte>>>

  predicate WellFormed(blocks: Table) {
    forall k | 0 <= k < |blocks| :: blocks[k].Some? ==> |blocks[k].value| == BLOCK
  }

  function BlockCount(source: seq<byte>): nat { |source| / BLOCK + 1 }

  predicate Cached(blocks: Table, k: int) { 0 <= k < |blocks| && blocks[k].Some? }

  /** The byte that the stream shows at `x`: the cached one, or the image's. */
  function ByteAt(source: seq<byte>, blocks: Table, x: nat): byte
    requires WellFormed(blocks)
  {
    var k := x / BLOCK;
    if k < |blocks| && blocks[k].Some? then blocks[k].value[x % BLOCK] else SourceByte(source, x)
  }

  /** `after` may have loaded more blocks, but shows the same bytes. */
  ghost predicate Loads(source: seq<byte>, before: Table, after: Table) {
    && |after| == |before|
    && forall k | 0 <= k < |before| ::
         after[k] == before[k] || (before[k].None? && after[k] == Some(LoadedBlock(source, k)))
  }

  lemma LoadsShowsTheSame(source: seq<byte>, before: Table, after: Table, x: nat)
    requires WellFormed(before) && WellFormed(after) && Loads(source, before, after)
    ensures ByteAt(source, after, x) == ByteAt(source, before, x)
  {
    var k := x / BLOCK;
    assert k * BLOCK + x % BLOCK == x;
  }

  /** Every cached block equals its zero-padded slice of the image. */
  ghost predicate Clean(source: seq<byte>, blocks: Table) {
    forall k | 0 <= k < |blocks| :: blocks[k].None? || blocks[k] == Some(LoadedBlock(source, k))
  }

  lemma LoadsChain(source: seq<byte>, a: Table, b: Table, c: Table)
    requires Loads(source, a, b) && Loads(source, b, c)
    ensures Loads(source, a, c)
  {}

  lemma LoadsKeepsClean(source: seq<byte>, before: Table, after: Table)
    requires Clean(source, before) && Loads(source, before, after)
    ensures Clean(source, after)
  {}

  /** A clean table shows the image itself. */
  lemma CleanShowsTheImage(source: seq<byte>, blocks: Table, x: nat)
    requires WellFormed(blocks) && Clean(source, blocks)
    ensures ByteAt(source, blocks, x) == SourceByte(source, x)
  {
    assert x / BLOCK * BLOCK + x % BLOCK == x;
  }

  /** Block cache read agreement: from a clean table a read returns the image's bytes, zero beyond its
      end, and leaves the table clean. */
  lemma CleanReadsReturnTheImage(source: seq<byte>, start: View, now: View, offset: int, count: nat, read: nat, ok: bool)
    requires ReadOutcome(source, start, now, offset, count, read, ok) && Clean(source, start.blocks)
    ensures Clean(source, now.blocks)
    ensures |now.buffer| == |start.buffer|
    ensures forall i | 0 <= i < |now.buffer| :: now.buffer[i] ==
              if offset <= i < offset + read then SourceByte(source, start.position + i - offset) else start.buffer[i]
  {
    LoadsKeepsClean(source, start.blocks, now.blocks);
    var shown := Shown(source, start.blocks, start.position, read);
    forall i | 0 <= i < read ensures shown[i] == SourceByte(source, start.position + i) {
      CleanShowsTheImage(source, start.blocks, start.position + i);
    }
  }

  /* -------- which requests complete -------- */

  function LastBlock(position: nat, count: nat): nat
    requires count > 0
  {
    (position + count - 1) / BLOCK
  }

  /** A read completes exactly when its blocks are in the table and its first block is cached, or the
      position is block-aligned, or the range stays in one block. */
  predicate ReadCompletes(blocks: Table, position: nat, count: nat) {
    count == 0 ||
    (&& LastBlock(position, count) < |blocks|
     && (Cached(blocks, position / BLOCK) || position % BLOCK == 0 || position % BLOCK + count <= BLOCK))
  }

  lemma RangesWithinTheImageAreInTheTable(source: seq<byte>, position: nat, count: nat)
    requires 0 < count && position + count <= |source|
    ensures LastBlock(position, count) < BlockCount(source)
  {}

  /** The table has exactly the blocks that start in the image or at its end. */
  lemma BlockIsInTheTableIff(source: seq<byte>, k: nat)
    ensures k < BlockCount(source) <==> k * 15360 <= |source|
  {}

  /** The bytes left in the block of `position`. */
  function Room(position: nat): nat { BLOCK - position % BLOCK }

  /** Whether a chunk of the read loop is copied, or `Array.Copy` or the table's bounds throw. */
  predicate ChunkOk(blocks: Table, position: nat, count: nat) {
    position / BLOCK < |blocks| && (Cached(blocks, position / BLOCK) || position % BLOCK + Min(count, BLOCK) <= BLOCK)
  }

  function ChunkSize(blocks: Table, position: nat, count: nat): nat {
    if !ChunkOk(blocks, position, count) then 0
    else if Cached(blocks, position / BLOCK) then Min(count, Room(position)) else Min(count, BLOCK)
  }

  /** How many bytes a write stores before it returns or throws. */
  function Written(blocks: int, position: nat, count: nat): nat {
    if count == 0 || position / BLOCK >= blocks then 0
    else if count <= Room(position) then count
    else
      var excess := count - Room(position);
      if Room(position) % excess != 0 then Room(position) - Room(position) % excess
      else if position / BLOCK + 1 < blocks then count else Room(position)
  }

  /** A write completes exactly when its blocks are in the table and it stays in the first block or the
      excess over that block divides what was left of it. */
  predicate WriteCompletes(blocks: int, position: nat, count: nat) {
    count == 0 ||
    (&& LastBlock(position, count) < blocks
     && (count <= Room(position) || Room(position) % (count - Room(position)) == 0))
  }

  lemma WriteStoresAllIff(blocks: nat, position: nat, count: nat)
    ensures Written(blocks, position, count) == count <==> WriteCompletes(blocks, position, count)
    ensures Written(blocks, position, count) <= count
  {
    if count > Room(position) {
      var excess := count - Room(position);
      if Room(position) % excess == 0 { ExcessIsSmall(Room(position), excess); }
    }
  }

  lemma ExcessIsSmall(room: nat, excess: nat)
    requires room > 0 && excess > 0 && room % excess == 0
    ensures excess <= room
  {}

  /* -------- one chunk -------- */

  /** Laying a piece into a cached block changes exactly the addresses it covers. */
  lemma OverlayShows(source: seq<byte>, blocks: Table, position: nat, piece: seq<byte>, x: nat)
    requires WellFormed(blocks) && Cached(blocks, position / BLOCK) && position % BLOCK + |piece| <= BLOCK
    ensures var k := position / BLOCK;
      var after := blocks[k := Some(Overlay(blocks[k].value, position % BLOCK, piece))];
      && WellFormed(after)
      && ByteAt(source, after, x)
         == if position <= x < position + |piece| then piece[x - position] else ByteAt(source, blocks, x)
  {
    var k := position / BLOCK;
    assert k * BLOCK + position % BLOCK == position;
    assert x / BLOCK * BLOCK + x % BLOCK == x;
    if position <= x < position + |piece| { SameBlock(position, x); }
    if x / BLOCK == k { assert x % BLOCK - position % BLOCK == x - position; }
  }

  lemma SameBlock(position: nat, x: nat)
    requires position <= x && position % BLOCK + (x - position) < BLOCK
    ensures x / BLOCK == position / BLOCK && x % BLOCK == position % BLOCK + (x - position)
  {}

  /** The buffer handed to `Write` is only read, so it is passed as a value. */
  class RomBlockStream {
    const source: seq<byte>
    var blocks: Table
    var position: nat

    ghost predicate Valid()
      reads this
    {
      WellFormed(blocks) && |blocks| == BlockCount(source)
    }

    constructor (image: seq<byte>)
      ensures Valid() && source == image && position == 0 && Clean(source, blocks)
    {
      source, position, blocks := image, 0, seq(BlockCount(image), _ => None);
    }

    predicate BlockExists(index: nat)
      reads this
      requires index < |blocks|
    {
      blocks[index] != None
    }

    method ClearCache()
      modifies this`blocks
      ensures Valid() && forall k | 0 <= k < |blocks| :: blocks[k] == None
    {
      blocks := seq(BlockCount(source), _ => None);
    }

    /** `_RomBlockStream.LoadBlock` always fills the lazy buffer. */
    method LoadBlock(index: nat)
      requires Valid() && index < |blocks| && blocks[index].None?
      modifies this`blocks
      ensures Valid() && blocks == old(blocks)[index := Some(LoadedBlock(source, index))]
    {
      blocks := blocks[index := Some(LoadedBlock(source, index))];
    }

    /** `Array.Copy` out of a block; false where it throws. */
    method CopyOut(index: nat, blockOffset: nat, buffer: array<byte>, offset: int, count: nat) returns (ok: bool)
      requires Valid() && Cached(blocks, index) && count > 0
      modifies buffer
      ensures ok == (blockOffset + count <= BLOCK && Fits(buffer.Length, offset, count))
      ensures buffer[..] == if ok then Filled(old(buffer[..]), offset, blocks[index].value[blockOffset..blockOffset + count])
                            else old(buffer[..])
    {
      ok := blockOffset + count <= BLOCK && 0 <= offset && offset + count <= buffer.Length;
      if ok {
        var block := blocks[index].value;
        forall i | 0 <= i < count {
          buffer[offset + i] := block[blockOffset + i];
        }
      }
    }

    /** `Array.Copy` into a block; false where it throws. */
    method CopyIn(buffer: seq<byte>, offset: int, index: nat, blockOffset: nat, count: nat) returns (ok: bool)
      requires Valid() && Cached(blocks, index) && count > 0
      modifies this`blocks
      ensures Valid() && ok == (blockOffset + count <= BLOCK && Fits(|buffer|, offset, count))
      ensures blocks == if ok then old(blocks)[index := Some(Overlay(old(blocks)[index].value, blockOffset, Slice(buffer, offset, count)))]
                        else old(blocks)
    {
      ok := blockOffset + count <= BLOCK && 0 <= offset && offset + count <= |buffer|;
      if ok {
        blocks := blocks[index := Some(Overlay(blocks[index].value, blockOffset, buffer[offset..offset + count]))];
      }
    }

    /** One turn of the read loop; the chunk of a missing block ignores the offset inside it. */
    method ReadChunk(buffer: array<byte>, offset: int, count: nat) returns (n: nat, ok: bool)
      requires Valid() && 0 < count
      modifies this, buffer
      ensures Valid() && Loads(source, old(blocks), blocks)
      ensures ok == (ChunkOk(old(blocks), old(position), count)
                     && Fits(buffer.Length, offset, ChunkSize(old(blocks), old(position), count)))
      ensures n == if ok then ChunkSize(old(blocks), old(position), count) else 0
      ensures old(position) / BLOCK < |blocks| ==> Cached(blocks, old(position) / BLOCK)
      ensures position == old(position) + n
      ensures buffer[..] == Filled(old(buffer[..]), offset, Shown(source, old(blocks), old(position), n))
    {
      var blockOffset, blockIndex := position % BLOCK, position / BLOCK;
      ghost var before := blocks;
      assert Shown(source, before, position, 0) == [];
      if blockIndex >= |blocks| {
        return 0, false;
      }
      if !BlockExists(blockIndex) {
        n := if count >= BLOCK then BLOCK else count;
        LoadBlock(blockIndex);
      } else {
        n := if count <= BLOCK - blockOffset then count else BLOCK - blockOffset;
      }
      ok := CopyOut(blockIndex, blockOffset, buffer, offset, n);
      if ok {
        ShownInBlock(source, before, blocks, position, n);
        position := position + n;
      } else {
        n := 0;
      }
    }

    /** A turn of the read loop against what has been read so far. */
    method ReadMore(buffer: array<byte>, offset: int, count: nat, read: nat, ghost start: View) returns (n: nat, ok: bool)
      requires Valid() && ReadSoFar(source, start, View(blocks, position, buffer[..]), offset, count, read) && read < count
      modifies this, buffer
      ensures Valid()
      ensures ok ==> n > 0 && ReadSoFar(source, start, View(blocks, position, buffer[..]), offset, count, read + n)
      ensures !ok ==> ReadOutcome(source, start, View(blocks, position, buffer[..]), offset, count, read, false)
    {
      ghost var here := View(blocks, position, buffer[..]);
      n, ok := ReadChunk(buffer, offset + read, count - read);
      ghost var now := View(blocks, position, buffer[..]);
      if ok {
        ReadTurn(source, start, here, now, offset, count, read, n);
      } else {
        assert now.buffer == here.buffer;
        ReadFails(source, start, here, now, offset, count, read);
      }
    }

    /** `ok` is false where the C# method throws. */
    method Read(buffer: array<byte>, offset: int, count: int) returns (read: nat, ok: bool)
      requires Valid()
      modifies this, buffer
      ensures Valid()
      ensures ReadOutcome(source, old(View(blocks, position, buffer[..])), View(blocks, position, buffer[..]),
                          offset, Wanted(count), read, ok)
    {
      read := 0;
      ghost var start := View(blocks, position, buffer[..]);
      ghost var now := start;
      ReadStarts(source, start, offset, Wanted(count));
      while read < count
        invariant Valid() && now == View(blocks, position, buffer[..])
        invariant ReadSoFar(source, start, now, offset, Wanted(count), read)
      {
        var n;
        n, ok := ReadMore(buffer, offset, count, read, start);
        now := View(blocks, position, buffer[..]);
        if !ok { return; }
        read := read + n;
      }
      ReadEnds(source, start, now, offset, Wanted(count));
      ok := true;
    }

    /** One turn of the write loop; past the first block's room it takes the excess, not the room. */
    method WriteChunk(buffer: seq<byte>, offset: int, count: nat) returns (n: nat, ok: bool)
      requires Valid() && 0 < count
      modifies this
      ensures Valid()
      ensures ok == (StoreOk(|blocks|, old(position), count) && Fits(|buffer|, offset, StoreSize(old(position), count)))
      ensures n == if ok then StoreSize(old(position), count) else 0
      ensures position == old(position) + n
      ensures Stores(source, old(blocks), blocks, old(position), Slice(buffer, offset, n))
    {
      var blockOffset, blockIndex := position % BLOCK, position / BLOCK;
      ghost var before := blocks;
      if blockIndex >= |blocks| {
        StoresNothing(source, before, blocks, position);
        return 0, false;
      }
      if !BlockExists(blockIndex) {
        LoadBlock(blockIndex);
      }
      ghost var loaded := blocks;
      n := if count <= BLOCK - blockOffset then count else count - (BLOCK - blockOffset);
      ok := CopyIn(buffer, offset, blockIndex, blockOffset, n);
      if ok {
        StoresPiece(source, before, loaded, blocks, position, Slice(buffer, offset, n));
        position := position + n;
      } else {
        StoresNothing(source, before, loaded, position);
        n := 0;
      }
    }

    /** `ok` is false where the C# method throws. */
    method Write(buffer: seq<byte>, offset: int, count: int) returns (ok: bool)
      requires Valid()
      modifies this
      ensures Valid() && old(position) <= position <= old(position) + Wanted(count)
      ensures ok == (WriteCompletes(|blocks|, old(position), Wanted(count)) && Fits(|buffer|, offset, Wanted(count)))
      ensures Fits(|buffer|, offset, Wanted(count)) ==>
                position == old(position) + Written(|blocks|, old(position), Wanted(count))
      ensures Fits(|buffer|, offset, position - old(position))
      ensures Stores(source, old(blocks), blocks, old(position), Slice(buffer, offset, position - old(position)))
    {
      ghost var start, from := blocks, position;
      var done := 0;
      StoresNothing(source, start, blocks, from);
      while done < count
        invariant Valid() && position == from + done
        invariant WroteSoFar(source, start, blocks, from, buffer, offset, Wanted(count), done)
        decreases count - done
      {
        var n;
        n, ok := WriteMore(buffer, offset, count, done, start, from);
        if !ok { return; }
        done := done + n;
      }
      WriteEnds(|start|, from, Wanted(count));
      ok := true;
    }

    /** A turn of the write loop against what has been written so far. */
    method WriteMore(buffer: seq<byte>, offset: int, count: nat, done: nat, ghost start: Table, ghost from: nat)
      returns (n: nat, ok: bool)
      requires Valid() && position == from + done && done < count
      requires WroteSoFar(source, start, blocks, from, buffer, offset, count, done)
      modifies this
      ensures Valid() && position == from + done + n
      ensures ok ==> 0 < n <= count - done && WroteSoFar(source, start, blocks, from, buffer, offset, count, done + n)
      ensures !ok ==> n == 0 && !(WriteCompletes(|start|, from, count) && Fits(|buffer|, offset, count))
      ensures !ok && Fits(|buffer|, offset, count) ==> done == Written(|start|, from, count)
      ensures !ok ==> Stores(source, start, blocks, from, Slice(buffer, offset, done))
    {
      ghost var here := blocks;
      n, ok := WriteChunk(buffer, offset + done, count - done);
      WriteTurn(|start|, from, count, done, StoreOk(|start|, from + done, count - done));
      StoresMore(source, start, here, blocks, from, buffer, offset, done, n);
    }
  }

  ghost predicate WroteSoFar(source: seq<byte>, start: Table, now: Table, from: nat,
                             buffer: seq<byte>, offset: int, count: nat, done: nat) {
    && done <= count && Fits(|buffer|, offset, done)
    && WriteSoFar(|start|, from, count, done)
    && Stores(source, start, now, from, Slice(buffer, offset, done))
  }

  lemma WriteEnds(blocks: nat, from: nat, count: nat)
    requires WriteSoFar(blocks, from, count, count)
    ensures WriteCompletes(blocks, from, count) && Written(blocks, from, count) == count
  {
    WriteStoresAllIff(blocks, from, count);
  }

  lemma StoresMore(source: seq<byte>, a: Table, b: Table, c: Table, position: nat,
                   buffer: seq<byte>, offset: int, done: nat, n: nat)
    requires Fits(|buffer|, offset, done) && Fits(|buffer|, offset + done, n)
    requires Stores(source, a, b, position, Slice(buffer, offset, done))
    requires Stores(source, b, c, position + done, Slice(buffer, offset + done, n))
    ensures Fits(|buffer|, offset, done + n)
    ensures Stores(source, a, c, position, Slice(buffer, offset, done + n))
  {
    StoresChain(source, a, b, c, position, Slice(buffer, offset, done), Slice(buffer, offset + done, n));
    assert Slice(buffer, offset, done) + Slice(buffer, offset + done, n) == Slice(buffer, offset, done + n);
  }

  /** `after` shows the piece at `position` and otherwise what `before` shows. */
  ghost predicate Stores(source: seq<byte>, before: Table, after: Table, position: nat, piece: seq<byte>) {
    && |after| == |before| && WellFormed(before) && WellFormed(after)
    && forall x: nat :: ByteAt(source, after, x)
         == if position <= x < position + |piece| then piece[x - position] else ByteAt(source, before, x)
  }

  lemma StoresNothing(source: seq<byte>, before: Table, after: Table, position: nat)
    requires WellFormed(before) && WellFormed(after) && Loads(source, before, after)
    ensures Stores(source, before, after, position, [])
  {
    forall x: nat ensures ByteAt(source, after, x) == ByteAt(source, before, x) {
      LoadsShowsTheSame(source, before, after, x);
    }
  }

  lemma StoresPiece(source: seq<byte>, before: Table, loaded: Table, after: Table, position: nat, piece: seq<byte>)
    requires WellFormed(before) && WellFormed(loaded) && Loads(source, before, loaded)
    requires Cached(loaded, position / BLOCK) && position % BLOCK + |piece| <= BLOCK
    requires after == loaded[position / BLOCK := Some(Overlay(loaded[position / BLOCK].value, position % BLOCK, piece))]
    ensures Stores(source, before, after, position, piece)
  {
    OverlayShows(source, loaded, position, piece, 0);
    forall x: nat ensures ByteAt(source, after, x)
      == if position <= x < position + |piece| then piece[x - position] else ByteAt(source, before, x)
    {
      OverlayShows(source, loaded, position, piece, x);
      LoadsShowsTheSame(source, before, loaded, x);
    }
  }

  lemma StoresChain(source: seq<byte>, a: Table, b: Table, c: Table, position: nat, first: seq<byte>, second: seq<byte>)
    requires Stores(source, a, b, position, first) && Stores(source, b, c, position + |first|, second)
    ensures Stores(source, a, c, position, first + second)
  {
    forall x: nat ensures ByteAt(source, c, x)
      == if position <= x < position + |first + second| then (first + second)[x - position] else ByteAt(source, a, x)
    {
      assert ByteAt(source, b, x) == if position <= x < position + |first| then first[x - position] else ByteAt(source, a, x);
    }
  }

  function StoreSize(position: nat, count: nat): nat {
    if count <= Room(position) then count else count - Room(position)
  }

  predicate StoreOk(blocks: int, position: nat, count: nat) {
    position / BLOCK < blocks && position % BLOCK + StoreSize(position, count) <= BLOCK
  }

  /** A write longer than the room left advances by its excess, as far as that fits. */
  predicate WriteSoFar(blocks: nat, position: nat, count: nat, done: nat) {
    || done == 0
    || (&& position / BLOCK < blocks
        && if done == count then WriteCompletes(blocks, position, count)
           else count > Room(position) && done <= Room(position) && done % (count - Room(position)) == 0)
  }

  lemma WriteTurn(blocks: nat, position: nat, count: nat, done: nat, ok: bool)
    requires WriteSoFar(blocks, position, count, done) && done < count
    requires ok == StoreOk(blocks, position + done, count - done)
    ensures if ok then
              var n := StoreSize(position + done, count - done);
              0 < n <= count - done && WriteSoFar(blocks, position, count, done + n)
            else done == Written(blocks, position, count) && !WriteCompletes(blocks, position, count)
  {
    if count > Room(position) && position / BLOCK < blocks {
      if done < Room(position) {
        WriteTurnInside(blocks, position, count, done, count - Room(position));
      } else {
        WriteTurnBehind(blocks, position, count, done);
      }
    }
  }

  /** A turn that starts right behind the first block. */
  lemma WriteTurnBehind(blocks: nat, position: nat, count: nat, done: nat)
    requires WriteSoFar(blocks, position, count, done) && done == Room(position) < count
    ensures StoreOk(blocks, position + done, count - done) ==>
              StoreSize(position + done, count - done) == count - done && WriteCompletes(blocks, position, count)
    ensures !StoreOk(blocks, position + done, count - done) ==>
              done == Written(blocks, position, count) && !WriteCompletes(blocks, position, count)
  {
    NextBlock(position, done);
  }

  /** A turn that starts in the first block, of a write that is too long for it. */
  lemma WriteTurnInside(blocks: nat, position: nat, count: nat, done: nat, excess: nat)
    requires WriteSoFar(blocks, position, count, done) && done < Room(position)
    requires excess == count - Room(position) > 0 && position / BLOCK < blocks
    ensures StoreSize(position + done, count - done) == excess
    ensures StoreOk(blocks, position + done, count - done) <==> done + excess <= Room(position)
    ensures done + excess <= Room(position) ==> WriteSoFar(blocks, position, count, done + excess)
    ensures done + excess > Room(position) ==>
              done == Written(blocks, position, count) && !WriteCompletes(blocks, position, count)
  {
    InFirstBlock(position, done);
    assert done % excess == 0;
    ExcessTurn(Room(position), excess, done);
  }

  lemma InFirstBlock(position: nat, done: nat)
    requires done < Room(position)
    ensures (position + done) / BLOCK == position / BLOCK && Room(position + done) == Room(position) - done
  {
    SameBlock(position, position + done);
  }

  lemma ExcessTurn(room: nat, excess: nat, done: nat)
    requires excess > 0 && done < room && done % excess == 0
    ensures (done + excess) % excess == 0
    ensures excess > room - done ==> room % excess == room - done
    ensures excess == room - done ==> room % excess == 0
  {
    var q := done / excess;
    assert done == excess * q;
    assert done + excess == excess * (q + 1) by { assert excess * (q + 1) == excess * q + excess; }
    Bits.ModUnique(done + excess, excess, q + 1, 0);
    if excess > room - done { Bits.ModUnique(room, excess, q, room - done); }
  }

  /** `n` bytes of a buffer from `offset` on, none of them outside it. */
  predicate Fits(length: nat, offset: int, n: nat) { n == 0 || (0 <= offset && offset + n <= length) }

  /** A buffer with `piece` laid over it. */
  function Filled(buffer: seq<byte>, offset: int, piece: seq<byte>): (r: seq<byte>)
    requires Fits(|buffer|, offset, |piece|)
    ensures |r| == |buffer|
    ensures forall i | 0 <= i < |r| :: r[i] == if offset <= i < offset + |piece| then piece[i - offset] else buffer[i]
  {
    if piece == [] then buffer else Overlay(buffer, offset, piece)
  }

  /** The piece of a buffer that a copy takes. */
  function Slice(buffer: seq<byte>, offset: int, n: nat): (r: seq<byte>)
    requires Fits(|buffer|, offset, n)
    ensures |r| == n && forall i | 0 <= i < n :: r[i] == buffer[offset + i]
  {
    if n == 0 then [] else buffer[offset..offset + n]
  }

  /** A negative count asks for nothing. */
  function Wanted(count: int): nat { Max(count, 0) }

  /** Block table, position and caller's buffer. */
  datatype View = View(blocks: Table, position: nat, buffer: seq<byte>)

  /** What `Read` does: it completes exactly when `ReadCompletes` and the buffer has room for all bytes;
      the bytes it has read are those the stream showed at the position, which advances by their number;
      blocks are only loaded; and after a failure inside the table, the stream would yield the rest. */
  ghost predicate ReadOutcome(source: seq<byte>, start: View, now: View, offset: int, count: nat, read: nat, ok: bool) {
    && WellFormed(start.blocks) && Loads(source, start.blocks, now.blocks)
    && read <= count && Fits(|start.buffer|, offset, read)
    && ok == (ReadCompletes(start.blocks, start.position, count) && Fits(|start.buffer|, offset, count))
    && (ok ==> read == count)
    && now.position == start.position + read
    && now.buffer == Filled(start.buffer, offset, Shown(source, start.blocks, start.position, read))
    && (LastBlockInTable(start.blocks, start.position, count) ==> ReadCompletes(now.blocks, now.position, count - read))
  }

  ghost predicate ReadSoFar(source: seq<byte>, start: View, now: View, offset: int, count: nat, read: nat) {
    && WellFormed(start.blocks) && WellFormed(now.blocks) && Loads(source, start.blocks, now.blocks)
    && read <= count && Fits(|start.buffer|, offset, read)
    && now.position == start.position + read
    && (if read == 0 then now.blocks == start.blocks else Started(start.blocks, start.position, count, read))
    && now.buffer == Filled(start.buffer, offset, Shown(source, start.blocks, start.position, read))
  }

  lemma ReadStarts(source: seq<byte>, start: View, offset: int, count: nat)
    requires WellFormed(start.blocks)
    ensures ReadSoFar(source, start, start, offset, count, 0)
  {}

  lemma ReadTurn(source: seq<byte>, start: View, here: View, now: View, offset: int, count: nat, read: nat, n: nat)
    requires ReadSoFar(source, start, here, offset, count, read) && read < count
    requires WellFormed(now.blocks) && Loads(source, here.blocks, now.blocks)
    requires ChunkOk(here.blocks, here.position, count - read)
    requires n == ChunkSize(here.blocks, here.position, count - read) && Fits(|here.buffer|, offset + read, n)
    requires now.position == here.position + n
    requires now.buffer == Filled(here.buffer, offset + read, Shown(source, here.blocks, here.position, n))
    ensures n > 0 && ReadSoFar(source, start, now, offset, count, read + n)
  {
    LoadsChain(source, start.blocks, here.blocks, now.blocks);
    assert Started(start.blocks, start.position, count, read + n) by {
      ChunkAdvances(source, start.blocks, here.blocks, start.position, count, read, n);
    }
    ShownSame(source, start.blocks, here.blocks, here.position, n);
    ReadGrows(start.buffer, here.buffer, now.buffer, offset, source, start.blocks, start.position, read, n);
  }

  lemma ReadFails(source: seq<byte>, start: View, here: View, now: View, offset: int, count: nat, read: nat)
    requires ReadSoFar(source, start, here, offset, count, read) && read < count
    requires WellFormed(now.blocks) && Loads(source, here.blocks, now.blocks)
    requires !(ChunkOk(here.blocks, here.position, count - read)
               && Fits(|here.buffer|, offset + read, ChunkSize(here.blocks, here.position, count - read)))
    requires now.position == here.position && now.buffer == here.buffer
    requires here.position / BLOCK < |now.blocks| ==> Cached(now.blocks, here.position / BLOCK)
    ensures ReadOutcome(source, start, now, offset, count, read, false)
  {
    LoadsChain(source, start.blocks, here.blocks, now.blocks);
    if !ChunkOk(here.blocks, here.position, count - read) {
      NeverCompletes(start.blocks, here.blocks, start.position, count, read);
    }
    RetryCompletes(now.blocks, start.position, count, read);
  }

  lemma ReadEnds(source: seq<byte>, start: View, now: View, offset: int, count: nat)
    requires ReadSoFar(source, start, now, offset, count, count)
    ensures ReadOutcome(source, start, now, offset, count, count, true)
  {
    StartedCompletes(start.blocks, start.position, count, count);
  }

  /** The bytes that the stream shows from `position` on. */
  function Shown(source: seq<byte>, blocks: Table, position: nat, n: nat): (r: seq<byte>)
    requires WellFormed(blocks)
    ensures |r| == n
    ensures forall i | 0 <= i < n :: r[i] == ByteAt(source, blocks, position + i)
  {
    seq<byte>(n, i requires 0 <= i < n => ByteAt(source, blocks, position + i))
  }

  lemma ShownSame(source: seq<byte>, before: Table, after: Table, position: nat, n: nat)
    requires WellFormed(before) && WellFormed(after) && Loads(source, before, after)
    ensures Shown(source, after, position, n) == Shown(source, before, position, n)
  {
    var a, b := Shown(source, after, position, n), Shown(source, before, position, n);
    forall i | 0 <= i < n ensures a[i] == b[i] {
      LoadsShowsTheSame(source, before, after, position + i);
    }
  }

  /** What has been read so far and the next chunk make up what is read. */
  lemma ReadGrows(was: seq<byte>, here: seq<byte>, now: seq<byte>, offset: int, source: seq<byte>, blocks: Table, position: nat, read: nat, n: nat)
    requires WellFormed(blocks) && Fits(|was|, offset, read) && Fits(|here|, offset + read, n) && n > 0
    requires here == Filled(was, offset, Shown(source, blocks, position, read))
    requires now == Filled(here, offset + read, Shown(source, blocks, position + read, n))
    ensures Fits(|was|, offset, read + n)
    ensures now == Filled(was, offset, Shown(source, blocks, position, read + n))
  {}

  /** A chunk that stays in one block is what the stream shows there. */
  lemma ShownInBlock(source: seq<byte>, before: Table, after: Table, position: nat, n: nat)
    requires WellFormed(before) && WellFormed(after) && Loads(source, before, after)
    requires Cached(after, position / BLOCK) && position % BLOCK + n <= BLOCK
    ensures after[position / BLOCK].value[position % BLOCK..position % BLOCK + n] == Shown(source, before, position, n)
  {
    var piece := after[position / BLOCK].value[position % BLOCK..position % BLOCK + n];
    forall i | 0 <= i < n ensures piece[i] == ByteAt(source, before, position + i) {
      SameBlock(position, position + i);
      LoadsShowsTheSame(source, before, after, position + i);
    }
  }

  /** After the first chunk the first block was fine, and the position is aligned unless all is read. */
  predicate Started(blocks: Table, position: nat, count: nat, read: nat) {
    && 0 < read <= count
    && (position + read - 1) / BLOCK < |blocks|
    && (Cached(blocks, position / BLOCK) || position % BLOCK == 0 || position % BLOCK + count <= BLOCK)
    && (read < count ==> (position + read) % BLOCK == 0)
  }

  predicate LastBlockInTable(blocks: Table, position: nat, count: nat) {
    count > 0 ==> LastBlock(position, count) < |blocks|
  }

  /** The failed turn has loaded its block, so trying again from there completes. */
  lemma RetryCompletes(blocks: Table, position: nat, count: nat, read: nat)
    requires read < count
    requires (position + read) / BLOCK < |blocks| ==> Cached(blocks, (position + read) / BLOCK)
    ensures LastBlockInTable(blocks, position, count) ==> ReadCompletes(blocks, position + read, count - read)
  {}

  lemma StartedCompletes(start: Table, position: nat, count: nat, read: nat)
    requires read == count && (0 < read ==> Started(start, position, count, read))
    ensures ReadCompletes(start, position, count)
  {}

  lemma NeverCompletes(start: Table, here: Table, position: nat, count: nat, read: nat)
    requires read < count && |here| == |start| && (read == 0 ==> here == start)
    requires 0 < read ==> Started(start, position, count, read)
    requires !ChunkOk(here, position + read, count - read)
    ensures !ReadCompletes(start, position, count)
  {
    if (position + read) / BLOCK >= |here| {
      assert LastBlock(position, count) >= (position + read) / BLOCK;
    }
  }

  lemma ChunkAdvances(source: seq<byte>, start: Table, here: Table, position: nat, count: nat, read: nat, n: nat)
    requires read < count && |here| == |start| && (read == 0 ==> here == start)
    requires 0 < read ==> Started(start, position, count, read)
    requires ChunkOk(here, position + read, count - read)
    requires n == ChunkSize(here, position + read, count - read)
    ensures Started(start, position, count, read + n)
  {
    var p := position + read;
    assert 0 < n && p % BLOCK + n <= BLOCK;
    SameBlock(p, p + n - 1);
    if n < count - read { assert (p + n) % BLOCK == 0 by { NextBlock(p, n); } }
  }

  lemma NextBlock(p: nat, n: nat)
    requires p % BLOCK + n == BLOCK
    ensures (p + n) % BLOCK == 0 && (p + n) / BLOCK == p / BLOCK + 1
  {
    assert p + n == (p / BLOCK + 1) * BLOCK;
  }
}
