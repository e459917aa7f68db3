/** Byte streams of a fixed length, the things that the memory map is built from.
    Reads and writes stop at the end of the stream. */
module Streams {
  import opened Common

  function Zeros(n: nat): (s: seq<byte>)
    ensures |s| == n && forall i | 0 <= i < n :: s[i] == 0
  {
    seq(n, _ => 0)
  }

  /** How many of `count` bytes starting at `position` a stream of `length` bytes can serve. */
  function Served(length: nat, position: nat, count: nat): nat {
    if length <= position then 0 else Min(count, length - position)
  }

  /** `s` with the bytes of `piece` laid over it from `at` on. */
  function Overlay(s: seq<byte>, at: nat, piece: seq<byte>): (r: seq<byte>)
    requires at + |piece| <= |s|
    ensures |r| == |s|
    ensures forall i | 0 <= i < |s| :: r[i] == if at <= i < at + |piece| then piece[i - at] else s[i]
  {
    s[..at] + piece + s[at + |piece|..]
  }

  /** What reading `count` bytes at `position` yields. */
  function Fetch(data: seq<byte>, position: nat, count: nat): (r: seq<byte>)
    ensures |r| == Served(|data|, position, count)
    ensures forall i | 0 <= i < |r| :: r[i] == data[position + i]
  {
    if |data| <= position then [] else data[position..position + Served(|data|, position, count)]
  }

  /** What writing `piece` at `position` leaves in the stream. */
  function Deposit(data: seq<byte>, position: nat, piece: seq<byte>): (r: seq<byte>)
    ensures |r| == |data|
    ensures forall i | 0 <= i < |data| ::
              r[i] == if position <= i < position + |piece| then piece[i - position] else data[i]
  {
    var n := Served(|data|, position, |piece|);
    if n == 0 then data else Overlay(data, position, piece[..n])
  }

  /** The arguments for which a stream operation does not throw. */
  predicate Accepts(bufferLength: nat, position: int, offset: int, count: int) {
    0 <= position && 0 <= offset && 0 <= count && offset + count <= bufferLength
  }

  class ByteStream {
    const length: nat
    const canWrite: bool
    var data: seq<byte>
    var position: int

    ghost predicate Valid()
      reads this
    {
      |data| == length
    }

    constructor (bytes: seq<byte>, writable: bool)
      ensures Valid() && data == bytes && position == 0 && canWrite == writable
    {
      length, canWrite, data, position := |bytes|, writable, bytes, 0;
    }

    /** `ok` is false where the C# stream throws; nothing changes then. */
    method Read(buffer: array<byte>, offset: int, count: int) returns (ok: bool)
      requires Valid()
      modifies this`position, buffer
      ensures ok == Accepts(buffer.Length, old(position), offset, count)
      ensures !ok ==> buffer[..] == old(buffer[..]) && position == old(position)
      ensures ok ==>
                && buffer[..] == Overlay(old(buffer[..]), offset, Fetch(data, old(position), count))
                && position == old(position) + Served(length, old(position), count)
    {
      ok := Accepts(buffer.Length, position, offset, count);
      if ok {
        var n := Served(length, position, count);
        forall i | 0 <= i < n {
          buffer[offset + i] := data[position + i];
        }
        position := position + n;
      }
    }

    /** `ok` is false where the C# stream throws; nothing changes then. */
    method Write(buffer: array<byte>, offset: int, count: int) returns (ok: bool)
      requires Valid()
      modifies this`position, this`data
      ensures Valid()
      ensures ok == Accepts(buffer.Length, old(position), offset, count)
      ensures !ok ==> data == old(data) && position == old(position)
      ensures ok ==>
                && data == Deposit(old(data), old(position), buffer[offset..offset + count])
                && position == old(position) + Served(length, old(position), count)
    {
      ok := Accepts(buffer.Length, position, offset, count);
      if ok {
        data := Deposit(data, position, buffer[offset..offset + count]);
        position := position + Served(length, position, count);
      }
    }
  }
}
