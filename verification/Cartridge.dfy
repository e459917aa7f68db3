/** Recognising the byte order of a cartridge image and bringing it into the native order. */
module Cartridge {

  import opened Common
  import opened Streams
  import opened ByteSwap
  import opened Bytes
  import opened Bits

  datatype RomFormat = Unknown | Z64 | V64 | N64

  /** The first word of every image in native, big-endian order. */
  const HEADER: seq<byte> := [0x80, 0x37, 0x12, 0x40]

  /** The group size of the stream that puts an image in native order; 1 where it is used as it is. */
  function GroupSize(format: RomFormat): (n: nat)
    ensures n == 1 || n == 2 || n == 4
  {
    match format
    case V64 => 2
    case N64 => 4
    case _ => 1
  }

  lemma WholeWords(n: nat, x: nat)
    requires x % 4 == 0 && (n == 1 || n == 2 || n == 4)
    ensures x % n == 0
  {
    if n == 2 { ModUnique(x, 2, 2 * (x / 4), 0); }
  }

  /** An image of whole words put from native order into the order of `format`, or back. */
  function Presented(format: RomFormat, image: seq<byte>): (r: seq<byte>)
    requires |image| % 4 == 0
    ensures |r| == |image|
  {
    if GroupSize(format) == 1 then image else GroupsReversed(GroupSize(format), image)
  }

  function Detected(image: seq<byte>): RomFormat {
    var first := Padded(image, 0, 4);
    if first == HEADER then Z64
    else if first == [0x40, 0x12, 0x37, 0x80] then N64
    else if first == [0x37, 0x80, 0x40, 0x12] then V64
    else Unknown
  }

  predicate StartsNatively(image: seq<byte>) { |image| >= 4 && image[..4] == HEADER }

  lemma FourBytes(s: seq<byte>, a: byte, b: byte, c: byte, d: byte)
    requires |s| == 4
    ensures s == [a, b, c, d] <==> s[0] == a && s[1] == b && s[2] == c && s[3] == d
  {}

  /** `s` begins with these four bytes. */
  predicate Begins(s: seq<byte>, a: byte, b: byte, c: byte, d: byte)
    requires |s| >= 4
  {
    s[0] == a && s[1] == b && s[2] == c && s[3] == d
  }

  lemma PairsPresented(image: seq<byte>, a: byte, b: byte, c: byte, d: byte)
    requires |image| >= 4
    ensures Begins(GroupsReversed(2, image), a, b, c, d) <==> Begins(image, b, a, d, c)
  {
    assert GroupsReversed(2, image)[2..] == GroupsReversed(2, image[2..]);
  }

  lemma FoursPresented(image: seq<byte>, a: byte, b: byte, c: byte, d: byte)
    requires |image| >= 4
    ensures Begins(GroupsReversed(4, image), a, b, c, d) <==> Begins(image, d, c, b, a)
  {
    assert GroupsReversed(4, image) == Reversed(image[..4]) + GroupsReversed(4, image[4..]);
    assert Begins(GroupsReversed(4, image), a, b, c, d) <==> Begins(Reversed(image[..4]), a, b, c, d);
  }

  lemma StartsNativelyBytes(image: seq<byte>)
    requires |image| >= 4
    ensures StartsNatively(image) <==> Begins(image, 0x80, 0x37, 0x12, 0x40)
  {
    FourBytes(image[..4], 0x80, 0x37, 0x12, 0x40);
  }

  lemma DetectedBytes(image: seq<byte>)
    requires |image| >= 4
    ensures Detected(image) == Z64 <==> Begins(image, 0x80, 0x37, 0x12, 0x40)
    ensures Detected(image) == N64 <==> Begins(image, 0x40, 0x12, 0x37, 0x80)
    ensures Detected(image) == V64 <==> Begins(image, 0x37, 0x80, 0x40, 0x12)
  {
    var first := Padded(image, 0, 4);
    FourBytes(first, 0x80, 0x37, 0x12, 0x40);
    FourBytes(first, 0x40, 0x12, 0x37, 0x80);
    FourBytes(first, 0x37, 0x80, 0x40, 0x12);
  }

  lemma EmptyIsUnknown(image: seq<byte>)
    requires |image| == 0
    ensures Detected(image) == Unknown
  {
    var first := Padded(image, 0, 4);
    FourBytes(first, 0x80, 0x37, 0x12, 0x40);
    FourBytes(first, 0x40, 0x12, 0x37, 0x80);
    FourBytes(first, 0x37, 0x80, 0x40, 0x12);
  }

  /** An image is recognised as having an order exactly when undoing that order shows the native header. */
  lemma DetectedIffPresentedNatively(image: seq<byte>, format: RomFormat)
    requires |image| % 4 == 0 && format != Unknown
    ensures Detected(image) == format <==> StartsNatively(Presented(format, image))
  {
    if image == [] {
      EmptyIsUnknown(image);
    } else {
      StartsNativelyBytes(Presented(format, image));
      DetectedBytes(image);
      match format
      case V64 => PairsPresented(image, 0x80, 0x37, 0x12, 0x40);
      case N64 => FoursPresented(image, 0x80, 0x37, 0x12, 0x40);
      case _ =>
    }
  }

  lemma PresentedTwice(format: RomFormat, image: seq<byte>)
    requires |image| % 4 == 0
    ensures Presented(format, Presented(format, image)) == image
  {
    var n := GroupSize(format);
    if n > 1 {
      WholeWords(n, |image|);
      SwappedReversesGroups(n, image);
      SwappedReversesGroups(n, Swapped(n, image));
      SwappedTwice(n, image);
    }
  }

  /** Whatever the order in which a native image was stored, it is recognised and reads back native. */
  lemma EveryOrderNormalisesAlike(native: seq<byte>, format: RomFormat)
    requires |native| % 4 == 0 && StartsNatively(native) && format != Unknown
    ensures Detected(Presented(format, native)) == format
    ensures Presented(Detected(Presented(format, native)), Presented(format, native)) == native
  {
    PresentedTwice(format, native);
    DetectedIffPresentedNatively(Presented(format, native), format);
  }

  /** No image shows the native header in two orders. */
  lemma OrderIsUnique(image: seq<byte>, format: RomFormat, other: RomFormat)
    requires |image| % 4 == 0 && format != Unknown && other != Unknown
    requires StartsNatively(Presented(format, image)) && StartsNatively(Presented(other, image))
    ensures format == other
  {
    DetectedIffPresentedNatively(image, format);
    DetectedIffPresentedNatively(image, other);
  }

  /** Reading whole words anywhere through the chosen stream shows the native image, for every order. */
  lemma CorrectedReadsShowTheNativeImage(native: seq<byte>, format: RomFormat, position: nat, count: nat)
    requires |native| % 4 == 0 && position % 4 == 0 && count % 4 == 0 && position + count <= |native|
    requires GroupSize(format) > 1
    ensures count % GroupSize(format) == 0
    ensures Swapped(GroupSize(format), Padded(Presented(format, native), position, count))
         == native[position..position + count]
  {
    var n, image := GroupSize(format), Presented(format, native);
    WholeWords(n, position);
    WholeWords(n, count);
    WholeWords(n, |image|);
    PresentedTwice(format, native);
    SwappedReversesGroups(n, image);
    AlignedReadShowsSlice(n, image, position, count);
  }

  lemma WordValue(b: seq<byte>)
    requires |b| == 4
    ensures BigEndian(b) == (b[0] as int) * 0x100_0000 + (b[1] as int) * 0x1_0000 + (b[2] as int) * 0x100 + b[3] as int
  {
    assert b[..3][..2] == b[..2] && b[..2][..1] == b[..1] && b[..1][..0] == [];
    assert BigEndian(b[..1]) == b[0] as int;
    assert BigEndian(b[..2]) == BigEndian(b[..1]) * 256 + b[1] as int;
    assert BigEndian(b[..3]) == BigEndian(b[..2]) * 256 + b[2] as int;
  }

  lemma MirrorsInFours()
    ensures Mirror(4, 0) == 3 && Mirror(4, 1) == 2 && Mirror(4, 2) == 1 && Mirror(4, 3) == 0
  {}

  /** A word read little-endian through the four-byte swap is the big-endian word of the raw bytes. */
  method ReadWord(romStream: ByteStream) returns (word: int)
    requires romStream.Valid() && romStream.position >= 0
    modifies romStream`position
    ensures word == BigEndian(Padded(romStream.data, old(romStream.position), 4))
  {
    var reader := new ByteSwapStream(Int32Swap, romStream);
    var buffer := new byte[4];
    ghost var was := buffer[..];
    ghost var position := romStream.position;
    var ok := reader.Read(buffer, 0, 4);
    ReadSwapsTheBytes(4, was, romStream.data, position, 4);
    MirrorsInFours();
    WordValue(Padded(romStream.data, position, 4));
    word := buffer[0] as int + (buffer[1] as int) * 0x100 + (buffer[2] as int) * 0x1_0000 + (buffer[3] as int) * 0x100_0000;
  }

  lemma WordsSeparate(b: seq<byte>)
    requires |b| == 4
    ensures BigEndian(b) == 0x80371240 <==> b == HEADER
    ensures BigEndian(b) == 0x40123780 <==> b == [0x40, 0x12, 0x37, 0x80]
    ensures BigEndian(b) == 0x37804012 <==> b == [0x37, 0x80, 0x40, 0x12]
  {
    WordValue(b);
    FourBytes(b, 0x80, 0x37, 0x12, 0x40);
    FourBytes(b, 0x40, 0x12, 0x37, 0x80);
    FourBytes(b, 0x37, 0x80, 0x40, 0x12);
  }

  method DetectFormatHeader(romStream: ByteStream) returns (format: RomFormat)
    requires romStream.Valid()
    modifies romStream`position
    ensures format == Detected(romStream.data)
  {
    romStream.position := 0;
    var check := ReadWord(romStream);
    WordsSeparate(Padded(romStream.data, 0, 4));
    match check {
      case 0x80371240 => format := Z64;
      case 0x40123780 => format := N64;
      case 0x37804012 => format := V64;
      case _ => format := Unknown;
    }
  }

  /** The swapped stream to read the image through, or null where the image is read directly. */
  method GetCorrectStream(str: ByteStream, format: RomFormat) returns (swapped: ByteSwapStream?)
    ensures swapped == null <==> GroupSize(format) == 1
    ensures swapped != null ==> fresh(swapped) && swapped.baseStream == str && swapped.swap.Size() == GroupSize(format)
  {
    match format {
      case V64 => swapped := new ByteSwapStream(Int16Swap, str);
      case N64 => swapped := new ByteSwapStream(Int32Swap, str);
      case _ => swapped := null;
    }
  }

  lemma SwappedReadIsNative(native: seq<byte>, format: RomFormat, position: nat, was: seq<byte>, n: nat)
    requires |native| % 4 == 0 && position % 4 == 0 && |was| % 4 == 0 && position + |was| <= |native|
    requires n == GroupSize(format) > 1
    ensures Completes(n, |was|, position, 0, |was|)
    ensures forall i | 0 <= i < |was| :: InBounds(n, |was|, 0, |was|, i)
    ensures FilledTo(n, was, Padded(Presented(format, native), position, |was|), 0, |was|)
         == native[position..position + |was|]
  {
    CorrectedReadsShowTheNativeImage(native, format, position, |was|);
    CompletesIffInBounds(n, |was|, position, 0, |was|);
    ReadSwapsTheBytes(n, was, Presented(format, native), position, |was|);
    assert was[|was|..] == [];
  }

  /** Reads `buffer.Length` bytes of an image stored in any order, as the boot code reader does. */
  method ReadNative(romStream: ByteStream, format: RomFormat, position: nat, buffer: array<byte>,
                    ghost native: seq<byte>)
    requires romStream.Valid() && buffer.Length < 0x8000_0000
    requires |native| % 4 == 0 && romStream.data == Presented(format, native)
    requires position % 4 == 0 && buffer.Length % 4 == 0 && position + buffer.Length <= |native|
    modifies romStream`position, buffer
    ensures buffer[..] == native[position..position + buffer.Length]
  {
    var swapped := GetCorrectStream(romStream, format);
    romStream.position := position;
    if swapped == null {
      var ok := romStream.Read(buffer, 0, buffer.Length);
    } else {
      SwappedReadIsNative(native, format, position, buffer[..], GroupSize(format));
      var ok := swapped.Read(buffer, 0, buffer.Length);
    }
  }
}
