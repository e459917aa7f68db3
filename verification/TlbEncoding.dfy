/** Bit-field encodings of TLB entries: EntryLo, EntryHi and PageMask. A C# mask of low bits is written
    as a remainder and a right shift as a division. */
module TlbEncoding {
  import opened Common
  import opened Bits

  /* -------- EntryLo: PageFrameNumber -------- */

  datatype PageFrame = PageFrame(pfn: nat, coherency: nat, dirty: bool, valid: bool, isGlobal: bool)

  function Bit(b: bool): nat { if b then 1 else 0 }

  /** The coherency field is read 8 bits wide, so it overlaps the low bits of the frame number. */
  function DecodeLo(lo: u64): PageFrame {
    PageFrame(lo / 64 % 0x200_0000, lo / 8 % 0x100, lo / 4 % 2 == 1, lo / 2 % 2 == 1, lo % 2 == 1)
  }

  function EncodeLo(p: PageFrame): int {
    Or(Or(Or(Or(Bit(p.isGlobal), Bit(p.valid) * 2), Bit(p.dirty) * 4), p.coherency * 8), p.pfn * 64)
  }

  lemma OrAbove(low: nat, k: nat, p: nat, high: nat)
    requires p == Pow2(k) && low < p
    ensures Or(low, high * p) == low + high * p
  {
    OrSplit(0, high, k, low, 0);
    OrZero(high);
    OrZero(low);
  }

  lemma SmallPowers()
    ensures Pow2(1) == 2 && Pow2(2) == 4 && Pow2(3) == 8 && Pow2(5) == 32 && Pow2(6) == 64
    ensures Pow2(12) == 0x1000 && Pow2(13) == 0x2000 && Pow2(25) == 0x200_0000
  {
    assert Pow2(6) == 64;
    Pow2Adds(6, 6);
    Pow2Adds(12, 1);
    Pow2Adds(12, 13);
  }

  lemma LowBits(b0: nat, b1: nat, b2: nat)
    requires b0 < 2 && b1 < 2 && b2 < 2
    ensures Or(Or(b0, b1 * 2), b2 * 4) == b0 + b1 * 2 + b2 * 4
  {
    SmallPowers();
    OrAbove(b0, 1, 2, b1);
    OrAbove(b0 + b1 * 2, 2, 4, b2);
  }

  lemma LowEleven(low: nat, c: nat)
    requires low < 8
    ensures Or(low, c * 8) == low + c * 8
  {
    SmallPowers();
    OrAbove(low, 3, 8, c);
  }

  lemma OverlapIsHarmless(x: nat, low: nat)
    requires low < 64
    ensures Or(x % 32 * 64 + low, x % 0x200_0000 * 64) == x % 0x200_0000 * 64 + low
  {
    SmallPowers();
    assert Or(x % 32, x % 0x200_0000) == x % 0x200_0000 by { OrPrefix(x, 5, 25); }
    OrOverLow(x % 32, x % 0x200_0000, low);
  }

  lemma OrOverLow(a: nat, b: nat, low: nat)
    requires low < 64
    ensures Or(a * 64 + low, b * 64) == Or(a, b) * 64 + low
  {
    SmallPowers();
    OrSplit(a, b, 6, low, 0);
    OrZero(low);
  }

  lemma ThreeBits(lo: nat)
    ensures lo % 2 + lo / 2 % 2 * 2 + lo / 4 % 2 * 4 == lo % 8
  {}

  lemma ElevenBits(lo: nat)
    ensures lo % 8 + lo / 8 % 0x100 * 8 == lo / 64 % 32 * 64 + lo % 64
  {
    assert lo % 8 + lo / 8 % 0x100 * 8 == lo % 0x800;
  }

  lemma ThirtyOneBits(lo: nat)
    ensures lo / 64 % 0x200_0000 * 64 + lo % 64 == lo % 0x8000_0000
  {}

  lemma EncodeFields(b0: nat, b1: nat, b2: nat, c: nat, frame: nat)
    requires b0 < 2 && b1 < 2 && b2 < 2
    ensures EncodeLo(PageFrame(frame, c, b2 == 1, b1 == 1, b0 == 1))
         == Or(b0 + b1 * 2 + b2 * 4 + c * 8, frame * 64)
  {
    LowBits(b0, b1, b2);
    LowEleven(b0 + b1 * 2 + b2 * 4, c);
  }

  /** Despite the overlap, decoding and encoding EntryLo keeps exactly its low 31 bits. */
  lemma EntryLoRoundTrip(lo: u64)
    ensures EncodeLo(DecodeLo(lo)) == lo % 0x8000_0000
  {
    calc {
      EncodeLo(DecodeLo(lo));
      { EncodeFields(lo % 2, lo / 2 % 2, lo / 4 % 2, lo / 8 % 0x100, lo / 64 % 0x200_0000); }
      Or(lo % 2 + lo / 2 % 2 * 2 + lo / 4 % 2 * 4 + lo / 8 % 0x100 * 8, lo / 64 % 0x200_0000 * 64);
      { ThreeBits(lo); ElevenBits(lo); }
      Or(lo / 64 % 32 * 64 + lo % 64, lo / 64 % 0x200_0000 * 64);
      { OverlapIsHarmless(lo / 64, lo % 64); }
      lo / 64 % 0x200_0000 * 64 + lo % 64;
      { ThirtyOneBits(lo); }
      lo % 0x8000_0000;
    }
  }

  /** The fields in their places: global, valid and dirty in bits 0 to 2, five bits of the coherency field
      in common with the frame number, which starts at bit 6. */
  lemma EntryLoFields(lo: u64)
    ensures var p := DecodeLo(lo);
      && p.pfn < 0x200_0000 && p.coherency < 0x100 && p.coherency / 8 == p.pfn % 32
      && Bit(p.isGlobal) + 2 * Bit(p.valid) + 4 * Bit(p.dirty) + 8 * (p.coherency % 8) + 64 * p.pfn == lo % 0x8000_0000
  {
    ThreeBits(lo);
    SixBits(lo);
    ThirtyOneBits(lo);
  }

  lemma SixBits(lo: nat)
    ensures lo / 8 % 0x100 / 8 == lo / 64 % 32 && lo % 8 + 8 * (lo / 8 % 0x100 % 8) == lo % 64
    ensures lo / 64 % 0x200_0000 % 32 == lo / 64 % 32
  {
    var x := lo / 8;
    var y := x / 8;
    var z := y / 32;
    var middle, low := x % 8, y % 32;
    ModUnique(lo, 64, y, lo % 8 + 8 * middle);
    ModUnique(x, 0x100, z, middle + 8 * low);
    ModUnique(middle + 8 * low, 8, low, middle);
    ModUnique(y, 0x200_0000, z / 0x10_0000, low + 32 * (z % 0x10_0000));
    ModUnique(low + 32 * (z % 0x10_0000), 32, z % 0x10_0000, low);
  }

  /* -------- EntryHi: VirtualPageNumber2 -------- */

  datatype Vpn2 = Vpn2(asid: nat, vpn2: nat)

  function DecodeHi(hi: u64): Vpn2 { Vpn2(hi % 0x100, hi / 0x1000) }

  function EncodeHi(v: Vpn2): int { Or(v.vpn2 * 0x1000 % TWO64, v.asid) }

  /** Bits 8 to 11 of EntryHi are lost, all others come back. */
  lemma EntryHiRoundTrip(hi: u64)
    ensures EncodeHi(DecodeHi(hi)) == hi / 0x1000 * 0x1000 + hi % 0x100
  {
    SmallMod(hi / 0x1000 * 0x1000);
    OrLowByte(hi / 0x1000, hi % 0x100);
  }

  lemma OrLowByte(page: nat, asid: nat)
    requires asid < 0x100
    ensures Or(page * 0x1000, asid) == page * 0x1000 + asid
  {
    SmallPowers();
    OrDisjoint(page, 12, asid);
  }

  /** Keys separate exactly the registers that differ outside bits 8 to 11. */
  lemma EntryHiKeysAgreeIff(a: u64, b: u64)
    ensures DecodeHi(a) == DecodeHi(b) <==> a / 0x1000 == b / 0x1000 && a % 0x100 == b % 0x100
  {}

  /* -------- PageMask: PageSize -------- */

  /** `1 + (Int32)((mask >> 1) | 0xFFF)`. */
  function SizeFromMask(mask: u64): int { ToInt32(1 + ToInt32(Or(mask / 2, 0xFFF))) }

  /** `(((UInt64)size - 1) & 0x1FFE000) << 1`. */
  function MaskFromSize(size: int): int { And((size - 1) % TWO64, 0x1FF_E000) * 2 }

  /** Bits 13 to 24. */
  function Field(x: int): int { x / 0x2000 % 0x1000 }

  lemma FieldOf(x: int)
    ensures And(x, 0x1FF_E000) == Field(x) * 0x2000
  {
    SmallPowers();
    AndHigh(x / 0x2000, 0xFFF, 13, x % 0x2000);
    AndLowMask(x / 0x2000, 12);
  }

  lemma OrLowOnes(x: nat)
    ensures Or(x, 0xFFF) == x / 0x1000 * 0x1000 + 0xFFF
  {
    SmallPowers();
    OrSplit(x / 0x1000, 0, 12, x % 0x1000, 0xFFF);
    OrZero(x / 0x1000);
    OrOnes(x % 0x1000, 12);
  }

  lemma {:induction false} OrOnes(x: nat, k: nat)
    requires x < Pow2(k)
    ensures Or(x, Pow2(k) - 1) == Pow2(k) - 1
    decreases k
  {
    if k > 0 {
      OrOnes(x / 2, k - 1);
      OrStep(x, Pow2(k) - 1);
    }
  }

  lemma FieldHasPeriod(x: int, q: int)
    ensures Field(x + 0x1_0000_0000 * q) == Field(x)
  {
    var d := x / 0x2000;
    ModUnique(x + 0x1_0000_0000 * q, 0x2000, d + 0x8_0000 * q, x % 0x2000);
    ModUnique(d + 0x8_0000 * q, 0x1000, d / 0x1000 + 0x80 * q, d % 0x1000);
  }

  lemma CastShifts(x: int) returns (q: int)
    ensures ToInt32(x) == x + 0x1_0000_0000 * q
  {
    q := -((x + 0x8000_0000) / 0x1_0000_0000);
  }

  lemma WrapShifts(x: int) returns (q: int)
    ensures x % TWO64 == x + 0x1_0000_0000 * q
  {
    q := -(x / TWO64) * 0x1_0000_0000;
  }

  lemma FieldSurvivesCasts(y: nat)
    ensures Field((ToInt32(1 + ToInt32(y)) - 1) % TWO64) == Field(y)
  {
    var q1 := CastShifts(y);
    var q2 := CastShifts(1 + ToInt32(y));
    var q3 := WrapShifts(ToInt32(1 + ToInt32(y)) - 1);
    FieldHasPeriod(y, q1 + q2 + q3);
  }

  lemma FieldAboveOnes(x: nat)
    ensures Field(x / 0x1000 * 0x1000 + 0xFFF) == x / 0x2000 % 0x1000
  {
    var h := x / 0x1000;
    ModUnique(h * 0x1000 + 0xFFF, 0x2000, h / 2, h % 2 * 0x1000 + 0xFFF);
    ModUnique(x, 0x2000, h / 2, h % 2 * 0x1000 + x % 0x1000);
  }

  lemma FieldOfHalf(mask: nat)
    ensures mask / 2 / 0x2000 == mask / 0x4000
  {}

  /** Reading the page mask back keeps bits 14 to 25 only. */
  lemma PageMaskReadBack(mask: u64)
    ensures MaskFromSize(SizeFromMask(mask)) == mask / 0x4000 % 0x1000 * 0x4000
  {
    var y := Or(mask / 2, 0xFFF);
    OrLowOnes(mask / 2);
    assert Field((SizeFromMask(mask) - 1) % TWO64) == Field(y) by { FieldSurvivesCasts(y); }
    assert Field(y) == mask / 0x4000 % 0x1000 by {
      FieldAboveOnes(mask / 2);
      FieldOfHalf(mask);
    }
    FieldOf((SizeFromMask(mask) - 1) % TWO64);
  }

  /** So a mask round-trips exactly when it has no other bit. */
  lemma PageMaskRoundTripIff(mask: u64)
    ensures MaskFromSize(SizeFromMask(mask)) == mask <==> mask % 0x4000 == 0 && mask < 0x400_0000
  {
    PageMaskReadBack(mask);
    FieldIsAllIff(mask);
  }

  lemma FieldIsAllIff(mask: nat)
    ensures mask / 0x4000 % 0x1000 * 0x4000 == mask <==> mask % 0x4000 == 0 && mask < 0x400_0000
  {
    var q := mask / 0x4000;
    assert mask == q * 0x4000 + mask % 0x4000;
    assert q % 0x1000 == q <==> q < 0x1000;
  }

  /** The register value for pages of p * 4 KB, p a power of two up to 2^18, decodes to that size, and
      of these sizes only 4 KB reads back. */
  lemma PageSizeOfMask(n: nat, p: nat)
    requires n <= 18 && p == Pow2(n)
    ensures var mask := 2 * (p - 1) * 0x1000;
      && 0 <= mask < TWO64 && SizeFromMask(mask) == p * 0x1000
      && (MaskFromSize(SizeFromMask(mask)) == mask <==> p == 1)
  {
    Pow2Bounds(n);
    SizeOfPages(p, 2 * (p - 1) * 0x1000);
    PageMaskRoundTripIff(2 * (p - 1) * 0x1000);
    if n > 0 {
      OddMultiple(Pow2(n - 1));
    }
  }

  lemma SizeOfPages(p: nat, mask: u64)
    requires 1 <= p <= 0x4_0000 && mask == 2 * (p - 1) * 0x1000
    ensures SizeFromMask(mask) == p * 0x1000
  {
    var h := (p - 1) * 0x1000;
    assert mask / 2 == h;
    OrLowOnes(h);
    ModUnique(h, 0x1000, p - 1, 0);
  }

  /** A page mask of more than 4 KB has bit 13 set, which is lost. */
  lemma OddMultiple(h: nat)
    requires h >= 1
    ensures 2 * (2 * h - 1) * 0x1000 % 0x4000 != 0
  {
    assert 2 * (2 * h - 1) * 0x1000 == (h - 1) * 0x4000 + 0x2000;
  }

  lemma Pow2Bounds(k: nat)
    requires k <= 18
    ensures Pow2(k) <= 0x4_0000
    decreases 18 - k
  {
    if k < 18 { Pow2Bounds(k + 1); } else { SmallPowers(); Pow2Adds(12, 6); }
  }

  /** The three read-backs as the registers that TLBR writes. */
  lemma LoRegister(lo: u64)
    ensures EncodeLo(DecodeLo(lo)) % TWO64 == lo % 0x8000_0000
  {
    EntryLoRoundTrip(lo);
  }

  lemma HiRegister(hi: u64)
    ensures EncodeHi(DecodeHi(hi)) % TWO64 == hi / 0x1000 * 0x1000 + hi % 0x100
  {
    EntryHiRoundTrip(hi);
    SmallMod(hi / 0x1000 * 0x1000 + hi % 0x100);
  }

  lemma MaskRegister(mask: u64)
    ensures MaskFromSize(SizeFromMask(mask)) % TWO64 == mask / 0x4000 % 0x1000 * 0x4000
  {
    var field := mask / 0x4000 % 0x1000;
    assert MaskFromSize(SizeFromMask(mask)) == field * 0x4000 by { PageMaskReadBack(mask); }
    SmallMod(field * 0x4000);
  }

  /* -------- MapPhysical -------- */

  function MapPhysical(p: PageFrame, size: int, virtualAddress: int): int {
    Or(p.pfn * size % TWO64, And(virtualAddress % TWO64, (size - 1) % 0x1_0000_0000))
  }

  /** For every power-of-two page size the frame number and the page offset are simply added. */
  lemma MapPhysicalAddsTheOffset(p: PageFrame, k: nat, virtualAddress: int)
    requires k <= 30 && p.pfn < 0x200_0000
    ensures MapPhysical(p, Pow2(k), virtualAddress) == p.pfn * Pow2(k) + virtualAddress % Pow2(k)
  {
    var size := Pow2(k);
    assert size <= 0x4000_0000 by { PowBelow(k, 30); SmallPowers(); Pow2Adds(25, 5); }
    assert p.pfn * size % TWO64 == p.pfn * size by {
      ProductBelow(p.pfn, 0x200_0000, size, 0x4000_0000);
      SmallMod(p.pfn * size);
    }
    assert (size - 1) % 0x1_0000_0000 == size - 1;
    assert And(virtualAddress % TWO64, size - 1) == virtualAddress % size by {
      AndLowMask(virtualAddress % TWO64, k);
      ModOfMod(virtualAddress, k);
    }
    assert Or(p.pfn * size, virtualAddress % size) == p.pfn * size + virtualAddress % size by {
      OrDisjoint(p.pfn, k, virtualAddress % size);
    }
  }

  lemma SmallMod(x: nat)
    requires x < TWO64
    ensures x % TWO64 == x
  {}

  lemma ProductBelow(a: nat, x: nat, b: nat, y: nat)
    requires a < x && 0 < b <= y
    ensures a * b < x * y
  {
    assert a * b < x * b;
    assert x * b <= x * y;
  }

  lemma {:induction false} PowBelow(j: nat, k: nat)
    requires j <= k
    ensures Pow2(j) <= Pow2(k)
    decreases k
  {
    if j < k { PowBelow(j, k - 1); }
  }

  lemma ModOfMod(a: int, k: nat)
    requires k <= 64
    ensures a % TWO64 % Pow2(k) == a % Pow2(k)
  {
    var m, c := Pow2(k), Pow2(64 - k);
    assert m * c == TWO64 by { Pow2Values(); Pow2Adds(32, 32); Pow2Adds(k, 64 - k); }
    NestedMod(a, m, c, TWO64);
  }

  lemma NestedMod(a: int, m: nat, c: nat, d: nat)
    requires m > 0 && d == m * c && c > 0 && d > 0
    ensures a % d % m == a % m
  {
    var q, r := a / d, a % d;
    assert a == d * q + r;
    var q', r' := r / m, r % m;
    assert r == m * q' + r';
    assert d * q == m * (c * q) by { assert d * q == (m * c) * q; }
    assert m * (c * q + q') == m * (c * q) + m * q';
    ModUnique(a, m, c * q + q', r');
  }
}
