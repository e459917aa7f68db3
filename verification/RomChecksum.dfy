/** The cartridge checksum: six accumulators over the words of the boot segment, and the two words of
    the hash code. All additions wrap at 32 bits. */
module RomChecksums {
  import opened Common
  import opened Bits
  import opened Streams

  const INPUT_SIZE := 0x10_1000
  const WORDS := 0x4_0000

  datatype Cic = Unknown | X101 | X102 | X103 | X105 | X106 | Hle

  function Seed(c: Cic): Option<u32> {
    match c
    case X101 => Some(0xF8CA4DDC)
    case X102 => Some(0xF8CA4DDC)
    case X103 => Some(0xA3886759)
    case X105 => Some(0xDF26F436)
    case X106 => Some(0x1FEA617A)
    case _ => None
  }

  function Add32(a: int, b: int): u32 { (a + b) % TWO32 }

  lemma XorFits(a: u32, b: u32)
    ensures 0 <= Xor(a, b) < TWO32
  {
    Pow2Values();
    XorSplit(0, 0, 32, a, b);
  }

  function Xor32(a: u32, b: u32): u32 {
    XorFits(a, b);
    Xor(a, b)
  }

  /** `(value << bits) | (value >> (32 - bits))`, both shift counts taken modulo 32 as C# does. */
  function RotateLeft(value: u32, bits: nat): u32
    requires bits < 32
  {
    var high, low := value * Pow2(bits) % TWO32, value / Pow2((32 - bits) % 32);
    OrFits(high, low);
    Or(high, low)
  }

  lemma OrFits(a: nat, b: nat)
    requires a < TWO32 && b < TWO32
    ensures 0 <= Or(a, b) < TWO32
  {
    Pow2Values();
    OrSplit(0, 0, 32, a, b);
  }

  function Rotated(word: u32): u32 { RotateLeft(word, word % 32) }

  /* -------- the loop -------- */

  datatype Accumulators = Accumulators(t1: u32, t2: u32, t3: u32, t4: u32, t5: u32, t6: u32)

  function Start(seed: u32): Accumulators { Accumulators(seed, seed, seed, seed, seed, seed) }

  /** One turn on the word `read`; `extra` is the boot-code word mixed in for the X105 only. */
  function Turn(c: Cic, a: Accumulators, read: u32, extra: u32): Accumulators {
    var t4 := if Add32(a.t6, read) < a.t6 then Add32(a.t4, 1) else a.t4;
    var t6 := Add32(a.t6, read);
    var t3 := Xor32(a.t3, read);
    var r := Rotated(read);
    var t5 := Add32(a.t5, r);
    var t2 := if a.t2 > read then Xor32(a.t2, r) else Xor32(a.t2, Xor32(t6, read));
    var t1 := Add32(a.t1, Xor32(if c.X105? then extra else t5, read));
    Accumulators(t1, t2, t3, t4, t5, t6)
  }

  function Fold(c: Cic, seed: u32, words: seq<u32>, extras: seq<u32>): Accumulators
    requires |words| == |extras|
  {
    if words == [] then Start(seed)
    else
      var n := |words| - 1;
      Turn(c, Fold(c, seed, words[..n], extras[..n]), words[n], extras[n])
  }

  function FirstWord(c: Cic, a: Accumulators): u32 {
    match c
    case X103 => Add32(Xor32(a.t6, a.t4), a.t3)
    case X106 => Add32(a.t6 * a.t4, a.t3)
    case _ => Xor32(Xor32(a.t6, a.t4), a.t3)
  }

  function SecondWord(c: Cic, a: Accumulators): u32 {
    match c
    case X103 => Add32(Xor32(a.t5, a.t2), a.t1)
    case X106 => Add32(a.t5 * a.t2, a.t1)
    case _ => Xor32(Xor32(a.t5, a.t2), a.t1)
  }

  /* -------- what the accumulators mean -------- */

  /** Rotating left by as many places as the low five bits say: the bits pushed out come back in at the
      low end. */
  function Rolled(w: u32): nat { Rolling(w * Pow2(w % 32)) }

  function Rolling(product: nat): nat { product % TWO32 + product / TWO32 }

  lemma RolledIsRotated(w: u32)
    ensures Rolled(w) == Rotated(w) < TWO32
  {
    if w % 32 == 0 {
      NothingRolls(w);
    } else {
      RotatingRolls(w, w % 32, Pow2(w % 32), Pow2(32 - w % 32));
    }
  }

  lemma NothingRolls(w: u32)
    ensures RotateLeft(w, 0) == Rolling(w * Pow2(0)) == w
  {
    OrSelf(w);
    TimesOne(w, Pow2(0));
  }

  lemma TimesOne(w: u32, p: nat)
    requires p == 1
    ensures w * p == w && w * p % TWO32 == w && w / p == w
  {}

  lemma RotatingRolls(w: u32, n: nat, p: nat, q: nat)
    requires 0 < n < 32 && p == Pow2(n) && q == Pow2(32 - n)
    ensures RotateLeft(w, n) == Rolling(w * p)
  {
    assert p * q == TWO32 by { Pow2Values(); Pow2Adds(n, 32 - n); }
    RolledParts(w, n, p, q, w * p);
  }

  lemma RolledParts(w: u32, n: nat, p: nat, q: nat, product: nat)
    requires p == Pow2(n) && p > 0 && q > 0 && p * q == TWO32 && product == w * p
    ensures Or(product % TWO32, w / q) == product % TWO32 + product / TWO32 && product / TWO32 == w / q
  {
    RollParts(w, p, q);
    OrDisjoint(w % q, n, w / q);
  }

  lemma {:induction false} OrSelf(a: nat)
    ensures Or(a, a) == a
    decreases a
  {
    if a > 0 { OrSelf(a / 2); }
  }

  lemma RollParts(w: u32, p: nat, q: nat)
    requires p > 0 && q > 0 && p * q == TWO32
    ensures w * p % TWO32 == w % q * p && w * p / TWO32 == w / q && w / q < p
  {
    var h, r := w / q, w % q;
    assert w * p == TWO32 * h + r * p by {
      assert w == q * h + r;
      assert (q * h + r) * p == (p * q) * h + r * p;
    }
    ProductBelow(r, q, p);
    ModUnique(w * p, TWO32, h, r * p);
    if h >= p { FactorsAbove(h, p, q); }
  }

  lemma ProductBelow(r: nat, q: nat, p: nat)
    requires r < q && p > 0
    ensures r * p < q * p
  {}

  lemma FactorsAbove(h: nat, p: nat, q: nat)
    requires h >= p
    ensures q * h >= p * q
  {}

  /** Order-free totals of a list of words: exact sum, exact sum of the rotated words, and parity. */
  datatype Totals = Totals(sum: nat, rotated: nat, parity: u32)

  function Include(t: Totals, w: u32): Totals {
    Totals(t.sum + w, t.rotated + Rolled(w), Xor32(t.parity, w))
  }

  function Total(words: seq<u32>): Totals {
    if words == [] then Totals(0, 0, 0) else Include(Total(words[..|words| - 1]), words[|words| - 1])
  }

  /** The accumulators say nothing but the totals. */
  predicate Means(a: Accumulators, seed: u32, t: Totals) {
    && a.t4 >= seed && (a.t4 - seed) * TWO32 + a.t6 == seed + t.sum
    && a.t3 == Xor32(seed, t.parity)
    && a.t5 == (seed + t.rotated) % TWO32
  }

  /** The carry test counts exactly the wraps of t6. */
  lemma CarryIsExact(t4: u32, t6: u32, read: u32, seed: u32)
    requires seed <= t4 < TWO32 - 1
    ensures var t4' := if Add32(t6, read) < t6 then Add32(t4, 1) else t4;
      && t4 <= t4' <= t4 + 1
      && (t4' - seed) * TWO32 + Add32(t6, read) == (t4 - seed) * TWO32 + t6 + read
  {}

  lemma TurnKeepsMeaning(c: Cic, a: Accumulators, seed: u32, t: Totals, read: u32, extra: u32)
    requires Means(a, seed, t) && a.t4 < TWO32 - 1
    ensures Means(Turn(c, a, read, extra), seed, Include(t, read))
    ensures Turn(c, a, read, extra).t4 <= a.t4 + 1
  {
    var b := Turn(c, a, read, extra);
    assert seed <= b.t4 <= a.t4 + 1 && (b.t4 - seed) * TWO32 + b.t6 == seed + t.sum + read by {
      CarryIsExact(a.t4, a.t6, read, seed);
    }
    assert b.t3 == Xor32(seed, Xor32(t.parity, read)) by { XorAssociates(seed, t.parity, read); }
    RolledIsRotated(read);
    assert b.t5 == (seed + t.rotated + Rotated(read)) % TWO32 by {
      AddTwice(seed + t.rotated, Rotated(read), a.t5);
    }
  }

  lemma AddTwice(x: nat, y: u32, z: u32)
    requires z == x % TWO32
    ensures Add32(z, y) == (x + y) % TWO32
  {}

  /** After any number of turns, as long as the carry count cannot wrap, (t4 - seed) * 2^32 + t6 is seed
      plus the exact sum of the words, t3 is the seed xor-ed with all words, and t5 is the seed plus the
      sum of the rotated words modulo 2^32. */
  lemma {:induction false} AccumulatorsMeanTotals(c: Cic, seed: u32, words: seq<u32>, extras: seq<u32>)
    requires |words| == |extras| && seed + |words| < TWO32
    ensures Means(Fold(c, seed, words, extras), seed, Total(words))
    ensures Fold(c, seed, words, extras).t4 <= seed + |words|
  {
    if words == [] {
      XorZero(seed);
    } else {
      var n := |words| - 1;
      AccumulatorsMeanTotals(c, seed, words[..n], extras[..n]);
      TurnKeepsMeaning(c, Fold(c, seed, words[..n], extras[..n]), seed, Total(words[..n]), words[n], extras[n]);
    }
  }

  lemma MeaningIsUnique(a: Accumulators, b: Accumulators, seed: u32, t: Totals)
    requires Means(a, seed, t) && Means(b, seed, t)
    ensures a.t3 == b.t3 && a.t4 == b.t4 && a.t5 == b.t5 && a.t6 == b.t6
  {
    QuotientUnique(TWO32, a.t4 - seed, a.t6, b.t4 - seed, b.t6);
  }

  /* -------- permutations -------- */

  lemma IncludeCommutes(t: Totals, a: u32, b: u32)
    ensures Include(Include(t, a), b) == Include(Include(t, b), a)
  {
    XorAssociates(t.parity, a, b);
    XorAssociates(t.parity, b, a);
    XorCommutes(a, b);
  }

  lemma TotalSnoc(xs: seq<u32>, a: u32)
    ensures Total(xs + [a]) == Include(Total(xs), a)
  {
    assert (xs + [a])[..|xs|] == xs;
  }

  lemma {:induction false} TotalMoves(front: seq<u32>, a: u32, back: seq<u32>)
    ensures Total(front + [a] + back) == Include(Total(front + back), a)
  {
    if back == [] {
      assert front + [a] + back == front + [a] && front + back == front;
      TotalSnoc(front, a);
    } else {
      var n := |back| - 1;
      var less, z := back[..n], back[n];
      calc {
        Total(front + [a] + back);
        { assert front + [a] + back == (front + [a] + less) + [z]; TotalSnoc(front + [a] + less, z); }
        Include(Total(front + [a] + less), z);
        { TotalMoves(front, a, less); }
        Include(Include(Total(front + less), a), z);
        { IncludeCommutes(Total(front + less), a, z); }
        Include(Include(Total(front + less), z), a);
        { assert front + back == (front + less) + [z]; TotalSnoc(front + less, z); }
        Include(Total(front + back), a);
      }
    }
  }

  lemma SplitAt(ys: seq<u32>, i: nat)
    requires i < |ys|
    ensures ys == ys[..i] + [ys[i]] + ys[i + 1..]
    ensures multiset(ys) == multiset(ys[..i] + ys[i + 1..]) + multiset{ys[i]}
  {
    assert ys == ys[..i] + [ys[i]] + ys[i + 1..];
  }

  lemma Cancel(m: multiset<u32>, n: multiset<u32>, a: u32)
    requires m + multiset{a} == n + multiset{a}
    ensures m == n
  {
    assert m == (m + multiset{a}) - multiset{a};
    assert n == (n + multiset{a}) - multiset{a};
  }

  lemma DropOne(xs: seq<u32>, i: nat, ys: seq<u32>, j: nat)
    requires multiset(xs) == multiset(ys) && i < |xs| && j < |ys| && xs[i] == ys[j]
    ensures multiset(xs[..i] + xs[i + 1..]) == multiset(ys[..j] + ys[j + 1..])
  {
    SplitAt(xs, i);
    SplitAt(ys, j);
    Cancel(multiset(xs[..i] + xs[i + 1..]), multiset(ys[..j] + ys[j + 1..]), xs[i]);
  }

  lemma FindIn(xs: seq<u32>, a: u32) returns (i: nat)
    requires a in multiset(xs)
    ensures i < |xs| && xs[i] == a
  {
    i :| 0 <= i < |xs| && xs[i] == a;
  }

  lemma {:induction false} TotalIgnoresOrder(xs: seq<u32>, ys: seq<u32>)
    requires multiset(xs) == multiset(ys)
    ensures Total(xs) == Total(ys)
    decreases |xs|
  {
    if xs == [] {
      assert |ys| == |multiset(ys)|;
    } else {
      var n := |xs| - 1;
      assert xs[n] in multiset(xs);
      var i := FindIn(ys, xs[n]);
      var others := ys[..i] + ys[i + 1..];
      assert multiset(xs[..n]) == multiset(others) by {
        DropOne(xs, n, ys, i);
        assert xs[..n] + xs[n + 1..] == xs[..n];
      }
      calc {
        Total(xs);
        Include(Total(xs[..n]), xs[n]);
        { TotalIgnoresOrder(xs[..n], others); }
        Include(Total(others), xs[n]);
        { TotalMoves(ys[..i], ys[i], ys[i + 1..]); }
        Total(ys[..i] + [ys[i]] + ys[i + 1..]);
        { SplitAt(ys, i); }
        Total(ys);
      }
    }
  }

  /** For every chip type the first output word does not depend on the order of the input words. */
  lemma FirstWordIgnoresOrder(c: Cic, xs: seq<u32>, ys: seq<u32>, extras: seq<u32>, extras': seq<u32>)
    requires Seed(c).Some? && |xs| == |extras| == WORDS && |ys| == |extras'|
    requires multiset(xs) == multiset(ys)
    ensures |xs| == |ys|
    ensures FirstWord(c, Fold(c, Seed(c).value, xs, extras)) == FirstWord(c, Fold(c, Seed(c).value, ys, extras'))
  {
    assert |xs| == |multiset(xs)| == |multiset(ys)| == |ys|;
    var seed := Seed(c).value;
    TotalIgnoresOrder(xs, ys);
    AccumulatorsMeanTotals(c, seed, xs, extras);
    AccumulatorsMeanTotals(c, seed, ys, extras');
    MeaningIsUnique(Fold(c, seed, xs, extras), Fold(c, seed, ys, extras'), seed, Total(xs));
  }

  /* -------- bytes in, bytes out -------- */

  /** A little-endian word, as `BinaryReader` reads it. */
  function WordAt(bytes: seq<byte>, at: nat): u32
    requires at + 4 <= |bytes|
  {
    var b0: int, b1: int, b2: int, b3: int := bytes[at], bytes[at + 1], bytes[at + 2], bytes[at + 3];
    b0 + b1 * 0x100 + b2 * 0x1_0000 + b3 * 0x100_0000
  }

  /** A little-endian word, as `BinaryWriter` writes it. */
  function BytesOf(word: u32): seq<byte> {
    [word % 0x100, word / 0x100 % 0x100, word / 0x1_0000 % 0x100, word / 0x100_0000]
  }

  /** The word that reads the same four bytes in the other order. */
  function Swapped(word: u32): u32 {
    word % 0x100 * 0x100_0000 + word / 0x100 % 0x100 * 0x1_0000 + word / 0x1_0000 % 0x100 * 0x100 + word / 0x100_0000
  }

  function BigEndianAt(bytes: seq<byte>, at: nat): u32
    requires at + 4 <= |bytes|
  {
    var b0: int, b1: int, b2: int, b3: int := bytes[at], bytes[at + 1], bytes[at + 2], bytes[at + 3];
    b0 * 0x100_0000 + b1 * 0x1_0000 + b2 * 0x100 + b3
  }

  /** The words of the boot segment that enter the checksum. */
  function SegmentWords(input: seq<byte>): (r: seq<u32>)
    requires |input| >= INPUT_SIZE
    ensures |r| == WORDS
  {
    seq<u32>(WORDS, k requires 0 <= k < WORDS => WordAt(input, 0x1000 + 4 * k))
  }

  /** The boot-code words that the X105 mixes in, cycling through 256 bytes. */
  function ExtraWords(input: seq<byte>): (r: seq<u32>)
    requires |input| >= INPUT_SIZE
    ensures |r| == WORDS
  {
    seq<u32>(WORDS, k requires 0 <= k < WORDS => WordAt(input, 0x750 + 4 * k % 0x100))
  }

  function HashOf(c: Cic, input: seq<byte>): seq<byte>
    requires |input| >= INPUT_SIZE && Seed(c).Some?
  {
    var a := Fold(c, Seed(c).value, SegmentWords(input), ExtraWords(input));
    BytesOf(FirstWord(c, a)) + BytesOf(SecondWord(c, a))
  }

  /** The loop body at input offset `i`. */
  function TurnAt(c: Cic, a: Accumulators, input: seq<byte>, i: nat): Accumulators
    requires |input| >= INPUT_SIZE && i + 4 <= 4 * WORDS
  {
    Turn(c, a, WordAt(input, 0x1000 + i), WordAt(input, 0x40 + 0x0710 + i % 0x100))
  }

  lemma WordsAt(c: Cic, a: Accumulators, input: seq<byte>, k: nat, i: nat)
    requires |input| >= INPUT_SIZE && k < WORDS && i == 4 * k
    ensures TurnAt(c, a, input, i) == Turn(c, a, SegmentWords(input)[k], ExtraWords(input)[k])
  {
    assert SegmentWords(input)[k] == WordAt(input, 0x1000 + i);
    assert ExtraWords(input)[k] == WordAt(input, 0x750 + i % 0x100);
  }

  lemma FoldOneMore(c: Cic, seed: u32, words: seq<u32>, extras: seq<u32>, k: nat)
    requires k < |words| == |extras|
    ensures Fold(c, seed, words[..k + 1], extras[..k + 1])
         == Turn(c, Fold(c, seed, words[..k], extras[..k]), words[k], extras[k])
  {
    assert words[..k + 1][..k] == words[..k] && extras[..k + 1][..k] == extras[..k];
  }

  /** The accumulators after the first `k` words. */
  function Upto(c: Cic, seed: u32, input: seq<byte>, k: nat): Accumulators
    requires |input| >= INPUT_SIZE && k <= WORDS
  {
    Fold(c, seed, SegmentWords(input)[..k], ExtraWords(input)[..k])
  }

  lemma UptoGrows(c: Cic, seed: u32, input: seq<byte>, k: nat, i: nat, acc: Accumulators)
    requires |input| >= INPUT_SIZE && k < WORDS && i == 4 * k && acc == Upto(c, seed, input, k)
    ensures TurnAt(c, acc, input, i) == Upto(c, seed, input, k + 1)
  {
    WordsAt(c, acc, input, k, i);
    FoldOneMore(c, seed, SegmentWords(input), ExtraWords(input), k);
  }

  lemma UptoAll(c: Cic, seed: u32, input: seq<byte>)
    requires |input| >= INPUT_SIZE
    ensures Upto(c, seed, input, 0) == Start(seed)
    ensures Upto(c, seed, input, WORDS) == Fold(c, seed, SegmentWords(input), ExtraWords(input))
  {
    var words, extras := SegmentWords(input), ExtraWords(input);
    assert words[..WORDS] == words && extras[..WORDS] == extras;
  }

  /* -------- the output in closed form over the bytes of the image -------- */

  function LittleEndian(b: seq<byte>): (n: nat)
  {
    if b == [] then 0 else (b[0] as int) + 0x100 * LittleEndian(b[1..])
  }

  lemma LittleEndianOfFour(b: seq<byte>)
    requires |b| == 4
    ensures LittleEndian(b) == (b[0] as int) + (b[1] as int) * 0x100 + (b[2] as int) * 0x1_0000 + (b[3] as int) * 0x100_0000
    ensures LittleEndian(b) < TWO32
  {
    assert LittleEndian(b[3..]) == (b[3] as int) by { assert b[3..][1..] == []; }
    assert LittleEndian(b[2..]) == (b[2] as int) + 0x100 * LittleEndian(b[3..]) by { assert b[2..][1..] == b[3..]; }
    assert LittleEndian(b[1..]) == (b[1] as int) + 0x100 * LittleEndian(b[2..]) by { assert b[1..][1..] == b[2..]; }
  }

  function LittleEndianAt(x: seq<byte>, at: nat): u32
    requires at + 4 <= |x|
  {
    LittleEndianOfFour(x[at..at + 4]);
    LittleEndian(x[at..at + 4])
  }

  /** The words of the image from 0x1000 on, and the 64 boot-code words that go with them in turn. */
  function ImageWords(x: seq<byte>): (ws: seq<u32>)
    requires |x| >= 0x10_1000
    ensures |ws| == 0x4_0000
  {
    seq<u32>(0x4_0000, k requires 0 <= k < 0x4_0000 => LittleEndianAt(x, 0x1000 + 4 * k))
  }

  function BootWords(x: seq<byte>): (ws: seq<u32>)
    requires |x| >= 0x10_1000
    ensures |ws| == 0x4_0000
  {
    seq<u32>(0x4_0000, k requires 0 <= k < 0x4_0000 => LittleEndianAt(x, 0x750 + k % 64 * 4))
  }

  lemma WordAtIs(x: seq<byte>, at: nat)
    requires at + 4 <= |x|
    ensures WordAt(x, at) == LittleEndianAt(x, at)
  {
    LittleEndianOfFour(x[at..at + 4]);
  }

  lemma WordsOfTheImage(x: seq<byte>)
    requires |x| >= INPUT_SIZE
    ensures SegmentWords(x) == ImageWords(x) && ExtraWords(x) == BootWords(x)
  {
    forall k | 0 <= k < WORDS ensures SegmentWords(x)[k] == ImageWords(x)[k] { WordAtIs(x, 0x1000 + 4 * k); }
    forall k | 0 <= k < WORDS ensures ExtraWords(x)[k] == BootWords(x)[k] {
      WordAtIs(x, 0x750 + k % 64 * 4);
      assert 4 * k % 0x100 == k % 64 * 4;
    }
  }

  /** The sum of the words, each xor-ed with its boot-code word or with the sum of the rotated words so far. */
  function MixedSum(boot: bool, seed: u32, ws: seq<u32>, es: seq<u32>): nat
    requires |ws| == |es|
  {
    if ws == [] then 0
    else
      var n := |ws| - 1;
      MixedSum(boot, seed, ws[..n], es[..n])
      + Xor32(if boot then es[n] else (seed + Total(ws).rotated) % TWO32, ws[n])
  }

  /** The one accumulator without such a total: every word is xor-ed in, rotated when it is below the value
      so far, else along with the wrapped sum up to it. */
  function Chain(seed: u32, ws: seq<u32>): u32 {
    if ws == [] then seed
    else
      var n := |ws| - 1;
      var before, w := Chain(seed, ws[..n]), ws[n];
      RolledIsRotated(w);
      if w < before then Xor32(before, Rolled(w)) else Xor32(before, Xor32((seed + Total(ws).sum) % TWO32, w))
  }

  /** All accumulators at the end of the words. */
  function Closed(boot: bool, seed: u32, ws: seq<u32>, es: seq<u32>): Accumulators
    requires |ws| == |es|
  {
    Ending(seed, Total(ws), MixedSum(boot, seed, ws, es), Chain(seed, ws))
  }

  function Ending(seed: u32, t: Totals, mixed: nat, chain: u32): Accumulators {
    Accumulators((seed + mixed) % TWO32, chain, Xor32(seed, t.parity),
                 (seed + (seed + t.sum) / TWO32) % TWO32, (seed + t.rotated) % TWO32, (seed + t.sum) % TWO32)
  }

  lemma MeansHalves(a: Accumulators, seed: u32, t: Totals)
    requires Means(a, seed, t)
    ensures a.t4 == (seed + (seed + t.sum) / TWO32) % TWO32 && a.t6 == (seed + t.sum) % TWO32
  {
    ModUnique(seed + t.sum, TWO32, a.t4 - seed, a.t6);
  }

  lemma TurnChains(c: Cic, a: Accumulators, w: u32, e: u32, r: u32, b: Accumulators)
    requires r == Rotated(w) && b == Turn(c, a, w, e)
    ensures b.t2 == if w < a.t2 then Xor32(a.t2, r) else Xor32(a.t2, Xor32(b.t6, w))
    ensures b.t1 == Add32(a.t1, Xor32(if c.X105? then e else b.t5, w))
  {}

  lemma LastWord(boot: bool, seed: u32, ws: seq<u32>, es: seq<u32>, w: u32, e: u32, mixed: nat, before: u32)
    requires ws != [] && |ws| == |es| && w == ws[|ws| - 1] && e == es[|ws| - 1]
    requires mixed == MixedSum(boot, seed, ws[..|ws| - 1], es[..|ws| - 1]) && before == Chain(seed, ws[..|ws| - 1])
    ensures MixedSum(boot, seed, ws, es) == mixed + Xor32(if boot then e else (seed + Total(ws).rotated) % TWO32, w)
    ensures Rotated(w) == Rolled(w)
    ensures Chain(seed, ws) == if w < before then Xor32(before, Rotated(w))
                               else Xor32(before, Xor32((seed + Total(ws).sum) % TWO32, w))
  {
    RolledIsRotated(w);
  }

  /** The first two accumulators after one more word, `t` being the totals up to it. */
  predicate Follows(boot: bool, seed: u32, a: Accumulators, b: Accumulators, w: u32, e: u32, t: Totals) {
    && b.t1 == Add32(a.t1, Xor32(if boot then e else (seed + t.rotated) % TWO32, w))
    && b.t2 == if w < a.t2 then Xor32(a.t2, Rotated(w)) else Xor32(a.t2, Xor32((seed + t.sum) % TWO32, w))
  }

  lemma TurnFollows(c: Cic, seed: u32, a: Accumulators, b: Accumulators, w: u32, e: u32, t: Totals)
    requires b == Turn(c, a, w, e) && Means(b, seed, t)
    ensures Follows(c.X105?, seed, a, b, w, e, t)
  {
    TurnChains(c, a, w, e, Rotated(w), b);
    MeansHalves(b, seed, t);
  }

  predicate MixesAndChains(a: Accumulators, boot: bool, seed: u32, ws: seq<u32>, es: seq<u32>)
    requires |ws| == |es|
  {
    a.t1 == (seed + MixedSum(boot, seed, ws, es)) % TWO32 && a.t2 == Chain(seed, ws)
  }

  lemma TurnMixesAndChains(boot: bool, seed: u32, ws: seq<u32>, es: seq<u32>, a: Accumulators, b: Accumulators, n: nat)
    requires n + 1 == |ws| == |es| && Follows(boot, seed, a, b, ws[n], es[n], Total(ws))
    requires MixesAndChains(a, boot, seed, ws[..n], es[..n])
    ensures MixesAndChains(b, boot, seed, ws, es)
  {
    var mixed, t := MixedSum(boot, seed, ws[..n], es[..n]), Total(ws);
    LastWord(boot, seed, ws, es, ws[n], es[n], mixed, a.t2);
    AddTwice(seed + mixed, Xor32(if boot then es[n] else (seed + t.rotated) % TWO32, ws[n]), a.t1);
  }

  lemma {:induction false} FoldMixesAndChains(c: Cic, seed: u32, ws: seq<u32>, es: seq<u32>)
    requires |ws| == |es| && seed + |ws| < TWO32
    ensures MixesAndChains(Fold(c, seed, ws, es), c.X105?, seed, ws, es)
    decreases |ws|
  {
    if ws != [] {
      var n := |ws| - 1;
      FoldMixesAndChains(c, seed, ws[..n], es[..n]);
      AccumulatorsMeanTotals(c, seed, ws, es);
      var a, b := Fold(c, seed, ws[..n], es[..n]), Fold(c, seed, ws, es);
      TurnFollows(c, seed, a, b, ws[n], es[n], Total(ws));
      TurnMixesAndChains(c.X105?, seed, ws, es, a, b, n);
    }
  }

  lemma EndingIs(a: Accumulators, seed: u32, t: Totals, mixed: nat, chain: u32)
    requires Means(a, seed, t) && a.t1 == (seed + mixed) % TWO32 && a.t2 == chain
    ensures a == Ending(seed, t, mixed, chain)
  {
    MeansHalves(a, seed, t);
  }

  lemma FoldIsClosed(c: Cic, seed: u32, ws: seq<u32>, es: seq<u32>)
    requires |ws| == |es| && seed + |ws| < TWO32
    ensures Fold(c, seed, ws, es) == Closed(c.X105?, seed, ws, es)
  {
    var mixed, chain := MixedSum(c.X105?, seed, ws, es), Chain(seed, ws);
    FoldMixesAndChains(c, seed, ws, es);
    AccumulatorsMeanTotals(c, seed, ws, es);
    assert Fold(c, seed, ws, es) == Ending(seed, Total(ws), mixed, chain) by {
      EndingIs(Fold(c, seed, ws, es), seed, Total(ws), mixed, chain);
    }
  }

  /** The hash code spells out these two words, low byte first. */
  predicate Spells(hash: seq<byte>, first: int, second: int) {
    |hash| == 8 && LittleEndian(hash[..4]) == first && LittleEndian(hash[4..]) == second
  }

  predicate Known(c: Cic) { c.X101? || c.X102? || c.X103? || c.X105? || c.X106? }

  /** The start value of each known chip. */
  function OwnSeed(c: Cic): u32
    requires Known(c)
  {
    if c.X103? then 0xA3886759 else if c.X105? then 0xDF26F436 else if c.X106? then 0x1FEA617A else 0xF8CA4DDC
  }

  /** What the hash code of each known chip is, from the bytes of the image alone. */
  predicate IsHashCode(c: Cic, x: seq<byte>, hash: seq<byte>)
    requires |x| >= 0x10_1000 && Known(c)
  {
    IsOutput(c, Closed(c.X105?, OwnSeed(c), ImageWords(x), BootWords(x)), hash)
  }

  predicate IsOutput(c: Cic, a: Accumulators, hash: seq<byte>) {
    Spells(hash, Output(c, a.t6, a.t4, a.t3), Output(c, a.t5, a.t2, a.t1))
  }

  /** How a chip joins three accumulators: xor and add, multiply and add, or xor. */
  function Output(c: Cic, a: u32, b: u32, d: u32): int {
    if c.X103? then (Xor(a, b) + d) % TWO32
    else if c.X106? then (a * b + d) % TWO32
    else Xor(Xor(a, b), d)
  }

  lemma BytesOfSpell(word: u32)
    ensures |BytesOf(word)| == 4 && LittleEndian(BytesOf(word)) == word
  {
    LittleEndianOfFour(BytesOf(word));
    Quarters(word);
  }

  lemma Quarters(word: u32)
    ensures word % 0x100 + word / 0x100 % 0x100 * 0x100 + word / 0x1_0000 % 0x100 * 0x1_0000
            + word / 0x100_0000 * 0x100_0000 == word
  {
    assert word / 0x1_0000 == word / 0x100 / 0x100 && word / 0x100_0000 == word / 0x1_0000 / 0x100;
  }

  lemma BytesSpell(first: u32, second: u32)
    ensures Spells(BytesOf(first) + BytesOf(second), first, second)
  {
    BytesOfSpell(first);
    BytesOfSpell(second);
    var hash := BytesOf(first) + BytesOf(second);
    assert hash[..4] == BytesOf(first) && hash[4..] == BytesOf(second);
  }

  lemma WordsAreOutputs(c: Cic, a: Accumulators)
    ensures FirstWord(c, a) == Output(c, a.t6, a.t4, a.t3) && SecondWord(c, a) == Output(c, a.t5, a.t2, a.t1)
  {}

  lemma OutputOf(c: Cic, a: Accumulators)
    ensures IsOutput(c, a, BytesOf(FirstWord(c, a)) + BytesOf(SecondWord(c, a)))
  {
    BytesSpell(FirstWord(c, a), SecondWord(c, a));
    WordsAreOutputs(c, a);
  }

  /** The hash code of every known chip is the closed form. */
  lemma HashIsClosedForm(c: Cic, x: seq<byte>)
    requires |x| >= INPUT_SIZE && Seed(c).Some?
    ensures Known(c) && IsHashCode(c, x, HashOf(c, x))
  {
    WordsOfTheImage(x);
    FoldIsClosed(c, OwnSeed(c), SegmentWords(x), ExtraWords(x));
    OutputOf(c, Fold(c, OwnSeed(c), SegmentWords(x), ExtraWords(x)));
  }

  class RomChecksum {
    const cicType: Cic
    var hashcode: seq<byte>

    constructor (t: Cic)
      ensures cicType == t && hashcode == Zeros(8)
    {
      cicType, hashcode := t, Zeros(8);
    }

    /** The loop over the boot segment. */
    method Accumulate(input: seq<byte>, seed: u32) returns (acc: Accumulators)
      requires |input| >= INPUT_SIZE
      ensures acc == Fold(cicType, seed, SegmentWords(input), ExtraWords(input))
    {
      UptoAll(cicType, seed, input);
      ghost var k := 0;
      acc := Start(seed);
      var i := 0;
      while i < 0x10_0000
        invariant i == 4 * k && k <= WORDS
        invariant acc == Upto(cicType, seed, input, k)
      {
        UptoGrows(cicType, seed, input, k, i, acc);
        acc := TurnAt(cicType, acc, input, i);
        i, k := i + 4, k + 1;
      }
    }

    /** `ok` is false where the C# method throws. */
    method HashCore(input: seq<byte>, size: int) returns (ok: bool)
      requires size <= |input|
      modifies this
      ensures ok == (size >= 0x10_1000)
      ensures hashcode == if ok && Seed(cicType).Some? then HashOf(cicType, input) else old(hashcode)
      ensures if ok && Known(cicType) then IsHashCode(cicType, input, hashcode)
              else hashcode == old(hashcode)
    {
      if size < INPUT_SIZE {
        return false;
      }
      ok := true;
      if Seed(cicType).None? {
        return;
      }
      HashIsClosedForm(cicType, input);
      var acc := Accumulate(input, Seed(cicType).value);
      hashcode := BytesOf(FirstWord(cicType, acc)) + BytesOf(SecondWord(cicType, acc));
    }

    /** The first word as the cartridge header stores it, most significant byte first. */
    function Crc1(): int
      reads this
      requires |hashcode| == 8
    {
      ToInt32(BigEndianAt(hashcode, 0))
    }

    function Crc2(): int
      reads this
      requires |hashcode| == 8
    {
      ToInt32(BigEndianAt(hashcode, 4))
    }
  }

  /** A hash code that spells two words has them, with their bytes in the other order, as CRC1 and CRC2. */
  lemma CrcsAreTheWords(a: RomChecksum, first: u32, second: u32)
    requires Spells(a.hashcode, first, second)
    ensures a.Crc1() == ToInt32(Swapped(first)) && a.Crc2() == ToInt32(Swapped(second))
  {
    OtherOrder(a.hashcode[..4], first);
    OtherOrder(a.hashcode[4..], second);
  }

  lemma OtherOrder(b: seq<byte>, word: u32)
    requires |b| == 4 && LittleEndian(b) == word
    ensures BigEndianAt(b, 0) == Swapped(word)
  {
    LittleEndianOfFour(b);
    FourthsOf(b[0], b[1], b[2], b[3]);
  }

  lemma FourthsOf(b0: int, b1: int, b2: int, b3: int)
    requires 0 <= b0 < 0x100 && 0 <= b1 < 0x100 && 0 <= b2 < 0x100 && 0 <= b3 < 0x100
    ensures var w := b0 + b1 * 0x100 + b2 * 0x1_0000 + b3 * 0x100_0000;
      w < TWO32 && w % 0x100 == b0 && w / 0x100 % 0x100 == b1 && w / 0x1_0000 % 0x100 == b2 && w / 0x100_0000 == b3
  {
    var upper := b2 + b3 * 0x100;
    var rest := b1 + upper * 0x100;
    var w := b0 + rest * 0x100;
    ModUnique(w, 0x100, rest, b0);
    ModUnique(rest, 0x100, upper, b1);
    ModUnique(w, 0x1_0000, upper, b0 + b1 * 0x100);
    ModUnique(upper, 0x100, b3, b2);
    ModUnique(w, 0x100_0000, b3, b0 + b1 * 0x100 + b2 * 0x1_0000);
  }

  /** Reordering the segment's words leaves CRC1 alone. */
  lemma Crc1IgnoresOrder(x: seq<byte>, y: seq<byte>, a: RomChecksum, b: RomChecksum)
    requires |x| >= INPUT_SIZE && |y| >= INPUT_SIZE && Seed(a.cicType).Some? && a.cicType == b.cicType
    requires a.hashcode == HashOf(a.cicType, x) && b.hashcode == HashOf(b.cicType, y)
    requires multiset(SegmentWords(x)) == multiset(SegmentWords(y))
    ensures |a.hashcode| == |b.hashcode| == 8 && a.Crc1() == b.Crc1()
  {
    var c := a.cicType;
    FirstWordIgnoresOrder(c, SegmentWords(x), SegmentWords(y), ExtraWords(x), ExtraWords(y));
    HashSpells(c, x, a);
    HashSpells(c, y, b);
  }

  lemma HashSpells(c: Cic, x: seq<byte>, a: RomChecksum)
    requires |x| >= INPUT_SIZE && Seed(c).Some? && a.hashcode == HashOf(c, x)
    ensures var acc := Fold(c, Seed(c).value, SegmentWords(x), ExtraWords(x));
      && |a.hashcode| == 8 && a.Crc1() == ToInt32(Swapped(FirstWord(c, acc)))
  {
    var acc := Fold(c, Seed(c).value, SegmentWords(x), ExtraWords(x));
    BytesSpell(FirstWord(c, acc), SecondWord(c, acc));
    CrcsAreTheWords(a, FirstWord(c, acc), SecondWord(c, acc));
  }
}
