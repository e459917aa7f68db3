/** Big-endian byte strings as numbers, and what masks and shifts by whole bytes do to them. */
module Bytes {

  import opened Common
  import opened Bits

  function BigEndian(s: seq<byte>): nat
    decreases |s|
  {
    if s == [] then 0 else BigEndian(s[..|s| - 1]) * 256 + s[|s| - 1]
  }

  /** The lowest `n` bytes of `v`, most significant first. */
  function ToBytes(n: nat, v: nat): (s: seq<byte>)
    ensures |s| == n
    decreases n
  {
    if n == 0 then [] else ToBytes(n - 1, v / 256) + [v % 256]
  }

  /** One more than the largest number of `n` bytes. */
  function Top(n: nat): (p: nat)
    ensures p >= 1
  {
    Pow2(8 * n)
  }

  lemma TopStep(n: nat)
    ensures Top(n + 1) == Top(n) * 256
  {
    Pow2Adds(8 * n, 8);
    Pow2Values();
  }

  lemma {:induction false} BigEndianFits(s: seq<byte>)
    ensures BigEndian(s) < Top(|s|)
    decreases |s|
  {
    if s != [] {
      BigEndianFits(s[..|s| - 1]);
      TopStep(|s| - 1);
    }
  }

  lemma ShiftLastByte(high: nat, p: nat, low: nat, b: nat)
    ensures (high * p + low) * 256 + b == high * (p * 256) + (low * 256 + b)
  {}

  /** A byte string is its front moved up by the size of its rest, plus its rest. */
  lemma {:induction false} BigEndianConcat(s: seq<byte>, t: seq<byte>)
    ensures BigEndian(s + t) == BigEndian(s) * Top(|t|) + BigEndian(t)
    decreases |t|
  {
    if t == [] {
      assert s + t == s;
    } else {
      var n := |t| - 1;
      assert (s + t)[..|s| + n] == s + t[..n];
      BigEndianConcat(s, t[..n]);
      TopStep(n);
      ShiftLastByte(BigEndian(s), Top(n), BigEndian(t[..n]), t[n]);
    }
  }

  lemma {:induction false} BytesReadBack(s: seq<byte>)
    ensures ToBytes(|s|, BigEndian(s)) == s
    decreases |s|
  {
    if s != [] {
      var n := |s| - 1;
      BytesReadBack(s[..n]);
      assert BigEndian(s) / 256 == BigEndian(s[..n]);
    }
  }

  lemma {:induction false} BytesHoldLowPart(n: nat, v: nat)
    ensures BigEndian(ToBytes(n, v)) == v % Top(n)
    decreases n
  {
    if n > 0 {
      BytesHoldLowPart(n - 1, v / 256);
      TopStep(n - 1);
      RemainderByByte(v, Top(n - 1));
    }
  }

  lemma RemainderByByte(v: nat, p: nat)
    requires p >= 1
    ensures v % (p * 256) == (v / 256) % p * 256 + v % 256
  {
    var h := v / 256;
    assert h == p * (h / p) + h % p;
    ModUnique(v, p * 256, h / p, h % p * 256 + v % 256);
  }

  /* -------- unchecked operators on unsigned integers of `n` bytes -------- */

  function Add(n: nat, a: int, b: int): (r: nat)
    ensures r < Top(n)
  {
    (a + b) % Top(n)
  }

  function Left(n: nat, v: nat, k: nat): nat { v * Pow2(k) % Top(n) }

  function Right(v: nat, k: nat): int { v / Pow2(k) }

  /* -------- masks and shifts by whole bytes -------- */

  /** The parts of a byte string at `i`, with `k` bytes after it, by division. */
  lemma Parts(s: seq<byte>, i: nat, k: nat, p: nat)
    requires i + k == |s| && p == Top(k)
    ensures BigEndian(s) == BigEndian(s[..i]) * p + BigEndian(s[i..]) && BigEndian(s[i..]) < p
    ensures BigEndian(s) / p == BigEndian(s[..i]) && BigEndian(s) % p == BigEndian(s[i..])
  {
    var high, low := s[..i], s[i..];
    assert BigEndian(s) == BigEndian(high) * p + BigEndian(low) by {
      BigEndianConcat(high, low);
      assert high + low == s;
    }
    BigEndianFits(low);
    Divides(BigEndian(s), BigEndian(high), BigEndian(low), p);
  }

  lemma Divides(v: nat, high: nat, low: nat, p: nat)
    requires v == high * p + low && low < p
    ensures v / p == high && v % p == low
  {
    ModUnique(v, p, high, low);
  }

  /** Ones in the highest `i` of `i + k` bytes. */
  function HighMask(i: nat, k: nat): nat { (Top(i) - 1) * Top(k) }

  /** Keeping the lowest bytes. */
  lemma MaskLow(s: seq<byte>, i: nat, k: nat)
    requires i + k == |s|
    ensures And(BigEndian(s), Top(k) - 1) == BigEndian(s[i..])
  {
    Parts(s, i, k, Top(k));
    AndLowMask(BigEndian(s), 8 * k);
  }

  /** Keeping the highest bytes in place. */
  lemma MaskHigh(s: seq<byte>, i: nat, k: nat)
    requires i + k == |s|
    ensures And(BigEndian(s), HighMask(i, k)) == BigEndian(s[..i]) * Top(k)
  {
    Parts(s, i, k, Top(k));
    AndHigh(BigEndian(s[..i]), Top(i) - 1, 8 * k, BigEndian(s[i..]));
    MaskLow(s[..i], 0, i);
    assert s[..i][0..] == s[..i];
  }

  /** Shifting right drops the lowest bytes. */
  lemma ShiftRight(s: seq<byte>, i: nat, k: nat)
    requires i + k == |s|
    ensures Right(BigEndian(s), 8 * k) == BigEndian(s[..i])
  {
    Parts(s, i, k, Top(k));
  }

  /** Shifting left within the width drops the highest bytes. */
  lemma ShiftLeft(s: seq<byte>, i: nat, k: nat)
    requires i + k == |s|
    ensures Left(|s|, BigEndian(s), 8 * i) == BigEndian(s[i..]) * Top(i)
  {
    var high, low := BigEndian(s[..i]), BigEndian(s[i..]);
    Parts(s, i, k, Top(k));
    Pow2Adds(8 * k, 8 * i);
    MovedUp(BigEndian(s), high, low, Top(k), Top(i), Top(|s|));
  }

  lemma MovedUp(v: nat, high: nat, low: nat, p: nat, q: nat, pq: nat)
    requires v == high * p + low && low < p && q > 0 && pq == p * q
    ensures (v * q) % pq == low * q
  {
    LessTimes(low, p, q);
    MovedSum(v, high, low, p, q);
    ModUnique(v * q, p * q, high, low * q);
  }

  lemma MovedSum(v: nat, high: nat, low: nat, p: nat, q: nat)
    requires v == high * p + low
    ensures v * q == (p * q) * high + low * q
  {}

  lemma LessTimes(a: nat, b: nat, d: nat)
    requires a < b && d > 0
    ensures a * d < b * d
  {}

  /** A front and a rest that make up `n` bytes add up without a carry. */
  lemma Joined(n: nat, front: seq<byte>, rest: seq<byte>, high: nat, low: nat)
    requires |front| + |rest| == n
    requires high == BigEndian(front) * Top(|rest|) && low == BigEndian(rest)
    ensures Add(n, high, low) == Or(high, low) == BigEndian(front + rest)
  {
    BigEndianConcat(front, rest);
    BigEndianFits(front + rest);
    SmallRemainder(high + low, Top(n));
    BigEndianFits(rest);
    OrDisjoint(BigEndian(front), 8 * |rest|, low);
  }

  /** Masking away the low `k` bytes of `x` and adding the high bytes of `y` in their place. */
  lemma MergeBelow(x: seq<byte>, y: seq<byte>, i: nat, k: nat)
    requires |x| == |y| == i + k
    ensures Add(|x|, And(BigEndian(x), HighMask(i, k)), Right(BigEndian(y), 8 * i)) == BigEndian(x[..i] + y[..k])
    ensures Or(And(BigEndian(x), HighMask(i, k)), Right(BigEndian(y), 8 * i)) == BigEndian(x[..i] + y[..k])
  {
    var high, low := And(BigEndian(x), HighMask(i, k)), Right(BigEndian(y), 8 * i);
    assert high == BigEndian(x[..i]) * Top(k) by { MaskHigh(x, i, k); }
    assert low == BigEndian(y[..k]) by { ShiftRight(y, k, i); }
    Joined(|x|, x[..i], y[..k], high, low);
  }

  /** Masking away the high `i` bytes of `x` and adding the low bytes of `y` in their place. */
  lemma MergeAbove(x: seq<byte>, y: seq<byte>, i: nat, k: nat)
    requires |x| == |y| == i + k
    ensures Add(|x|, And(BigEndian(x), Top(k) - 1), Left(|y|, BigEndian(y), 8 * k)) == BigEndian(y[k..] + x[i..])
    ensures Or(Left(|y|, BigEndian(y), 8 * k), And(BigEndian(x), Top(k) - 1)) == BigEndian(y[k..] + x[i..])
  {
    var high, low := Left(|y|, BigEndian(y), 8 * k), And(BigEndian(x), Top(k) - 1);
    assert high == BigEndian(y[k..]) * Top(k) by { ShiftLeft(y, k, i); }
    assert low == BigEndian(x[i..]) by { MaskLow(x, i, k); }
    Joined(|x|, y[k..], x[i..], high, low);
    AddCommutes(|x|, high, low);
  }

  lemma AddCommutes(n: nat, a: nat, b: nat)
    ensures Add(n, a, b) == Add(n, b, a)
  {}

  /** Masking never makes a number larger. */
  lemma MasksShrink(v: nat, i: nat, k: nat, s: seq<byte>)
    requires v < Top(i + k) && s == ToBytes(i + k, v)
    ensures 0 <= And(v, HighMask(i, k)) <= v && 0 <= And(v, Top(k) - 1) <= v
  {
    ReadsBack(v, i + k);
    assert And(v, HighMask(i, k)) == BigEndian(s[..i]) * Top(k) by { MaskHigh(s, i, k); }
    assert 0 <= BigEndian(s[..i]) * Top(k) <= v by {
      Parts(s, i, k, Top(k));
      NotNegative(BigEndian(s[..i]), Top(k));
    }
    assert And(v, Top(k) - 1) == BigEndian(s[i..]) && BigEndian(s[i..]) <= v by {
      MaskLow(s, i, k);
      Parts(s, i, k, Top(k));
    }
  }

  lemma NotNegative(a: nat, b: nat)
    ensures 0 <= a * b
  {}

  lemma ReadsBack(v: nat, n: nat)
    requires v < Top(n)
    ensures BigEndian(ToBytes(n, v)) == v
  {
    BytesHoldLowPart(n, v);
    SmallRemainder(v, Top(n));
  }
}
