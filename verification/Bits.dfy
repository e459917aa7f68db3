/** Bitwise operators of C# on integers in two's complement, defined bit by bit. */
module Bits {

  function Pow2(n: nat): (p: nat)
    ensures p >= 1
  {
    if n == 0 then 1 else 2 * Pow2(n - 1)
  }

  lemma Pow2Adds(m: nat, n: nat)
    ensures Pow2(m + n) == Pow2(m) * Pow2(n)
    decreases m
  {
    if m > 0 {
      Pow2Adds(m - 1, n);
      assert Pow2(m) * Pow2(n) == 2 * (Pow2(m - 1) * Pow2(n));
    }
  }

  lemma Pow2Values()
    ensures Pow2(8) == 0x100 && Pow2(16) == 0x1_0000 && Pow2(32) == 0x1_0000_0000
  {
    assert Pow2(4) == 16;
    Pow2Adds(4, 4);
    Pow2Adds(8, 8);
    Pow2Adds(16, 16);
  }

  function Magnitude(a: int): nat { if a < 0 then -a - 1 else a }

  /** True once all remaining bits of `a` are copies of its sign. */
  predicate IsSign(a: int) { a == 0 || a == -1 }

  function And(a: int, b: int): int
    decreases Magnitude(a) + Magnitude(b)
  {
    if IsSign(a) && IsSign(b) then (if a == b then a else 0)
    else 2 * And(a / 2, b / 2) + (if a % 2 == 1 && b % 2 == 1 then 1 else 0)
  }

  function Or(a: int, b: int): int
    decreases Magnitude(a) + Magnitude(b)
  {
    if IsSign(a) && IsSign(b) then (if a == b then a else -1)
    else 2 * Or(a / 2, b / 2) + (if a % 2 == 1 || b % 2 == 1 then 1 else 0)
  }

  function Xor(a: int, b: int): int
    decreases Magnitude(a) + Magnitude(b)
  {
    if IsSign(a) && IsSign(b) then (if a == b then 0 else -1)
    else 2 * Xor(a / 2, b / 2) + (if a % 2 == b % 2 then 0 else 1)
  }

  /* -------- one bit at a time -------- */

  lemma AndStep(a: int, b: int)
    ensures And(a, b) == 2 * And(a / 2, b / 2) + (if a % 2 == 1 && b % 2 == 1 then 1 else 0)
  {}

  lemma OrStep(a: int, b: int)
    ensures Or(a, b) == 2 * Or(a / 2, b / 2) + (if a % 2 == 1 || b % 2 == 1 then 1 else 0)
  {}

  lemma XorStep(a: int, b: int)
    ensures Xor(a, b) == 2 * Xor(a / 2, b / 2) + (if a % 2 == b % 2 then 0 else 1)
  {}

  lemma XorHalves(a: int, b: int)
    ensures Xor(a, b) / 2 == Xor(a / 2, b / 2)
    ensures Xor(a, b) % 2 == if a % 2 == b % 2 then 0 else 1
  {
    XorStep(a, b);
  }

  /** A number is a high part and `k` low bits; halving drops one low bit. */
  lemma HalveParts(a: int, k: nat, r: int)
    requires k > 0
    ensures a * Pow2(k) == 2 * (a * Pow2(k - 1))
    ensures (a * Pow2(k) + r) / 2 == a * Pow2(k - 1) + r / 2
    ensures (a * Pow2(k) + r) % 2 == r % 2
  {}

  lemma {:induction false} XorSplit(a: int, b: int, k: nat, r: nat, s: nat)
    requires r < Pow2(k) && s < Pow2(k)
    ensures Xor(a * Pow2(k) + r, b * Pow2(k) + s) == Xor(a, b) * Pow2(k) + Xor(r, s)
    ensures 0 <= Xor(r, s) < Pow2(k)
  {
    if k > 0 {
      var x, y := a * Pow2(k) + r, b * Pow2(k) + s;
      var u, v, t := a * Pow2(k - 1), b * Pow2(k - 1), Xor(a, b) * Pow2(k - 1);
      assert x / 2 == u + r / 2 && x % 2 == r % 2 by { HalveParts(a, k, r); }
      assert y / 2 == v + s / 2 && y % 2 == s % 2 by { HalveParts(b, k, s); }
      assert Xor(a, b) * Pow2(k) == 2 * t by { HalveParts(Xor(a, b), k, 0); }
      XorSplit(a, b, k - 1, r / 2, s / 2);
      XorStep(r, s);
      XorStep(x, y);
    }
  }

  lemma {:induction false} AndSplit(a: int, b: int, k: nat, r: nat, s: nat)
    requires r < Pow2(k) && s < Pow2(k)
    ensures And(a * Pow2(k) + r, b * Pow2(k) + s) == And(a, b) * Pow2(k) + And(r, s)
    ensures 0 <= And(r, s) < Pow2(k)
  {
    if k > 0 {
      var x, y := a * Pow2(k) + r, b * Pow2(k) + s;
      var u, v, t := a * Pow2(k - 1), b * Pow2(k - 1), And(a, b) * Pow2(k - 1);
      assert x / 2 == u + r / 2 && x % 2 == r % 2 by { HalveParts(a, k, r); }
      assert y / 2 == v + s / 2 && y % 2 == s % 2 by { HalveParts(b, k, s); }
      assert And(a, b) * Pow2(k) == 2 * t by { HalveParts(And(a, b), k, 0); }
      AndSplit(a, b, k - 1, r / 2, s / 2);
      AndStep(r, s);
      AndStep(x, y);
    }
  }

  lemma {:induction false} OrSplit(a: int, b: int, k: nat, r: nat, s: nat)
    requires r < Pow2(k) && s < Pow2(k)
    ensures Or(a * Pow2(k) + r, b * Pow2(k) + s) == Or(a, b) * Pow2(k) + Or(r, s)
    ensures 0 <= Or(r, s) < Pow2(k)
  {
    if k > 0 {
      var x, y := a * Pow2(k) + r, b * Pow2(k) + s;
      var u, v, t := a * Pow2(k - 1), b * Pow2(k - 1), Or(a, b) * Pow2(k - 1);
      assert x / 2 == u + r / 2 && x % 2 == r % 2 by { HalveParts(a, k, r); }
      assert y / 2 == v + s / 2 && y % 2 == s % 2 by { HalveParts(b, k, s); }
      assert Or(a, b) * Pow2(k) == 2 * t by { HalveParts(Or(a, b), k, 0); }
      OrSplit(a, b, k - 1, r / 2, s / 2);
      OrStep(r, s);
      OrStep(x, y);
    }
  }

  /* -------- laws -------- */

  lemma {:induction false} XorZero(a: int)
    ensures Xor(a, 0) == a && Xor(0, a) == a
    decreases Magnitude(a)
  {
    if !IsSign(a) { XorZero(a / 2); }
  }

  lemma {:induction false} XorCommutes(a: int, b: int)
    ensures Xor(a, b) == Xor(b, a)
    decreases Magnitude(a) + Magnitude(b)
  {
    if !(IsSign(a) && IsSign(b)) { XorCommutes(a / 2, b / 2); }
  }

  lemma {:induction false} XorAssociates(a: int, b: int, c: int)
    ensures Xor(Xor(a, b), c) == Xor(a, Xor(b, c))
    decreases Magnitude(a) + Magnitude(b) + Magnitude(c)
  {
    if !(IsSign(a) && IsSign(b) && IsSign(c)) {
      XorAssociates(a / 2, b / 2, c / 2);
      XorHalves(a, b);
      XorHalves(b, c);
      XorHalves(Xor(a, b), c);
      XorHalves(a, Xor(b, c));
    }
  }

  lemma {:induction false} XorSelf(a: int)
    ensures Xor(a, a) == 0
    decreases Magnitude(a)
  {
    if !IsSign(a) { XorSelf(a / 2); }
  }

  lemma XorCancels(a: int, b: int, c: int)
    requires Xor(a, b) == Xor(a, c)
    ensures b == c
  {
    XorAssociates(a, a, b);
    XorAssociates(a, a, c);
    XorSelf(a);
    XorZero(b);
    XorZero(c);
  }

  lemma {:induction false} OrZero(a: int)
    ensures Or(a, 0) == a && Or(0, a) == a
    decreases Magnitude(a)
  {
    if !IsSign(a) { OrZero(a / 2); }
  }

  lemma {:induction false} AndZero(a: int)
    ensures And(a, 0) == 0
    decreases Magnitude(a)
  {
    if !IsSign(a) { AndZero(a / 2); }
  }

  /** Masking with `n` ones keeps the low `n` bits. */
  lemma {:induction false} AndLowMask(a: int, n: nat)
    ensures And(a, Pow2(n) - 1) == a % Pow2(n)
    decreases n
  {
    if n == 0 {
      AndZero(a);
    } else {
      var m := Pow2(n - 1);
      var low := (a / 2) % m;
      assert And(a / 2, m - 1) == low by { AndLowMask(a / 2, n - 1); }
      assert a % (2 * m) == 2 * low + a % 2 by { ModHalves(a, m); }
      AndStep(a, 2 * m - 1);
    }
  }

  lemma ModHalves(a: int, p: nat)
    requires p >= 1
    ensures a % (2 * p) == 2 * ((a / 2) % p) + a % 2
  {
    var h := a / 2;
    var q, r := h / p, h % p;
    assert h == p * q + r;
    assert a == 2 * h + a % 2;
    assert a == (2 * p) * q + (2 * r + a % 2);
    ModUnique(a, 2 * p, q, 2 * r + a % 2);
  }

  lemma MulAtLeast(d: nat, x: int)
    requires x >= 1
    ensures d * x >= d
  {}

  lemma QuotientUnique(d: nat, q: int, r: nat, q': int, r': nat)
    requires r < d && r' < d && d * q + r == d * q' + r'
    ensures q == q'
  {
    assert d * (q' - q) == d * q' - d * q < d;
    assert d * (q - q') == d * q - d * q' < d;
    if q < q' {
      MulAtLeast(d, q' - q);
    } else if q' < q {
      MulAtLeast(d, q - q');
    }
  }

  lemma ModUnique(a: int, d: nat, q: int, r: nat)
    requires a == d * q + r && r < d
    ensures a % d == r && a / d == q
  {
    QuotientUnique(d, q, r, a / d, a % d);
  }

  /** Numbers without a common bit are or-ed by adding. */
  lemma OrDisjoint(a: nat, k: nat, r: nat)
    requires r < Pow2(k)
    ensures Or(a * Pow2(k), r) == a * Pow2(k) + r
  {
    OrSplit(a, 0, k, 0, r);
    OrZero(a);
    OrZero(r);
  }

  /** A mask without low bits clears them. */
  lemma AndHigh(q: int, m: int, k: nat, r: nat)
    requires r < Pow2(k)
    ensures And(q * Pow2(k) + r, m * Pow2(k)) == And(q, m) * Pow2(k)
  {
    AndSplit(q, m, k, r, 0);
    AndZero(r);
  }

  lemma XorDisjoint(a: int, k: nat, r: nat)
    requires r < Pow2(k)
    ensures Xor(a * Pow2(k), r) == a * Pow2(k) + r
  {
    XorSplit(a, 0, k, 0, r);
    XorZero(a);
    XorZero(r);
  }

  lemma OrPrefixStep(x: nat, y: nat, b: nat)
    requires Or(x, y) == y && b < 2
    ensures Or(2 * x + b, 2 * y + b) == 2 * y + b
  {
    OrStep(2 * x + b, 2 * y + b);
    assert (2 * x + b) / 2 == x && (2 * y + b) / 2 == y;
  }

  /** Or-ing the low bits of a number with more of its low bits gives the longer part. */
  lemma {:induction false} OrPrefix(a: nat, i: nat, j: nat)
    requires i <= j
    ensures Or(a % Pow2(i), a % Pow2(j)) == a % Pow2(j)
  {
    if i == 0 {
      OrZero(a % Pow2(j));
    } else {
      var m, n := Pow2(i - 1), Pow2(j - 1);
      var x, y := (a / 2) % m, (a / 2) % n;
      assert Or(x, y) == y by { OrPrefix(a / 2, i - 1, j - 1); }
      assert a % (2 * m) == 2 * x + a % 2 by { ModHalves(a, m); }
      assert a % (2 * n) == 2 * y + a % 2 by { ModHalves(a, n); }
      OrPrefixStep(x, y, a % 2);
    }
  }

  lemma SmallRemainder(q: nat, n: nat)
    requires q < n
    ensures q % n == q
  {}
}
