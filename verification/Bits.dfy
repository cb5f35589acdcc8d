/** Unsigned machine integers seen through their binary digits. Bitwise AND is defined one digit at
    a time on natural numbers, so that the masks the relay uses can be related to division. */
module Bits {

  function Pow2(n: nat): (p: nat)
    ensures p > 0
  {
    if n == 0 then 1 else 2 * Pow2(n - 1)
  }

  /** Bitwise AND of two unsigned integers. */
  function BitAnd(x: nat, y: nat): (r: nat)
    ensures r <= x && r <= y
  {
    if x == 0 || y == 0 then 0 else 2 * BitAnd(x / 2, y / 2) + if x % 2 == 1 && y % 2 == 1 then 1 else 0
  }

  /** `x << k` on 32 bits: the digits shifted out are lost. */
  function ShiftLeft32(x: nat, k: nat): (r: nat)
    ensures r < 0x1_0000_0000
  {
    (x * Pow2(k)) % 0x1_0000_0000
  }

  lemma DivModUnique(x: int, d: int, q: int, r: int)
    requires d > 0 && 0 <= r < d && x == d * q + r
    ensures x / d == q && x % d == r
  {
    QuotientBound(d, q - x / d, x % d - r);
  }

  lemma QuotientBound(d: int, k: int, r: int)
    requires d > 0 && d * k == r && -d < r < d
    ensures k == 0
  {
  }

  /** Rounding down to a multiple of `m` determines the quotient. */
  lemma RoundDownIsQuotient(x: nat, y: nat, m: nat)
    requires m > 0
    ensures y - y % m <= x < y - y % m + m <==> x / m == y / m
    ensures x - x % m == y - y % m <==> x / m == y / m
  {
    var a, b := x / m, y / m;
    var lo := m * b;
    assert y - y % m == lo && x - x % m == m * a;
    if lo <= x < lo + m {
      DivModUnique(x, m, b, x - lo);
    }
    if m * a == lo {
      QuotientBound(m, a - b, 0);
    }
  }

  lemma QuotientOfQuotient(x: nat, d: nat, t: nat)
    requires d > 0 && t > 0
    ensures d * t > 0 && x / (d * t) == (x / d) / t
  {
    ComposeQuotients(x, d, t, x / d, x % d, (x / d) / t, (x / d) % t);
  }

  lemma ComposeQuotients(x: nat, d: nat, t: nat, q: nat, r: nat, a: nat, s: nat)
    requires r < d && s < t && x == d * q + r && q == t * a + s
    ensures d * t > 0 && x / (d * t) == a
  {
    MulAssociate(d, t, a, s);
    MulBelow(d, t, s, r);
    DivModUnique(x, d * t, a, d * s + r);
  }

  lemma MulAssociate(d: nat, t: nat, a: nat, s: nat)
    ensures d * (t * a + s) == (d * t) * a + d * s
  {
  }

  lemma MulBelow(d: nat, t: nat, s: nat, r: nat)
    requires s < t && r < d
    ensures 0 <= d * s + r < d * t
  {
    assert d * s <= d * (t - 1);
  }

  lemma ModDouble(x: nat, m: nat)
    requires m > 0
    ensures x % (2 * m) == 2 * ((x / 2) % m) + x % 2
  {
    var q, r := (x / 2) / m, (x / 2) % m;
    assert x / 2 == m * q + r;
    assert x == 2 * (m * q + r) + x % 2 == (2 * m) * q + (2 * r + x % 2);
    DivModUnique(x, 2 * m, q, 2 * r + x % 2);
  }

  /** One digit of an AND. */
  lemma AndDigit(x: nat, y: nat)
    ensures BitAnd(x, y) == 2 * BitAnd(x / 2, y / 2) + if x % 2 == 1 && y % 2 == 1 then 1 else 0
  {
  }

  lemma {:induction false} Pow2Add(a: nat, b: nat)
    ensures Pow2(a + b) == Pow2(a) * Pow2(b)
  {
    if a == 0 {
    } else {
      Pow2Add(a - 1, b);
    }
  }

  lemma Pow2Of32()
    ensures Pow2(32) == 0x1_0000_0000
  {
    assert Pow2(8) == 0x100;
    Pow2Add(8, 8);
    Pow2Add(16, 16);
  }

  lemma {:induction false} Pow2Monotone(a: nat, b: nat)
    requires a <= b
    ensures Pow2(a) <= Pow2(b)
  {
    if a < b {
      Pow2Monotone(a, b - 1);
    }
  }

  /** The low `k` digits of `x`. */
  function LowBits(x: nat, k: nat): nat {
    if k == 0 then 0 else 2 * LowBits(x / 2, k - 1) + x % 2
  }

  lemma {:induction false} LowBitsIsRemainder(x: nat, k: nat)
    ensures LowBits(x, k) == x % Pow2(k)
  {
    if k == 0 {
    } else {
      LowBitsIsRemainder(x / 2, k - 1);
      ModDouble(x, Pow2(k - 1));
    }
  }

  lemma {:induction false} AndLowBits(x: nat, k: nat, ones: nat)
    requires ones == Pow2(k) - 1
    ensures BitAnd(x, ones) == LowBits(x, k)
  {
    if k == 0 {
    } else {
      assert ones / 2 == Pow2(k - 1) - 1 && ones % 2 == 1;
      AndDigit(x, ones);
      AndLowBits(x / 2, k - 1, ones / 2);
    }
  }

  lemma {:induction false} LowBitsAll(x: nat, w: nat)
    requires x < Pow2(w)
    ensures LowBits(x, w) == x
  {
    if w == 0 {
    } else {
      LowBitsAll(x / 2, w - 1);
    }
  }

  lemma {:induction false} AndHighBits(x: nat, w: nat, k: nat, mask: nat)
    requires k <= w && x < Pow2(w) && mask == Pow2(w) - Pow2(k)
    ensures BitAnd(x, mask) == x - LowBits(x, k)
  {
    if k == 0 {
      AndLowBits(x, w, mask);
      LowBitsAll(x, w);
    } else {
      assert mask / 2 == Pow2(w - 1) - Pow2(k - 1) && mask % 2 == 0;
      AndDigit(x, mask);
      AndHighBits(x / 2, w - 1, k - 1, mask / 2);
    }
  }

  /** A mask of `k` ones keeps the remainder modulo `2^k`. */
  lemma AndLowMask(x: nat, k: nat)
    ensures BitAnd(x, Pow2(k) - 1) == x % Pow2(k)
  {
    AndLowBits(x, k, Pow2(k) - 1);
    LowBitsIsRemainder(x, k);
  }

  /** A mask of ones above `k` zeros clears the remainder modulo `2^k`. */
  lemma AndHighMask(x: nat, w: nat, k: nat)
    requires k <= w && x < Pow2(w)
    ensures Pow2(w) >= Pow2(k)
    ensures BitAnd(x, Pow2(w) - Pow2(k)) == x - x % Pow2(k)
  {
    Pow2Monotone(k, w);
    AndHighBits(x, w, k, Pow2(w) - Pow2(k));
    LowBitsIsRemainder(x, k);
  }

  /** Clearing the remainder modulo `2^k` leaves a multiple of `2^k`. */
  lemma ClearedIsMultiple(x: nat, k: nat)
    ensures (x - x % Pow2(k)) % Pow2(k) == 0
  {
    var m := Pow2(k);
    DivModUnique(x - x % m, m, x / m, 0);
  }
}
