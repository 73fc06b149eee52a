/** Bitwise operations of the source on unsigned machine words, read as natural numbers.
    `And` and `Or` are defined bit by bit; the lemmas give their arithmetic meaning for the
    masks the kernel uses. */
module Bits {

  function Pow2(k: nat): (p: nat)
    ensures p > 0
  {
    if k == 0 then 1 else 2 * Pow2(k - 1)
  }

  function And(a: nat, b: nat): nat
    decreases a
  {
    if a == 0 || b == 0 then 0
    else 2 * And(a / 2, b / 2) + (if a % 2 == 1 && b % 2 == 1 then 1 else 0)
  }

  function Or(a: nat, b: nat): nat
    decreases a
  {
    if a == 0 then b
    else 2 * Or(a / 2, b / 2) + (if a % 2 == 1 || b % 2 == 1 then 1 else 0)
  }

  function Shr(a: nat, k: nat): nat
    decreases k
  {
    if k == 0 then a else Shr(a / 2, k - 1)
  }

  /** Division with remainder is unique. */
  lemma DivModUnique(x: int, m: int, q: int, r: int)
    requires m > 0 && x == q * m + r && 0 <= r < m
    ensures x / m == q && x % m == r
  {
    var d := x / m - q;
    assert x == (x / m) * m + x % m;
    assert d * m == r - x % m by { assert d * m == (x / m) * m - q * m; }
    assert -m < d * m < m;
    assert d == 0;
  }

  lemma ModDouble(x: nat, m: nat)
    requires m > 0
    ensures x % (2 * m) == 2 * ((x / 2) % m) + x % 2
  {
    var h := x / 2;
    assert h == (h / m) * m + h % m;
    assert x == (h / m) * (2 * m) + (2 * (h % m) + x % 2) by {
      assert (h / m) * (2 * m) == 2 * ((h / m) * m);
    }
    DivModUnique(x, 2 * m, h / m, 2 * (h % m) + x % 2);
  }

  /** Masking with k ones keeps the value modulo 2^k. */
  lemma {:induction false} AndLowMask(x: nat, k: nat)
    ensures And(x, Pow2(k) - 1) == x % Pow2(k)
  {
    if k > 0 {
      AndLowMask(x / 2, k - 1);
      ModDouble(x, Pow2(k - 1));
    }
  }

  /** Masking with ones in bits h-1..l keeps exactly those bits. */
  lemma {:induction false} AndRangeMask(x: nat, h: nat, l: nat)
    requires l <= h
    ensures Pow2(l) <= Pow2(h)
    ensures And(x, Pow2(h) - Pow2(l)) == x % Pow2(h) - x % Pow2(l)
  {
    if l == 0 {
      AndLowMask(x, h);
    } else {
      hide And;
      AndRangeMask(x / 2, h - 1, l - 1);
      AndEven(x, Pow2(h - 1) - Pow2(l - 1));
      ModDouble(x, Pow2(h - 1));
      ModDouble(x, Pow2(l - 1));
      assert Pow2(h) == 2 * Pow2(h - 1) && Pow2(l) == 2 * Pow2(l - 1);
    }
  }

  lemma AndEven(x: nat, h: nat)
    ensures And(x, 2 * h) == 2 * And(x / 2, h)
  {
    DivModUnique(2 * h, 2, h, 0);
  }

  lemma DivDouble(x: nat, m: nat)
    requires m > 0
    ensures x / (2 * m) == (x / 2) / m
  {
    ModDouble(x, m);
    assert x == (x / (2 * m)) * (2 * m) + x % (2 * m);
    var h := x / 2;
    assert h == (h / m) * m + h % m;
    DivModUnique(x, 2 * m, h / m, x % (2 * m)) by {
      assert (h / m) * (2 * m) == 2 * ((h / m) * m);
    }
  }

  /** Setting one bit adds its weight unless it is already set. */
  lemma {:induction false} OrBit(x: nat, k: nat)
    ensures Or(x, Pow2(k)) == if (x / Pow2(k)) % 2 == 1 then x else x + Pow2(k)
  {
    if x == 0 {
      assert 0 / Pow2(k) == 0 by { DivModUnique(0, Pow2(k), 0, 0); }
    } else if k == 0 {
      OrZero(x / 2);
    } else {
      OrBit(x / 2, k - 1);
      DivDouble(x, Pow2(k - 1));
    }
  }

  /** The same with the number split around bit k. */
  lemma SetBit(x: nat, k: nat, weight: nat, high: nat, bit: nat, low: nat)
    requires weight == Pow2(k) && bit < 2 && low < weight && x == (2 * high + bit) * weight + low
    ensures Or(x, weight) == (2 * high + 1) * weight + low
  {
    OrBit(x, k);
    hide Or, Pow2;
    DivModUnique(x, weight, 2 * high + bit, low);
    DivModUnique(2 * high + bit, 2, high, bit);
    if bit == 0 {
      assert (2 * high + 1) * weight == 2 * high * weight + weight;
    }
  }

  lemma {:induction false} OrZero(x: nat)
    ensures Or(x, 0) == x
  {
    if x > 0 { OrZero(x / 2); }
  }

  /** Shifting right by k divides by 2^k. */
  lemma {:induction false} ShrDivides(a: nat, k: nat)
    ensures Shr(a, k) == a / Pow2(k)
  {
    if k > 0 {
      ShrDivides(a / 2, k - 1);
      DivDouble(a, Pow2(k - 1));
    }
  }
}
