/** 64-bit machine words as naturals, with the bitwise operators written out bit by bit. */
module Words {

  const WORD: nat := 0x1_0000_0000_0000_0000
  const SIZE_MAX: nat := WORD - 1

  type word = x: nat | x < WORD

  /** Unsigned addition, which wraps. */
  function Add(x: word, y: word): word {
    (x + y) % WORD
  }

  /** Bitwise complement. */
  function Not(x: word): word {
    SIZE_MAX - x
  }

  /** Bitwise and. */
  function And(x: nat, y: nat): (r: nat)
    ensures r <= x
  {
    if x == 0 then 0 else (if x % 2 == 1 && y % 2 == 1 then 1 else 0) + 2 * And(x / 2, y / 2)
  }

  function Pow2(k: nat): (p: nat)
    ensures p >= 1
  {
    if k == 0 then 1 else 2 * Pow2(k - 1)
  }

  lemma ModDouble(x: nat, m: nat, d: nat)
    requires m > 0 && d == 2 * m
    ensures x % d == 2 * (x / 2 % m) + x % 2
  {
    var q, r := x / 2 / m, x / 2 % m;
    assert x == 2 * (q * m + r) + x % 2;
    assert x == q * d + (2 * r + x % 2);
    DivUnique(x, d, q, 2 * r + x % 2);
  }

  lemma MulBound(k: int, d: int)
    requires d > 0
    ensures k >= 1 ==> k * d >= d
    ensures k <= -1 ==> k * d <= -d
  {
  }

  lemma DivUnique(x: int, d: int, q: int, r: int)
    requires d > 0 && x == q * d + r && 0 <= r < d
    ensures x % d == r
  {
    var k := q - x / d;
    assert k * d == x % d - r;
    MulBound(k, d);
  }

  lemma AndOdd(x: nat, y: nat, z: nat)
    requires z == 2 * y + 1
    ensures And(x, z) == x % 2 + 2 * And(x / 2, y)
  {
    assert z / 2 == y;
  }

  /** Masking with 2^k - 1 keeps the remainder modulo 2^k. */
  lemma {:induction false} AndLow(x: nat, k: nat)
    ensures And(x, Pow2(k) - 1) == x % Pow2(k)
  {
    if k == 0 {
      AndZero(x);
    } else {
      var m, d := Pow2(k - 1), Pow2(k);
      calc {
        And(x, d - 1);
      ==  { AndOdd(x, m - 1, d - 1); }
        x % 2 + 2 * And(x / 2, m - 1);
      ==  { AndLow(x / 2, k - 1); }
        x % 2 + 2 * (x / 2 % m);
      ==  { ModDouble(x, m, d); }
        x % d;
      }
    }
  }

  lemma {:induction false} AndZero(x: nat)
    ensures And(x, 0) == 0
  {
    if x != 0 {
      AndZero(x / 2);
    }
  }

  lemma AndEven(x: nat, y: nat, z: nat)
    requires z == 2 * y
    ensures And(x, z) == 2 * And(x / 2, y)
  {
    assert z / 2 == y;
  }

  /** Masking an n-bit number with the complement of 2^k - 1 rounds it down to a multiple of 2^k. */
  lemma {:induction false} AndHigh(x: nat, k: nat, n: nat)
    requires k <= n && x < Pow2(n)
    ensures Pow2(k) <= Pow2(n) && And(x, Pow2(n) - Pow2(k)) == x - x % Pow2(k)
    decreases k
  {
    if k == 0 {
      AndLow(x, n);
      SmallMod(x, Pow2(n));
    } else {
      var m, d := Pow2(k - 1), Pow2(k);
      AndHigh(x / 2, k - 1, n - 1);
      AndEven(x, Pow2(n - 1) - m, Pow2(n) - d);
      assert 2 * (x / 2 - x / 2 % m) == x - x % d by { ModDouble(x, m, d); }
    }
  }

  lemma SmallMod(x: nat, m: nat)
    requires x < m
    ensures x % m == x
  {
  }

  lemma Pow2Values()
    ensures Pow2(4) == 0x10 && Pow2(6) == 0x40 && Pow2(64) == WORD
  {
    assert Pow2(8) == 0x100;
    assert Pow2(16) == 0x1_0000 by { assert Pow2(12) == 0x1000; }
    Pow2Sum(16, 16);
    assert Pow2(32) == 0x1_0000_0000;
    Pow2Sum(32, 32);
  }

  lemma {:induction false} Pow2Sum(a: nat, b: nat)
    ensures Pow2(a + b) == Pow2(a) * Pow2(b)
  {
    if a != 0 {
      Pow2Sum(a - 1, b);
      assert Pow2(a + b) == 2 * Pow2(a - 1 + b);
    }
  }

  /** `x & 0xf`, `x & ~0xf` and `x & ~0x3f` on machine words. */
  lemma Masks(x: word)
    ensures And(x, 0xf) == x % 0x10
    ensures And(x, Not(0xf)) == x - x % 0x10
    ensures And(x, Not(0x3f)) == x - x % 0x40
  {
    Pow2Values();
    AndLow(x, 4);
    AndHigh(x, 4, 64);
    AndHigh(x, 6, 64);
  }
}
