/** Fixed-width words as natural numbers, and the bit tricks of src/defs.h.

    Words are non-negative integers; `Bit(w, j)` is bit `j` of `w`, and the bitwise operators are
    defined one bit at a time.  The lemmas below say what each operator does to every bit, and what
    the masks used by the rest of the project compute arithmetically.
 */
module Bits {
  const W16: nat := 0x1_0000
  const W32: nat := 0x1_0000_0000
  const W64: nat := 0x1_0000_0000_0000_0000
  const UINT_MAX: nat := W32 - 1

  type u8 = n: int | 0 <= n < 256
  type u32 = n: int | 0 <= n < W32
  type u64 = n: int | 0 <= n < W64

  function Pow2(n: nat): (r: nat)
    ensures r >= 1
  {
    if n == 0 then 1 else 2 * Pow2(n - 1)
  }

  // A number is its half, doubled, and its lowest bit.
  function Half(x: nat): (h: nat)
    ensures 2 * h <= x <= 2 * h + 1
  {
    x / 2
  }

  predicate Odd(x: nat)
    ensures Odd(x) <==> x == 2 * Half(x) + 1
  {
    x % 2 == 1
  }

  predicate Bit(w: nat, j: nat) {
    if j == 0 then Odd(w) else Bit(Half(w), j - 1)
  }

  function BitAnd(x: nat, y: nat): (r: nat)
    ensures r <= x && r <= y
  {
    if x == 0 || y == 0 then 0
    else 2 * BitAnd(Half(x), Half(y)) + (if Odd(x) && Odd(y) then 1 else 0)
  }

  function BitOr(x: nat, y: nat): (r: nat)
    ensures x <= r && y <= r <= x + y
  {
    if x == 0 then y
    else if y == 0 then x
    else 2 * BitOr(Half(x), Half(y)) + (if Odd(x) || Odd(y) then 1 else 0)
  }

  // ---- what the operators do to each bit ----

  lemma {:induction false} ZeroBit(j: nat)
    ensures !Bit(0, j)
  {
    hide Half, Odd;
    if j > 0 {
      ZeroBit(j - 1);
    }
  }

  lemma {:induction false} OrBit(x: nat, y: nat, j: nat)
    ensures Bit(BitOr(x, y), j) <==> Bit(x, j) || Bit(y, j)
  {
    hide Half, Odd;
    if x == 0 || y == 0 {
      ZeroBit(j);
    } else if j > 0 {
      OrBit(Half(x), Half(y), j - 1);
    }
  }

  lemma {:induction false} Pow2Bit(k: nat, j: nat)
    ensures Bit(Pow2(k), j) <==> j == k
  {
    hide Half, Odd;
    if k == 0 {
      if j > 0 { ZeroBit(j - 1); }
    } else if j > 0 {
      Pow2Bit(k - 1, j - 1);
    }
  }

  lemma {:induction false} OnesBit(n: nat, j: nat)
    ensures Bit(Pow2(n) - 1, j) <==> j < n
  {
    hide Half, Odd;
    if n == 0 {
      ZeroBit(j);
    } else if j > 0 {
      assert Half(Pow2(n) - 1) == Pow2(n - 1) - 1;
      OnesBit(n - 1, j - 1);
    }
  }

  // ---- what the masks compute ----

  // x & 0x1F is the remainder of x modulo 32.
  lemma AndLowMask(x: nat)
    ensures BitAnd(x, 0x1F) == x % 32
  {
    var h := Low5(x);
    DivModUnique(x, 32, h, BitAnd(x, 0x1F));
  }

  lemma Low5(x: nat) returns (h: nat)
    ensures x == 32 * h + BitAnd(x, 0x1F) && BitAnd(x, 0x1F) < 32
  {
    hide Half, Odd, BitAnd;
    var x1, x2, x3, x4 := Half(x), Half(Half(x)), Half(Half(Half(x))), Half(Half(Half(Half(x))));
    h := Half(x4);
    AndHalves(x, 31);
    AndHalves(x1, 15);
    AndHalves(x2, 7);
    AndHalves(x3, 3);
    AndHalves(x4, 1);
    AndZero(h, 0);
    assert Half(31) == 15 && Half(15) == 7 && Half(7) == 3 && Half(3) == 1 && Half(1) == 0;
  }

  lemma AndZero(x: nat, y: nat)
    requires x == 0 || y == 0
    ensures BitAnd(x, y) == 0
  {
  }

  lemma AndHalves(x: nat, y: nat)
    ensures BitAnd(x, y) == 2 * BitAnd(Half(x), Half(y)) + (if Odd(x) && Odd(y) then 1 else 0)
  {
    hide Half, Odd;
  }

  lemma DivModUnique(x: int, d: int, q: int, r: int)
    requires d > 0 && 0 <= r < d && x == q * d + r
    ensures x / d == q && x % d == r
  {
    var e := q - x / d;
    assert e * d == x % d - r;
    MulAtLeast(e, d);
  }

  lemma MulAtLeast(e: int, d: int)
    requires d >= 0
    ensures e >= 1 ==> e * d >= d
    ensures e <= -1 ==> e * d <= -d
  {
  }

  // 2^j & w is nonzero exactly when bit j of w is set.
  lemma {:induction false} AndPow2(j: nat, w: nat)
    ensures BitAnd(Pow2(j), w) == if Bit(w, j) then Pow2(j) else 0
  {
    hide Half, Odd;
    if w == 0 {
      ZeroBit(j);
    } else if j > 0 {
      AndPow2(j - 1, Half(w));
      assert Half(Pow2(j)) == Pow2(j - 1);
    } else {
      assert Half(1) == 0;
      AndZero(0, Half(w));
    }
  }

  // Setting bit k of a word below 2^k adds 2^k.
  lemma {:induction false} OrPow2(x: nat, k: nat)
    requires x < Pow2(k)
    ensures BitOr(x, Pow2(k)) == x + Pow2(k)
  {
    hide Half, Odd;
    if k > 0 {
      assert Half(Pow2(k)) == Pow2(k - 1);
      OrPow2(Half(x), k - 1);
    }
  }

  // A word splits into the part under a mask and the part under its complement.
  lemma {:induction false} AndComplement(x: nat, y: nat, n: nat)
    requires x < Pow2(n) && y < Pow2(n)
    ensures BitAnd(x, y) + BitAnd(x, Pow2(n) - 1 - y) == x
  {
    hide BitAnd, Half, Odd;
    if n == 0 {
      AndZero(x, y);
      AndZero(x, Pow2(n) - 1 - y);
    } else {
      var m := Pow2(n - 1);
      var z := 2 * m - 1 - y;
      AndHalves(x, y);
      AndHalves(x, z);
      assert Half(z) == m - 1 - Half(y);
      AndComplement(Half(x), Half(y), n - 1);
    }
  }

  // x & ~2^k, on 32-bit words, clears bit k.
  lemma AndClear(x: u32, k: nat)
    requires k < 32
    ensures Pow2(k) < W32 && BitAnd(x, W32 - 1 - Pow2(k)) == if Bit(x, k) then x - Pow2(k) else x
  {
    Pow2Values();
    Pow2Mono(k, 32);
    AndComplement(x, Pow2(k), 32);
    AndCommutes(x, Pow2(k));
    AndPow2(k, x);
  }

  lemma {:induction false} AndCommutes(x: nat, y: nat)
    ensures BitAnd(x, y) == BitAnd(y, x)
  {
    hide Half, Odd;
    if x != 0 && y != 0 {
      AndCommutes(Half(x), Half(y));
    }
  }

  lemma SmallMod(x: nat, m: nat)
    requires x < m
    ensures x % m == x && x / m == 0
  {
  }

  lemma {:induction false} Pow2Mono(j: nat, k: nat)
    requires j < k
    ensures Pow2(j) < Pow2(k)
  {
    if j + 1 < k {
      Pow2Mono(j, k - 1);
    }
  }

  lemma {:induction false} Pow2Sum(j: nat, k: nat)
    ensures Pow2(j + k) == Pow2(j) * Pow2(k)
  {
    if j > 0 {
      Pow2Sum(j - 1, k);
    }
  }

  lemma {:induction false} OrBound(x: nat, y: nat, n: nat)
    requires x < Pow2(n) && y < Pow2(n)
    ensures BitOr(x, y) < Pow2(n)
  {
    hide Half, Odd;
    if n > 0 && x != 0 && y != 0 {
      OrBound(Half(x), Half(y), n - 1);
    }
  }

  // Words that do not overlap are added.
  lemma {:induction false} OrDisjoint(lo: nat, hi: nat, k: nat)
    requires lo < Pow2(k)
    ensures BitOr(lo, hi * Pow2(k)) == lo + hi * Pow2(k)
  {
    hide Half, Odd;
    if k > 0 && lo != 0 && hi != 0 {
      OrDisjoint(Half(lo), hi, k - 1);
      assert hi * Pow2(k) == 2 * (hi * Pow2(k - 1));
      assert Half(hi * Pow2(k)) == hi * Pow2(k - 1);
    }
  }

  // The operators of 32-bit unsigned arithmetic that the sources use.

  function Or32(x: u32, y: u32): (r: u32)
    ensures r == BitOr(x, y)
  {
    Pow2Values();
    OrBound(x, y, 32);
    BitOr(x, y)
  }

  function Bit32(j: nat): (r: u32)
    requires j < 32
    ensures r == Pow2(j)
  {
    Pow2Values();
    Pow2Mono(j, 32);
    Pow2(j)
  }

  function Shr32(x: u32, k: nat): u32 {
    ShrinkByDiv(x, Pow2(k));
    x / Pow2(k)
  }

  function Shl32(x: u32, k: nat): u32 {
    x * Pow2(k) % W32
  }

  lemma QuotientMono(x: nat, y: nat, m: nat)
    requires m >= 1 && x <= y
    ensures x / m <= y / m
  {
    var p, q := x / m, y / m;
    assert x == p * m + x % m && y == q * m + y % m;
    if p > q {
      assert p * m >= (q + 1) * m by { MulAtLeast(m, p - q - 1); }
    }
  }

  lemma ShrinkByDiv(x: nat, m: nat)
    requires m >= 1
    ensures 0 <= x / m <= x
  {
    var q := x / m;
    assert x == q * m + x % m;
    assert q * m >= q by { MulAtLeast(m, q); }
  }

  function Not32(x: u32): u32 {
    UINT_MAX - x
  }

  lemma Pow2Values()
    ensures Pow2(5) == 32 && Pow2(8) == 256 && Pow2(16) == W16 && Pow2(32) == W32
  {
    assert Pow2(4) == 16;
    assert Pow2(8) == 256;
    assert Pow2(12) == 4096;
    assert Pow2(16) == W16;
    Pow2Sum(16, 16);
  }
}
