/** Fixed-width unsigned integers of the harness, as bounded mathematical
    integers. C's `uint32_t` arithmetic wraps modulo 2^32; every place where
    the harness relies on that wrap-around calls `Wrap32` explicitly. */
module Words {

  const Two32: int := 0x1_0000_0000

  type U32 = x: int | 0 <= x < 0x1_0000_0000
  type U16 = x: int | 0 <= x < 0x1_0000
  type Byte = x: int | 0 <= x < 0x100

  /** `uint32_t` addition and left shifts: the mathematical result reduced modulo 2^32. */
  function Wrap32(x: int): (r: U32)
    ensures 0 <= x < Two32 ==> r == x
  {
    x % Two32
  }

  function Pow2(n: nat): (r: nat)
    ensures r >= 1
  {
    if n == 0 then 1 else 2 * Pow2(n - 1)
  }

  function Pow16(n: nat): (r: nat)
    ensures r >= 1
  {
    if n == 0 then 1 else 16 * Pow16(n - 1)
  }

  /** Bit `i` of a 16-bit mask, i.e. `(mask >> i) & 1` in C. */
  predicate Lane(mask: U16, i: nat)
  {
    (mask / Pow2(i)) % 2 == 1
  }

  /** Division with remainder is unique. */
  lemma DivMod(x: int, d: int, q: int, r: int)
    requires 0 < d && 0 <= r < d && x == q * d + r
    ensures x / d == q && x % d == r
  {
    var q', r' := x / d, x % d;
    assert (q - q') * d == r' - r;
    if q > q' {
      MulAtLeast(q - q', d);
    } else if q < q' {
      MulAtLeast(q' - q, d);
    }
  }

  lemma MulAtLeast(m: int, d: int)
    requires m >= 1 && d > 0
    ensures m * d >= d
  {
  }

  /** Bitwise OR of two naturals, bit by bit from the least significant. */
  function BitOr(x: nat, y: nat): nat
    decreases x + y
  {
    if x == 0 && y == 0 then 0
    else 2 * BitOr(x / 2, y / 2) + (if x % 2 == 1 || y % 2 == 1 then 1 else 0)
  }

  /** `x | y` on `uint32_t`. */
  function Or32(x: U32, y: U32): (r: U32)
    ensures x <= r && y <= r
  {
    Pow2Word();
    BitOrBounds(x, y, 32);
    BitOr(x, y)
  }

  lemma Pow2Word()
    ensures Pow2(16) == 0x1_0000 && Pow2(32) == Two32
  {
    assert Pow2(4) == 16;
    assert Pow2(8) == 256;
    assert Pow2(12) == 0x1000;
    assert Pow2(16) == 0x1_0000;
    assert Pow2(20) == 0x10_0000;
    assert Pow2(24) == 0x100_0000;
    assert Pow2(28) == 0x1000_0000;
  }

  /** OR of two numbers below 2^k stays below 2^k and is at least either operand. */
  lemma {:induction false} BitOrBounds(x: nat, y: nat, k: nat)
    requires x < Pow2(k) && y < Pow2(k)
    ensures x <= BitOr(x, y) < Pow2(k) && y <= BitOr(x, y)
    decreases x + y
  {
    if x == 0 && y == 0 {
    } else if k == 0 {
    } else {
      BitOrBounds(x / 2, y / 2, k - 1);
    }
  }

  /** OR with a number whose bits lie below bit k, into a multiple of 2^k, is addition. */
  lemma {:induction false} BitOrDisjoint(a: nat, y: nat, k: nat)
    requires y < Pow2(k)
    ensures BitOr(a * Pow2(k), y) == a * Pow2(k) + y
    decreases k
  {
    if k == 0 {
      BitOrZero(a);
    } else {
      var x := a * Pow2(k);
      assert x == 2 * (a * Pow2(k - 1));
      if x != 0 || y != 0 {
        BitOrDisjoint(a, y / 2, k - 1);
      }
    }
  }

  lemma {:induction false} BitOrZero(x: nat)
    ensures BitOr(x, 0) == x
    decreases x
  {
    if x != 0 {
      BitOrZero(x / 2);
    }
  }

  /** `a - base` and `base + m` undo each other modulo 2^32. */
  lemma WrapDistance(a: U32, base: U32, m: int)
    requires 0 <= m < Two32
    ensures Wrap32(a - base) == m <==> a == Wrap32(base + m)
  {
    if a >= base {
      DivMod(a - base, Two32, 0, a - base);
    } else {
      DivMod(a - base, Two32, -1, a - base + Two32);
    }
    if base + m < Two32 {
      DivMod(base + m, Two32, 0, base + m);
    } else {
      DivMod(base + m, Two32, 1, base + m - Two32);
    }
  }

  /** Reducing the operands of a sum modulo 2^32 does not change the reduced sum. */
  lemma AddMod(x: int, y: int)
    ensures Wrap32(Wrap32(x) + Wrap32(y)) == Wrap32(x + y)
  {
    var qx, qy := x / Two32, y / Two32;
    assert x == qx * Two32 + Wrap32(x);
    assert y == qy * Two32 + Wrap32(y);
    assert x + y == (qx + qy) * Two32 + (Wrap32(x) + Wrap32(y));
  }
}
