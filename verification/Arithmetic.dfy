/** Facts about products, quotients and powers of two that the solver does not find by itself. */
module Arithmetic {

  lemma MulGe(k: int, m: int)
    requires k >= 1 && m >= 0
    ensures k * m >= m
  {
  }

  /** Quotient and remainder are unique. */
  lemma DivModUnique(x: int, q: int, r: int, m: int)
    requires m > 0 && 0 <= r < m && x == q * m + r
    ensures x % m == r && x / m == q
  {
    var q', r' := x / m, x % m;
    assert x == q' * m + r';
    assert (q - q') * m == r' - r;
    if q > q' {
      assert (q - q') * m >= m by { MulGe(q - q', m); }
    } else if q < q' {
      assert (q' - q) * m >= m by { MulGe(q' - q, m); }
    }
  }

  lemma DivMod(x: nat, m: nat)
    requires m > 0
    ensures x == x / m * m + x % m && 0 <= x % m < m
  {
  }

  /** Adding multiples of the modulus changes no remainder. */
  lemma ModShift(a: nat, k: nat, m: nat)
    requires m > 0
    ensures (a + k * m) % m == a % m
  {
    var q, r := a / m, a % m;
    DivMod(a, m);
    assert a + k * m == (q + k) * m + r;
    DivModUnique(a + k * m, q + k, r, m);
  }

  /**
   The low eight bits of a number and the rest: `n & 0xff` and `n >> 8`.  Written as repeated
   subtraction, they unfold one step at a time and stay out of proofs about whole packets.
   */
  function Lo(n: nat): (l: nat)
    ensures l < 0x100
  {
    if n < 0x100 then n else Lo(n - 0x100)
  }

  function Hi(n: nat): (h: nat)
    ensures 0x100 * h <= n
  {
    if n < 0x100 then 0 else Hi(n - 0x100) + 1
  }

  lemma {:induction false} HiLo(n: nat)
    ensures n == 0x100 * Hi(n) + Lo(n)
  {
    if n >= 0x100 {
      HiLo(n - 0x100);
    }
  }

  lemma HiLoUnique(h: nat, l: nat)
    requires l < 0x100
    ensures Hi(0x100 * h + l) == h && Lo(0x100 * h + l) == l
  {
    HiLo(0x100 * h + l);
  }

  function Pow2(n: nat): (p: nat)
    ensures p >= 1
  {
    if n == 0 then 1 else 2 * Pow2(n - 1)
  }

  lemma {:induction false} Pow2Add(a: nat, b: nat)
    ensures Pow2(a + b) == Pow2(a) * Pow2(b)
  {
    if a > 0 {
      Pow2Add(a - 1, b);
    }
  }

  lemma Pow2Values()
    ensures Pow2(8) == 0x100 && Pow2(16) == 0x1_0000 && Pow2(24) == 0x100_0000 && Pow2(32) == 0x1_0000_0000
    ensures Pow2(7) == 0x80 && Pow2(15) == 0x8000 && Pow2(23) == 0x80_0000 && Pow2(31) == 0x8000_0000
  {
    assert Pow2(4) == 16;
    assert Pow2(7) == 0x80;
    assert Pow2(11) == 0x800;
    assert Pow2(15) == 0x8000;
    assert Pow2(19) == 0x8_0000;
    assert Pow2(23) == 0x80_0000;
    assert Pow2(27) == 0x800_0000;
    assert Pow2(31) == 0x8000_0000;
  }
}
