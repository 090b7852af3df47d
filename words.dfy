/** Unsigned C integer arithmetic as used by the LED driver: `uint8_t`, 32-bit
    `uint`/`uint32_t` with wrap-around, shifts, and the bitwise `|` on
    non-negative integers. */
module Words {

  const TwoTo32: int := 0x1_0000_0000

  /** `uint8_t` */
  type U8 = x: int | 0 <= x < 0x100

  /** `uint` and `uint32_t` (both 32 bits on the RP2040) */
  type U32 = x: int | 0 <= x < 0x1_0000_0000

  function Pow2(k: nat): (p: nat)
    ensures p >= 1
  {
    if k == 0 then 1 else 2 * Pow2(k - 1)
  }

  /** `x << k` on a 32-bit unsigned operand: the bits shifted past bit 31 are lost. */
  function Shl32(x: U32, k: nat): U32
  {
    (x * Pow2(k)) % TwoTo32
  }

  lemma {:induction false} Pow2Add(a: nat, b: nat)
    ensures Pow2(a + b) == Pow2(a) * Pow2(b)
    decreases a
  {
    if a > 0 {
      Pow2Add(a - 1, b);
      assert Pow2(a + b) == 2 * (Pow2(a - 1) * Pow2(b));
    }
  }

  /** The shift distances the driver uses. */
  lemma Pow2Values()
    ensures Pow2(1) == 2 && Pow2(8) == 0x100 && Pow2(16) == 0x1_0000 && Pow2(30) == 0x4000_0000
  {
    assert Pow2(8) == 0x100;
    Pow2Add(8, 8);
    Pow2Add(16, 8);
    assert Pow2(6) == 64;
    Pow2Add(24, 6);
  }

  /** A shift that loses no bits is multiplication. */
  lemma ShlNoWrap(x: U32, k: nat)
    requires x * Pow2(k) < TwoTo32
    ensures Shl32(x, k) == x * Pow2(k)
  {
    DivModUnique(x * Pow2(k), TwoTo32, 0, x * Pow2(k));
  }

  /** `x >> k` on an unsigned operand. */
  function Shr(x: U32, k: nat): (r: U32)
    ensures r <= x
  {
    DivAtMost(x, Pow2(k));
    x / Pow2(k)
  }

  lemma DivAtMost(x: nat, p: nat)
    requires p >= 1
    ensures 0 <= x / p <= x
  {
    var q := x / p;
    assert x == p * q + x % p;
    if q >= 1 {
      MulAtLeast(q, p);
    }
  }

  /** `a + b` in 32-bit unsigned arithmetic. */
  function Add32(a: U32, b: U32): (r: U32)
    ensures r == if a + b < TwoTo32 then a + b else a + b - TwoTo32
  {
    (a + b) % TwoTo32
  }

  /** `a * b` in 32-bit unsigned arithmetic. */
  function Mul32(a: U32, b: U32): (r: U32)
    ensures a * b < TwoTo32 ==> r == a * b
  {
    var p := a * b;
    if p < TwoTo32 then DivModUnique(p, TwoTo32, 0, p); p % TwoTo32 else p % TwoTo32
  }

  /** Bitwise `a | b` on non-negative integers, one bit at a time from the bottom. */
  function Or(a: nat, b: nat): nat
    decreases a + b
  {
    if a == 0 then b
    else if b == 0 then a
    else 2 * Or(a / 2, b / 2) + (if a % 2 == 1 || b % 2 == 1 then 1 else 0)
  }

  lemma MultipleOfPow2(hi: nat, k: nat)
    requires k > 0 && hi % Pow2(k) == 0
    ensures hi % 2 == 0 && (hi / 2) % Pow2(k - 1) == 0
  {
    var m := hi / Pow2(k);
    assert hi == Pow2(k) * m;
    assert Pow2(k) * m == 2 * (Pow2(k - 1) * m);
    DivModUnique(hi, 2, Pow2(k - 1) * m, 0);
    DivModUnique(Pow2(k - 1) * m, Pow2(k - 1), m, 0);
  }

  /** When `lo` lives in the bottom `k` bits and `hi` has its bottom `k` bits
      clear, `|` is addition, in either order of the operands. */
  lemma {:induction false} OrDisjoint(lo: nat, hi: nat, k: nat)
    requires lo < Pow2(k) && hi % Pow2(k) == 0
    ensures Or(lo, hi) == lo + hi && Or(hi, lo) == lo + hi
  {
    if lo == 0 || hi == 0 {
    } else {
      assert k > 0;
      MultipleOfPow2(hi, k);
      OrDisjoint(lo / 2, hi / 2, k - 1);
    }
  }

  /** Reducing modulo 2^32 does not change a value modulo any `m` that divides 2^32. */
  lemma WrapKeepsResidue(n: int, m: int, q: int)
    requires m > 0 && m * q == TwoTo32
    ensures (n % TwoTo32) % m == n % m
  {
    var d := n / TwoTo32;
    assert n == TwoTo32 * d + n % TwoTo32;
    assert TwoTo32 * d == m * (q * d);
    ModShift(n % TwoTo32, m, q * d);
  }

  lemma ModShift(n: int, m: int, j: int)
    requires m > 0
    ensures (n + m * j) % m == n % m
  {
    var q, r := n / m, n % m;
    assert n == m * q + r;
    assert n + m * j == m * (q + j) + r;
    DivModUnique(n + m * j, m, q + j, r);
  }

  /** Euclidean division is determined by any quotient and in-range remainder. */
  lemma DivModUnique(n: int, m: int, q: int, r: int)
    requires m > 0 && 0 <= r < m && n == m * q + r
    ensures n / m == q && n % m == r
  {
    var d := q - n / m;
    assert n == m * (n / m) + n % m;
    assert m * d == n % m - r;
    if d >= 1 {
      MulAtLeast(m, d);
    } else if d <= -1 {
      MulAtLeast(m, -d);
    }
  }

  lemma MulAtLeast(m: int, d: int)
    requires m > 0 && d >= 1
    ensures m * d >= m
  {
  }
}
