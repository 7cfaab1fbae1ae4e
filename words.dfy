// Machine words and the arithmetic facts the 128-bit integer models rest on:
// the C++ unsigned types wrap modulo a power of two, and `int64_t` holds the
// two's complement reading of a 64-bit pattern.
module Words {
  const Two32: nat := 0x1_0000_0000
  const Two64: nat := 0x1_0000_0000_0000_0000
  const Two128: nat := 0x1_0000_0000_0000_0000_0000_0000_0000_0000

  type u32 = x: int | 0 <= x < 0x1_0000_0000
  type u64 = x: int | 0 <= x < 0x1_0000_0000_0000_0000
  type i64 = x: int | -0x8000_0000_0000_0000 <= x < 0x8000_0000_0000_0000

  function Pow2(n: nat): (r: nat)
    ensures r >= 1
  {
    if n == 0 then 1 else 2 * Pow2(n - 1)
  }

  /** The `int64_t` whose bit pattern is `x` modulo 2^64. */
  function Signed64(x: int): (r: i64)
    ensures (r - x) % Two64 == 0
  {
    var m := x % Two64;
    if m >= Two64 / 2 then m - Two64 else m
  }

  /** A 64-bit pattern read as `uint64_t`. */
  function Unsigned64(x: int): (r: u64)
    ensures (r - x) % Two64 == 0
  {
    x % Two64
  }

  // ---------------------------------------------------------------------------
  // Powers of two

  lemma {:induction false} Pow2Add(a: nat, b: nat)
    ensures Pow2(a + b) == Pow2(a) * Pow2(b)
    decreases a
  {
    if a > 0 {
      Pow2Add(a - 1, b);
    }
  }

  lemma Pow2Of16()
    ensures Pow2(16) == 0x1_0000
  {
    assert Pow2(2) == 4;
    assert Pow2(4) == 16 by {
      Pow2Add(2, 2);
    }
    assert Pow2(8) == 256 by {
      Pow2Add(4, 4);
    }
    Pow2Add(8, 8);
    hide *;
  }

  lemma Pow2Values()
    ensures Pow2(32) == Two32 && Pow2(64) == Two64 && Pow2(128) == Two128
  {
    hide Pow2;
    Pow2Of16();
    Pow2Add(16, 16);
    Pow2Add(32, 32);
    Pow2Add(64, 64);
  }

  lemma {:induction false} Pow2Monotonic(a: nat, b: nat)
    requires a <= b
    ensures Pow2(a) <= Pow2(b)
    decreases b
  {
    if a < b {
      Pow2Monotonic(a, b - 1);
    }
  }

  // ---------------------------------------------------------------------------
  // Multiplication, division and remainder

  lemma MulLe(x: int, y: int, n: int)
    requires x <= y && n >= 0
    ensures x * n <= y * n
  {
    assert y * n - x * n == (y - x) * n;
  }

  lemma MulStep(x: int, y: int, n: int)
    requires x < y && n >= 0
    ensures x * n + n <= y * n
  {
    MulLe(x + 1, y, n);
    assert (x + 1) * n == x * n + n;
  }

  /** Quotient and remainder are determined by `a == q * n + r` with `0 <= r < n`. */
  lemma DivModUnique(a: int, n: int, q: int, r: int)
    requires n > 0 && 0 <= r < n && a == q * n + r
    ensures a / n == q && a % n == r
  {
    var q', r' := a / n, a % n;
    assert a == q' * n + r';
    if q' > q {
      MulStep(q, q', n);
    } else if q' < q {
      MulStep(q', q, n);
    }
  }

  /** Adding a multiple of the modulus changes no remainder. */
  lemma ModAddMultiple(a: int, q: int, n: int)
    requires n > 0
    ensures (a + q * n) % n == a % n && (a + q * n) / n == a / n + q
  {
    assert a == (a / n) * n + a % n;
    assert a + q * n == (a / n + q) * n + a % n;
    DivModUnique(a + q * n, n, a / n + q, a % n);
  }

  /** Taking a remainder before a sum does not change the sum's remainder. */
  lemma ModSum(a: int, b: int, n: int)
    requires n > 0
    ensures (a % n + b) % n == (a + b) % n
  {
    assert a == (a / n) * n + a % n;
    ModAddMultiple(a % n + b, a / n, n);
  }

  /** A remainder scaled by `k` is the scaled value's remainder modulo `m * k`. */
  lemma MulMod(x: int, m: int, k: int)
    requires m > 0 && k > 0
    ensures ((x % m) * k) % (m * k) == (x * k) % (m * k)
  {
    var q, r := x / m, x % m;
    assert x * k == q * (m * k) + r * k by {
      assert x == q * m + r;
    }
    MulLe(r, m - 1, k);
    assert (m - 1) * k == m * k - k;
    assert 0 <= r * k;
    DivModUnique(x * k, m * k, q, r * k);
    DivModUnique(r * k, m * k, 0, r * k);
  }

  /** Dividing by `a * b` is dividing by `a`, then by `b`. */
  lemma DivDiv(x: int, a: int, b: int)
    requires x >= 0 && a > 0 && b > 0
    ensures x / (a * b) == (x / a) / b
  {
    var q1, r1 := x / a, x % a;
    var q2, r2 := q1 / b, q1 % b;
    assert x == q1 * a + r1;
    assert q1 == q2 * b + r2;
    assert x == q2 * (a * b) + (r2 * a + r1);
    MulLe(r2, b - 1, a);
    assert (b - 1) * a == a * b - a;
    assert 0 <= r2 * a;
    DivModUnique(x, a * b, q2, r2 * a + r1);
  }

  /** Scaling by `p` scales the quotient's divisor and the remainder. */
  lemma ScaledDivMod(x: int, p: int, q: int)
    requires x >= 0 && p > 0 && q > 0
    ensures (x * p) / (q * p) == x / q && (x * p) % (q * p) == (x % q) * p
  {
    var d, r := x / q, x % q;
    assert x == d * q + r;
    assert x * p == d * (q * p) + r * p;
    MulStep(r, q, p);
    DivModUnique(x * p, q * p, d, r * p);
  }

  lemma DivBelow(x: int, p: int, q: int)
    requires 0 <= x < p * q && p > 0 && q > 0
    ensures x / q < p
  {
    if x / q >= p {
      MulLe(p, x / q, q);
    }
  }

  lemma DivLe(x: int, p: int)
    requires x >= 0 && p >= 1
    ensures 0 <= x / p <= x
  {
    DivModUnique(x, p, x / p, x % p);
    MulLe(1, p, x / p);
  }

  /** The product of two 32-bit limbs fits 64 bits. */
  lemma LimbProduct(x: int, y: int)
    requires 0 <= x < Two32 && 0 <= y < Two32
    ensures 0 <= x * y < Two64
  {
    MulLe(x, Two32 - 1, y);
    MulLe(y, Two32 - 1, Two32 - 1);
  }

  lemma NatDivMod(a: nat, b: nat)
    requires b > 0
    ensures a == (a / b) * b + a % b && 0 <= a % b < b
    ensures a / b == 0 <==> a < b
  {
    if a >= b {
      DivLe(a, b);
    } else {
      DivModUnique(a, b, 0, a);
    }
  }
}
