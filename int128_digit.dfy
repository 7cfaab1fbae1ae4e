// The digit step of the long division in src/math/int128.cpp as the source
// writes it: the first guess from the leading limbs, its refinement with a
// `rhat` kept in 32 bits, the subtraction of guess * divisor from the window
// and the add-back of the divisor when that subtraction borrowed.  The model
// the rest of Int128Model uses computes each digit exactly (DivideDigit);
// this module shows where the two part.
module Int128Digit {
  import opened Words
  import opened Int128Limbs
  import Int128Model

  const UInt32Max: u32 := 0xFFFF_FFFF

  // ---------------------------------------------------------------------------
  // The guess

  /**
   * The first guess: the two leading limbs divided by the divisor's leading
   * limb, cast to 32 bits, or UINT32_MAX when the leading limbs agree.
   */
  function InitialGuess(u0: u32, u1: u32, v0: u32): u32
    requires v0 > 0
  {
    if u0 != v0 then ((u0 * Two32 + u1) / v0) % Two32 else UInt32Max
  }

  /** `rhat`: what the guess leaves of the two leading limbs, cast to 32 bits. */
  function InitialRest(u0: u32, u1: u32, v0: u32, guess: u32): u32
  {
    (u0 * Two32 + u1 - guess * v0) % Two32
  }

  /**
   * The refinement loop: the guess is lowered while the next limbs show it
   * too large, `rhat` growing by the divisor's leading limb, and the loop
   * stops once `rhat` wraps around 2^32.
   */
  function Refined(guess: u32, rhat: u32, v0: u32, v1: u32, u2: u32): u32
    decreases guess
  {
    if v1 * guess > rhat * Two32 + u2 then
      assert guess != 0;
      var next := (rhat + v0) % Two32;
      if next < v0 then guess - 1
      else Refined(guess - 1, next, v0, v1, u2)
    else guess
  }

  /** The guess the digit step goes on with, for the leading limbs `u0 u1 u2` and `v0 v1`. */
  function GuessAsWritten(u0: u32, u1: u32, u2: u32, v0: u32, v1: u32): u32
    requires v0 > 0
  {
    var g := InitialGuess(u0, u1, v0);
    Refined(g, InitialRest(u0, u1, v0, g), v0, v1, u2)
  }

  /** The refinement only ever lowers the guess. */
  lemma {:induction false} RefinedBelow(guess: u32, rhat: u32, v0: u32, v1: u32, u2: u32)
    ensures Refined(guess, rhat, v0, v1, u2) <= guess
    decreases guess
  {
    if v1 * guess > rhat * Two32 + u2 {
      var next := (rhat + v0) % Two32;
      if next >= v0 {
        RefinedBelow(guess - 1, next, v0, v1, u2);
      }
    }
  }

  /** The guess and its refinement loop, as written. */
  method GuessDigit(u0: u32, u1: u32, u2: u32, v0: u32, v1: u32) returns (guess: u32)
    requires v0 > 0
    ensures guess == GuessAsWritten(u0, u1, u2, v0, v1)
  {
    guess := UInt32Max;
    var highDividend := u0 * Two32 + u1;
    if u0 != v0 {
      guess := (highDividend / v0) % Two32;
    }
    var rhat: u32 := (highDividend - guess * v0) % Two32;
    while v1 * guess > rhat * Two32 + u2
      invariant Refined(guess, rhat, v0, v1, u2) == GuessAsWritten(u0, u1, u2, v0, v1)
      decreases guess
    {
      guess := guess - 1;
      rhat := (rhat + v0) % Two32;
      if rhat < v0 {
        break;
      }
    }
  }

  // ---------------------------------------------------------------------------
  // The digit

  /**
   * One digit as written, for a window `w` of `|v| + 1` limbs and the divisor
   * `v`: the guess, then the window less guess * divisor modulo its width.
   * The subtraction loop carries `mult` out of the low limbs; when its low 32
   * bits exceed the leading limb, the borrow is seen, the guess lowered and
   * the divisor added back, modulo the width again.
   */
  function DigitAsWritten(w: seq<u32>, v: seq<u32>): (r: (u32, int))
    requires |v| >= 2 && |w| == |v| + 1 && v[0] > 0
    ensures 0 <= r.1 < Radix(|v| + 1)
  {
    var g := GuessAsWritten(w[0], w[1], w[2], v[0], v[1]);
    var rest := Subtracted(w, v, g);
    if Borrowed(w, v, g) % Two32 > w[0] then ((g - 1) % Two32, (rest + LimbValue(v)) % Radix(|v| + 1)) else (g, rest)
  }

  /** What the subtraction loop carries out of the low `|v|` limbs of the window: the low limbs less g * v, floored and negated. */
  function Borrowed(w: seq<u32>, v: seq<u32>, g: int): int
    requires |w| == |v| + 1
  {
    -((LimbValue(w[1..]) - g * LimbValue(v)) / Radix(|v|))
  }

  /** The window less g * v, modulo the window's width. */
  function Subtracted(w: seq<u32>, v: seq<u32>, g: int): (r: int)
    requires |w| == |v| + 1
    ensures 0 <= r < Radix(|v| + 1)
  {
    (LimbValue(w) - g * LimbValue(v)) % Radix(|v| + 1)
  }

  /** `x / r` for an `x` between `-a * r` and `r`. */
  lemma FloorBetween(x: int, r: int, a: int)
    requires r > 0 && a >= 0 && -a * r <= x < r
    ensures -a <= x / r <= 0
  {
    var q := x / r;
    assert x == q * r + x % r;
    if q > 0 {
      MulLe(1, q, r);
    }
    if q < -a {
      MulStep(q, -a, r);
    }
  }

  /** A value's limbs below `Radix(n)` scaled by `r` and the lower part kept: the remainder modulo `r * t`. */
  lemma ScaledMod(a: int, r: int, n: int, t: int)
    requires r > 0 && t > 0 && 0 <= n < r
    ensures (a * r + n) % (r * t) == (a % t) * r + n
  {
    var q := a / t;
    assert a == q * t + a % t;
    assert a * r + n == q * (r * t) + ((a % t) * r + n);
    MulStep(a % t, t, r);
    DivModUnique(a * r + n, r * t, q, (a % t) * r + n);
  }

  /**
   * When the guess as written is the window's digit and the window is below
   * `d * 2^32`, the step as written gives the digit and the window's
   * remainder: nothing is borrowed and nothing is added back.
   */
  lemma DigitAsWrittenExact(w: seq<u32>, v: seq<u32>)
    requires |v| >= 2 && |w| == |v| + 1 && v[0] > 0
    requires LimbValue(w) < LimbValue(v) * Two32
    requires GuessAsWritten(w[0], w[1], w[2], v[0], v[1]) == LimbValue(w) / LimbValue(v)
    ensures DigitAsWritten(w, v) == (LimbValue(w) / LimbValue(v), LimbValue(w) % LimbValue(v))
  {
    hide LimbValue, Radix, GuessAsWritten, DigitAsWritten;
    var g := GuessAsWritten(w[0], w[1], w[2], v[0], v[1]);
    WindowParts(w, v);
    ExactArith(LimbValue(w), LimbValue(v), Radix(|v|), LimbValue(w[1..]), w[0], g);
    DigitKept(w, v, g, w[0], LimbValue(w) % LimbValue(v));
  }

  /** The window's value over its leading limb, and the divisor's bounds. */
  lemma WindowParts(w: seq<u32>, v: seq<u32>)
    requires |v| >= 2 && |w| == |v| + 1 && v[0] > 0
    ensures LimbValue(w) == w[0] * Radix(|v|) + LimbValue(w[1..])
    ensures 0 < LimbValue(v) < Radix(|v|) && Radix(|v| + 1) == Radix(|v|) * Two32
  {
    LimbValueFront(w);
    LimbValueBound(v);
    LimbValueLower(v);
    RadixIncreasing(|v| - 1);
    RadixStep(|v|);
  }

  /** The arithmetic of DigitAsWrittenExact: nothing borrows out of the window. */
  lemma ExactArith(big: int, d: int, r: int, s: int, top: int, g: int)
    requires big == top * r + s && 0 <= top < Two32 && 0 < d < r && 0 <= big && g == big / d
    ensures -((s - g * d) / r) == top && (big - g * d) % (r * Two32) == big % d && top % Two32 == top
  {
    var x := big - g * d;
    assert big == g * d + big % d;
    assert 0 <= x < d && x == big % d;
    SplitTop(top, top, r, s, g * d, x);
    Carried(s - g * d, r, top, x);
    RadixWide(r);
    DivModUnique(x, r * Two32, 0, x);
    DivModUnique(top, Two32, 0, top);
  }

  lemma RadixWide(r: int)
    requires r > 0
    ensures r <= r * Two32
  {
    MulLe(1, Two32, r);
  }

  // ---------------------------------------------------------------------------
  // The loops of the digit step

  /** `a[p] := x`, every other limb kept. */
  method WriteLimb(a: array<u32>, p: int, x: u32)
    requires 0 <= p < a.Length
    modifies a
    ensures a[..p] == old(a[..p]) && a[p] == x && a[p + 1..] == old(a[p + 1..])
  {
    a[p] := x;
  }

  /**
   * One pass of the subtraction loop at limb `p`: the guess times the divisor
   * limb joins `mult`, its low 32 bits are taken from the limb, and the high
   * bits with the borrow are carried on.
   */
  method SubtractLimb(a: array<u32>, p: int, vi: u32, guess: u32, mult: int) returns (next: int)
    requires 0 <= p < a.Length && 0 <= mult <= Two32
    modifies a
    ensures a[..p] == old(a[..p]) && a[p + 1..] == old(a[p + 1..])
    ensures 0 <= next <= Two32
    ensures old(a[p]) - (mult + guess * vi) == a[p] - next * Two32
  {
    CarryBound(mult, guess, vi);
    var sum := mult + guess * vi;
    var prev := a[p];
    var y := (prev - sum % Two32) % Two32;
    WriteLimb(a, p, y);
    next := sum / Two32;
    if y > prev {
      next := next + 1;
    }
    Borrow(prev, sum, y);
  }

  /** `mult` plus one limb product stays a 64-bit word, and its high word leaves room for the borrow. */
  lemma CarryBound(mult: int, guess: u32, vi: u32)
    requires 0 <= mult <= Two32
    ensures 0 <= mult + guess * vi < Two64 && (mult + guess * vi) / Two32 < Two32
  {
    ProductMax(guess, vi);
    var x := mult + guess * vi;
    assert 0 <= x < Two64;
    HighWord(x);
  }

  lemma ProductMax(x: int, y: int)
    requires 0 <= x <= 0xFFFF_FFFF && 0 <= y <= 0xFFFF_FFFF
    ensures 0 <= x * y <= 0xFFFF_FFFE_0000_0001
  {
    MulLe(0, x, y);
    MulLe(x, 0xFFFF_FFFF, y);
    MulLe(y, 0xFFFF_FFFF, 0xFFFF_FFFF);
  }

  lemma HighWord(x: int)
    requires 0 <= x < Two64
    ensures x / Two32 < Two32
  {
    DivBelow(x, Two32, Two32);
  }

  /** A uint32 subtraction `prev - sum` of the low word: it borrows exactly when the result exceeds `prev`. */
  lemma Borrow(prev: u32, sum: int, y: int)
    requires 0 <= sum && y == (prev - sum % Two32) % Two32
    ensures prev - sum == y - (sum / Two32 + (if y > prev then 1 else 0)) * Two32
  {
    var l, h := sum % Two32, sum / Two32;
    assert sum == h * Two32 + l;
    if l <= prev {
      DivModUnique(prev - l, Two32, 0, prev - l);
    } else {
      DivModUnique(prev - l, Two32, -1, prev - l + Two32);
    }
  }

  /** The arithmetic of one subtraction pass, in values. */
  lemma SubtractArith(x: int, s: int, vi: int, v: int, y: int, n: int, g: int, mult: int, next: int, r: int)
    requires s - g * v == n - mult * r && x - (mult + g * vi) == y - next * Two32
    ensures (x * r + s) - g * (vi * r + v) == (y * r + n) - next * (r * Two32)
  {
    assert (x - mult - g * vi) * r == (y - next * Two32) * r;
  }

  /** One subtraction pass in the terms of the loop's invariant. */
  lemma SubtractStep(original: seq<u32>, after: seq<u32>, divisor: seq<u32>, j: int, i: int, m: int,
                     guess: int, mult: int, next: int)
    requires 0 <= j && 0 <= i < m <= |divisor| && j + m + 1 <= |original| == |after|
    requires LimbValue(original[j + i + 2..j + m + 1]) - guess * LimbValue(divisor[i + 1..m]) ==
      LimbValue(after[j + i + 2..j + m + 1]) - mult * Radix(m - i - 1)
    requires original[j + i + 1] - (mult + guess * divisor[i]) == after[j + i + 1] - next * Two32
    ensures LimbValue(original[j + i + 1..j + m + 1]) - guess * LimbValue(divisor[i..m]) ==
      LimbValue(after[j + i + 1..j + m + 1]) - next * Radix(m - i)
  {
    Front(original, j + i + 1, j + m + 1);
    Front(after, j + i + 1, j + m + 1);
    Front(divisor, i, m);
    RadixStep(m - i - 1);
    var x, sv, vi, v, y, n, r := original[j + i + 1], LimbValue(original[j + i + 2..j + m + 1]), divisor[i],
      LimbValue(divisor[i + 1..m]), after[j + i + 1], LimbValue(after[j + i + 2..j + m + 1]), Radix(m - i - 1);
    hide *;
    SubtractArith(x, sv, vi, v, y, n, guess, mult, next, r);
  }

  /** The window split after its first limb. */
  lemma Front(s: seq<u32>, lo: int, hi: int)
    requires 0 <= lo < hi <= |s|
    ensures LimbValue(s[lo..hi]) == s[lo] * Radix(hi - lo - 1) + LimbValue(s[lo + 1..hi])
  {
    LimbValueFront(s[lo..hi]);
    assert s[lo..hi][1..] == s[lo + 1..hi];
  }

  /** One pass of the subtraction loop, in the terms of its invariant. */
  method SubtractPass(a: array<u32>, j: int, i: int, m: int, divisor: array<u32>, guess: u32, mult: int,
                      ghost original: seq<u32>) returns (next: int)
    requires a != divisor && 0 <= i < m <= divisor.Length && 0 <= j && j + m + 1 <= a.Length == |original|
    requires 0 <= mult <= Two32
    requires a[..j + i + 2] == original[..j + i + 2] && a[j + m + 1..] == original[j + m + 1..]
    requires LimbValue(original[j + i + 2..j + m + 1]) - guess * LimbValue(divisor[i + 1..m]) ==
      LimbValue(a[j + i + 2..j + m + 1]) - mult * Radix(m - i - 1)
    modifies a
    ensures 0 <= next <= Two32
    ensures a[..j + i + 1] == original[..j + i + 1] && a[j + m + 1..] == original[j + m + 1..]
    ensures LimbValue(original[j + i + 1..j + m + 1]) - guess * LimbValue(divisor[i..m]) ==
      LimbValue(a[j + i + 1..j + m + 1]) - next * Radix(m - i)
  {
    hide LimbValue, Radix;
    ghost var before := a[..];
    next := SubtractLimb(a, j + i + 1, divisor[i], guess, mult);
    ghost var after := a[..];
    assert after[j + i + 2..j + m + 1] == before[j + i + 2..j + m + 1] by {
      assert a[j + i + 2..] == before[j + i + 2..];
    }
    assert before[j + i + 1] == original[j + i + 1] by {
      assert before[..j + i + 2] == original[..j + i + 2];
    }
    SubtractStep(original, after, divisor[..], j, i, m, guess, mult, next);
    assert a[..j + i + 1] == original[..j + i + 1] by {
      assert a[..j + i + 1] == before[..j + i + 1];
      assert before[..j + i + 2][..j + i + 1] == before[..j + i + 1];
      assert original[..j + i + 2][..j + i + 1] == original[..j + i + 1];
    }
    assert a[j + m + 1..] == original[j + m + 1..] by {
      assert a[j + m + 1..] == before[j + m + 1..];
    }
  }

  /** One pass of the add-back loop at limb `p`: divisor limb, limb and carry summed, the low word kept. */
  method AddLimb(a: array<u32>, p: int, vi: u32, carry: int) returns (next: int)
    requires 0 <= p < a.Length && 0 <= carry <= 1
    modifies a
    ensures a[..p] == old(a[..p]) && a[p + 1..] == old(a[p + 1..])
    ensures 0 <= next <= 1
    ensures old(a[p]) + vi + carry == a[p] + next * Two32
  {
    var sum := vi + a[p] + carry;
    WriteLimb(a, p, sum % Two32);
    next := sum / Two32;
    assert sum == next * Two32 + sum % Two32;
  }

  /** The arithmetic of one add-back pass, in values. */
  lemma AddArith(x: int, s: int, vi: int, v: int, y: int, n: int, carry: int, next: int, r: int)
    requires s + v == n + carry * r && x + vi + carry == y + next * Two32
    ensures (x * r + s) + (vi * r + v) == (y * r + n) + next * (r * Two32)
  {
    assert (x + vi + carry) * r == (y + next * Two32) * r;
  }

  /** One add-back pass in the terms of the loop's invariant. */
  lemma AddStep(original: seq<u32>, after: seq<u32>, divisor: seq<u32>, j: int, i: int, m: int, carry: int, next: int)
    requires 0 <= j && 0 <= i < m <= |divisor| && j + m + 1 <= |original| == |after|
    requires LimbValue(original[j + i + 2..j + m + 1]) + LimbValue(divisor[i + 1..m]) ==
      LimbValue(after[j + i + 2..j + m + 1]) + carry * Radix(m - i - 1)
    requires original[j + i + 1] + divisor[i] + carry == after[j + i + 1] + next * Two32
    ensures LimbValue(original[j + i + 1..j + m + 1]) + LimbValue(divisor[i..m]) ==
      LimbValue(after[j + i + 1..j + m + 1]) + next * Radix(m - i)
  {
    Front(original, j + i + 1, j + m + 1);
    Front(after, j + i + 1, j + m + 1);
    Front(divisor, i, m);
    RadixStep(m - i - 1);
    var x, sv, vi, v, y, n, r := original[j + i + 1], LimbValue(original[j + i + 2..j + m + 1]), divisor[i],
      LimbValue(divisor[i + 1..m]), after[j + i + 1], LimbValue(after[j + i + 2..j + m + 1]), Radix(m - i - 1);
    hide *;
    AddArith(x, sv, vi, v, y, n, carry, next, r);
  }

  /** One pass of the add-back loop, in the terms of its invariant. */
  method AddPass(a: array<u32>, j: int, i: int, m: int, divisor: array<u32>, carry: int, ghost original: seq<u32>)
    returns (next: int)
    requires a != divisor && 0 <= i < m <= divisor.Length && 0 <= j && j + m + 1 <= a.Length == |original|
    requires 0 <= carry <= 1
    requires a[..j + i + 2] == original[..j + i + 2] && a[j + m + 1..] == original[j + m + 1..]
    requires LimbValue(original[j + i + 2..j + m + 1]) + LimbValue(divisor[i + 1..m]) ==
      LimbValue(a[j + i + 2..j + m + 1]) + carry * Radix(m - i - 1)
    modifies a
    ensures 0 <= next <= 1
    ensures a[..j + i + 1] == original[..j + i + 1] && a[j + m + 1..] == original[j + m + 1..]
    ensures LimbValue(original[j + i + 1..j + m + 1]) + LimbValue(divisor[i..m]) ==
      LimbValue(a[j + i + 1..j + m + 1]) + next * Radix(m - i)
  {
    hide LimbValue, Radix;
    ghost var before := a[..];
    next := AddLimb(a, j + i + 1, divisor[i], carry);
    ghost var after := a[..];
    assert after[j + i + 2..j + m + 1] == before[j + i + 2..j + m + 1] by {
      assert a[j + i + 2..] == before[j + i + 2..];
    }
    assert before[j + i + 1] == original[j + i + 1] by {
      assert before[..j + i + 2] == original[..j + i + 2];
    }
    AddStep(original, after, divisor[..], j, i, m, carry, next);
    assert a[..j + i + 1] == original[..j + i + 1] by {
      assert a[..j + i + 1] == before[..j + i + 1];
      assert before[..j + i + 2][..j + i + 1] == before[..j + i + 1];
      assert original[..j + i + 2][..j + i + 1] == original[..j + i + 1];
    }
    assert a[j + m + 1..] == original[j + m + 1..] by {
      assert a[j + m + 1..] == before[j + m + 1..];
    }
  }

  /**
   * The subtraction loop: the low `m` limbs of the window lose guess times
   * the divisor, and `mult` holds what is carried to the leading limb.
   */
  method SubtractMultiple(a: array<u32>, j: int, divisor: array<u32>, m: int, guess: u32) returns (mult: int)
    requires a != divisor && 1 <= m <= divisor.Length && 0 <= j && j + m + 1 <= a.Length
    modifies a
    ensures a[..j + 1] == old(a[..j + 1]) && a[j + m + 1..] == old(a[j + m + 1..])
    ensures 0 <= mult <= Two32
    ensures LimbValue(old(a[j + 1..j + m + 1])) - guess * LimbValue(divisor[..m]) ==
      LimbValue(a[j + 1..j + m + 1]) - mult * Radix(m)
  {
    ghost var original := a[..];
    mult := 0;
    var k := m;
    assert Radix(0) == 1;
    while k > 0
      invariant 0 <= k <= m && 0 <= mult <= Two32
      invariant a[..j + k + 1] == original[..j + k + 1] && a[j + m + 1..] == original[j + m + 1..]
      invariant LimbValue(original[j + k + 1..j + m + 1]) - guess * LimbValue(divisor[k..m]) ==
        LimbValue(a[j + k + 1..j + m + 1]) - mult * Radix(m - k)
    {
      var next := SubtractPass(a, j, k - 1, m, divisor, guess, mult, original);
      mult := next;
      k := k - 1;
    }
    assert a[j + 1..j + m + 1] == a[..][j + 1..j + m + 1];
    assert old(a[j + 1..j + m + 1]) == original[j + 1..j + m + 1];
  }

  /** The add-back loop: the divisor is added to the low `m` limbs, `carry` holding what goes to the leading limb. */
  method AddBack(a: array<u32>, j: int, divisor: array<u32>, m: int) returns (carry: int)
    requires a != divisor && 1 <= m <= divisor.Length && 0 <= j && j + m + 1 <= a.Length
    modifies a
    ensures a[..j + 1] == old(a[..j + 1]) && a[j + m + 1..] == old(a[j + m + 1..])
    ensures 0 <= carry <= 1
    ensures LimbValue(old(a[j + 1..j + m + 1])) + LimbValue(divisor[..m]) ==
      LimbValue(a[j + 1..j + m + 1]) + carry * Radix(m)
  {
    ghost var original := a[..];
    carry := 0;
    var k := m;
    assert Radix(0) == 1;
    while k > 0
      invariant 0 <= k <= m && 0 <= carry <= 1
      invariant a[..j + k + 1] == original[..j + k + 1] && a[j + m + 1..] == original[j + m + 1..]
      invariant LimbValue(original[j + k + 1..j + m + 1]) + LimbValue(divisor[k..m]) ==
        LimbValue(a[j + k + 1..j + m + 1]) + carry * Radix(m - k)
    {
      var next := AddPass(a, j, k - 1, m, divisor, carry, original);
      carry := next;
      k := k - 1;
    }
    assert a[j + 1..j + m + 1] == a[..][j + 1..j + m + 1];
    assert old(a[j + 1..j + m + 1]) == original[j + 1..j + m + 1];
  }

  /**
   * One digit of `divide` as written: guess, refine, subtract guess *
   * divisor from the window `a[j..j + m + 1]`, and add the divisor back
   * when the leading limb shows a borrow.
   */
  method DivideDigitAsWritten(a: array<u32>, j: int, divisor: array<u32>, m: int) returns (guess: u32)
    requires a != divisor && 2 <= m <= divisor.Length && 0 <= j && j + m + 1 <= a.Length && divisor[0] > 0
    modifies a
    ensures a[..j] == old(a[..j]) && a[j + m + 1..] == old(a[j + m + 1..])
    ensures (guess, LimbValue(a[j..j + m + 1])) == DigitAsWritten(old(a[j..j + m + 1]), divisor[..m])
  {
    hide DigitAsWritten, LimbValue, Radix, GuessAsWritten, Borrowed, Subtracted;
    ghost var w, v := a[j..j + m + 1], divisor[..m];
    assert w[0] == a[j] && w[1] == a[j + 1] && w[2] == a[j + 2] && v[0] == divisor[0] && v[1] == divisor[1];
    guess := GuessDigit(a[j], a[j + 1], a[j + 2], divisor[0], divisor[1]);
    ghost var g := guess;
    var prev := a[j];
    var mult := SubtractWindow(a, j, divisor, m, guess);
    ghost var subtracted := LimbValue(a[j..j + m + 1]);
    if a[j] > prev {
      DigitRestored(w, v, g, mult, subtracted);
      guess := (guess - 1) % Two32;
      Restore(a, j, divisor, m);
    } else {
      DigitKept(w, v, g, mult, subtracted);
    }
  }

  /**
   * The subtraction of guess * divisor from the window `a[j..j + m + 1]`:
   * the loop over the low limbs, then the leading limb less what the loop
   * carried.  The leading limb grows exactly when the subtraction borrowed.
   */
  method SubtractWindow(a: array<u32>, j: int, divisor: array<u32>, m: int, guess: u32) returns (mult: int)
    requires a != divisor && 2 <= m <= divisor.Length && 0 <= j && j + m + 1 <= a.Length
    modifies a
    ensures a[..j] == old(a[..j]) && a[j + m + 1..] == old(a[j + m + 1..])
    ensures Borrowed(old(a[j..j + m + 1]), divisor[..m], guess) == mult
    ensures LimbValue(a[j..j + m + 1]) == Subtracted(old(a[j..j + m + 1]), divisor[..m], guess)
    ensures (mult % Two32 > old(a[j])) == (a[j] > old(a[j]))
  {
    hide DigitAsWritten, LimbValue, Radix, GuessAsWritten, Borrowed, Subtracted;
    ghost var w, v := a[j..j + m + 1], divisor[..m];
    ghost var head, tail := a[..j], a[j + m + 1..];
    assert w[0] == a[j] && w[1..] == a[j + 1..j + m + 1];
    ghost var pre := a[..j + 1];
    assert pre[j] == w[0] && pre[..j] == head;
    mult := SubtractMultiple(a, j, divisor, m, guess);
    assert a[..j] == a[..j + 1][..j] && a[j] == a[..j + 1][j];
    ghost var mid, rest := a[j + 1..j + m + 1], a[j + 1..];
    assert mid == rest[..m] && rest[m..] == a[j + m + 1..] == tail && a[..j] == head;
    var prev := a[j];
    WriteLimb(a, j, (prev - mult % Two32) % Two32);
    ghost var low := a[j + 1..j + m + 1];
    assert low == a[j + 1..][..m] && low == mid;
    assert a[..j] == head && a[j + m + 1..] == a[j + 1..][m..] == tail;
    LimbValueBound(low);
    SubtractOutcome(w, v, guess, mult, prev, a[j], LimbValue(low));
    Front(a[..], j, j + m + 1);
    assert a[..][j..j + m + 1] == a[j..j + m + 1] && a[..][j + 1..j + m + 1] == low;
  }

  /** The add-back: the divisor added to the window `a[j..j + m + 1]`, modulo its width. */
  method Restore(a: array<u32>, j: int, divisor: array<u32>, m: int)
    requires a != divisor && 2 <= m <= divisor.Length && 0 <= j && j + m + 1 <= a.Length
    modifies a
    ensures a[..j] == old(a[..j]) && a[j + m + 1..] == old(a[j + m + 1..])
    ensures LimbValue(a[j..j + m + 1]) == (LimbValue(old(a[j..j + m + 1])) + LimbValue(divisor[..m])) % Radix(m + 1)
  {
    hide DigitAsWritten, LimbValue, Radix, GuessAsWritten, Borrowed, Subtracted;
    ghost var head, tail, low := a[..j], a[j + m + 1..], a[j + 1..j + m + 1];
    ghost var window := a[j..j + m + 1];
    Front(a[..], j, j + m + 1);
    assert a[..][j..j + m + 1] == window && a[..][j + 1..j + m + 1] == low;
    var top := a[j];
    var carry := AddBack(a, j, divisor, m);
    assert a[..j] == a[..j + 1][..j] && a[j] == a[..j + 1][j];
    ghost var mid, rest := a[j + 1..j + m + 1], a[j + 1..];
    assert mid == rest[..m] && rest[m..] == a[j + m + 1..] == tail && a[..j] == head;
    WriteLimb(a, j, (top + carry) % Two32);
    ghost var low2 := a[j + 1..j + m + 1];
    assert low2 == a[j + 1..][..m] && low2 == mid;
    assert a[..j] == head && a[j + m + 1..] == a[j + 1..][m..] == tail;
    LimbValueBound(low2);
    AddBackOutcome(divisor[..m], top, LimbValue(low), carry, a[j], LimbValue(low2), LimbValue(window));
    Front(a[..], j, j + m + 1);
    assert a[..][j..j + m + 1] == a[j..j + m + 1] && a[..][j + 1..j + m + 1] == low2;
  }

  /** DigitAsWritten when the subtraction did not borrow: the guess, and the window as the subtraction left it. */
  lemma DigitKept(w: seq<u32>, v: seq<u32>, g: int, mult: int, subtracted: int)
    requires |v| >= 2 && |w| == |v| + 1 && v[0] > 0 && g == GuessAsWritten(w[0], w[1], w[2], v[0], v[1])
    requires Borrowed(w, v, g) == mult && mult % Two32 <= w[0] && Subtracted(w, v, g) == subtracted
    ensures DigitAsWritten(w, v) == (g, subtracted)
  {
    hide LimbValue, Radix, GuessAsWritten, Borrowed, Subtracted;
  }

  /** DigitAsWritten when the subtraction borrowed: the guess lowered, and the divisor added back. */
  lemma DigitRestored(w: seq<u32>, v: seq<u32>, g: int, mult: int, subtracted: int)
    requires |v| >= 2 && |w| == |v| + 1 && v[0] > 0 && g == GuessAsWritten(w[0], w[1], w[2], v[0], v[1])
    requires Borrowed(w, v, g) == mult && mult % Two32 > w[0] && Subtracted(w, v, g) == subtracted
    ensures DigitAsWritten(w, v) == ((g - 1) % Two32, (subtracted + LimbValue(v)) % Radix(|v| + 1))
  {
    hide LimbValue, Radix, GuessAsWritten, Borrowed, Subtracted;
  }

  /** What the subtraction leaves, and whether it borrowed, in the terms of DigitAsWritten. */
  lemma SubtractOutcome(w: seq<u32>, v: seq<u32>, g: int, mult: int, prev: int, top: int, low: int)
    requires |v| >= 2 && |w| == |v| + 1 && prev == w[0] && top == (prev - mult % Two32) % Two32
    requires 0 <= low < Radix(|v|) && LimbValue(w[1..]) - g * LimbValue(v) == low - mult * Radix(|v|)
    ensures Borrowed(w, v, g) == mult && Subtracted(w, v, g) == top * Radix(|v|) + low
    ensures (mult % Two32 > w[0]) == (top > prev)
  {
    SubtractValues(w, v, g, mult, prev, top, low);
  }

  lemma SubtractValues(w: seq<u32>, v: seq<u32>, g: int, mult: int, prev: int, top: int, low: int)
    requires |v| >= 2 && |w| == |v| + 1 && prev == w[0] && top == (prev - mult % Two32) % Two32
    requires 0 <= low < Radix(|v|) && LimbValue(w[1..]) - g * LimbValue(v) == low - mult * Radix(|v|)
    ensures -((LimbValue(w[1..]) - g * LimbValue(v)) / Radix(|v|)) == mult
    ensures (LimbValue(w) - g * LimbValue(v)) % Radix(|v| + 1) == top * Radix(|v|) + low
    ensures (mult % Two32 > w[0]) == (top > prev)
  {
    hide LimbValue, Radix;
    var r, gd, s, x := Radix(|v|), g * LimbValue(v), LimbValue(w[1..]), LimbValue(w);
    LimbValueFront(w);
    RadixStep(|v|);
    RadixIncreasing(|v|);
    assert x == prev * r + s;
    assert 0 <= prev < Two32;
    Carried(s - gd, r, mult, low);
    SplitTop(prev, mult, r, s, gd, low);
    Wrap(prev, mult, top);
    Settle(x - gd, prev - mult, r, low, top);
  }

  /** A value written as `low - mult * r` with `low` below `r`: `mult` is what it borrows. */
  lemma Carried(a: int, r: int, mult: int, low: int)
    requires 0 <= low < r && a == low - mult * r
    ensures -(a / r) == mult && a % r == low
  {
    DivModUnique(a, r, -mult, low);
  }

  /** The window less the product, once the low limbs are settled. */
  lemma SplitTop(prev: int, mult: int, r: int, s: int, gd: int, low: int)
    requires s - gd == low - mult * r
    ensures prev * r + s - gd == (prev - mult) * r + low
  {
  }

  /** `z` as a leading value over `r` and a low part: modulo `r * 2^32` the leading value keeps its low word. */
  lemma Settle(z: int, a: int, r: int, low: int, top: int)
    requires 0 <= low < r && z == a * r + low && top == a % Two32
    ensures z % (r * Two32) == top * r + low
  {
    ScaledMod(a, r, low, Two32);
  }

  /** The leading limb less the low word of `mult`, in 32 bits: it grows exactly when the subtraction wrapped. */
  lemma Wrap(prev: int, mult: int, top: int)
    requires 0 <= prev < Two32 && top == (prev - mult % Two32) % Two32
    ensures (prev - mult) % Two32 == top && (mult % Two32 > prev) == (top > prev)
  {
    var l, h := mult % Two32, mult / Two32;
    assert mult == h * Two32 + l;
    ModAddMultiple(prev - l, -h, Two32);
    if l <= prev {
      DivModUnique(prev - l, Two32, 0, prev - l);
    } else {
      DivModUnique(prev - l, Two32, -1, prev - l + Two32);
    }
  }

  /** What the add-back leaves, in the terms of DigitAsWritten. */
  lemma AddBackOutcome(v: seq<u32>, top: int, low: int, carry: int, top2: int, low2: int, subtracted: int)
    requires |v| >= 2 && 0 <= low2 < Radix(|v|) && subtracted == top * Radix(|v|) + low
    requires low + LimbValue(v) == low2 + carry * Radix(|v|) && top2 == (top + carry) % Two32
    ensures (subtracted + LimbValue(v)) % Radix(|v| + 1) == top2 * Radix(|v|) + low2
  {
    hide LimbValue, Radix;
    RadixStep(|v|);
    RadixIncreasing(|v|);
    var r := Radix(|v|);
    Rescale(top, r, low, LimbValue(v), low2, carry);
    ScaledMod(top + carry, r, low2, Two32);
  }

  /** `top * r + low + d`, when `low + d` carries `carry` past `r`. */
  lemma Rescale(top: int, r: int, low: int, d: int, low2: int, carry: int)
    requires low + d == low2 + carry * r
    ensures top * r + low + d == (top + carry) * r + low2
  {
  }

  // ---------------------------------------------------------------------------
  // The digit loop

  /**
   * The digit loop of `divide` as written, from window `j` on: the digits
   * and the limbs the dividend is left with.
   */
  function DigitLoopAsWritten(s: seq<u32>, v: seq<u32>, j: nat): (r: (seq<u32>, seq<u32>))
    requires |v| >= 2 && v[0] > 0
    ensures |r.1| == |s| && |r.0| == if j + |v| + 1 > |s| then 0 else |s| - |v| - j
    decreases |s| - j
  {
    if j + |v| + 1 > |s| then ([], s)
    else
      var (g, rest) := DigitAsWritten(s[j..j + |v| + 1], v);
      var next := s[..j] + ToLimbs(rest, |v| + 1) + s[j + |v| + 1..];
      var (digits, left) := DigitLoopAsWritten(next, v, j + 1);
      ([g] + digits, left)
  }

  /** The limbs of a value are the limbs it was read from. */
  lemma {:induction false} LimbsOfValue(s: seq<u32>)
    ensures LimbValue(s) < Radix(|s|) && ToLimbs(LimbValue(s), |s|) == s
    decreases |s|
  {
    LimbValueBound(s);
    if |s| > 0 {
      var n := |s| - 1;
      LimbsOfValue(s[..n]);
      Unfold(s);
      DivModUnique(LimbValue(s), Two32, LimbValue(s[..n]), s[n]);
      assert s == s[..n] + [s[n]];
    }
  }

  /** The digit loop of `divide` as written, on the arrays. */
  method DivideDigitsAsWritten(a: array<u32>, length: int, divisor: array<u32>, m: int, quotient: array<u32>)
    requires a != divisor && a != quotient && divisor != quotient
    requires 2 <= m < length <= a.Length && m <= divisor.Length && length - m <= quotient.Length && divisor[0] > 0
    modifies a, quotient
    ensures DigitLoopAsWritten(old(a[..length]), divisor[..m], 0) == (quotient[..length - m], a[..length])
  {
    hide *;
    ghost var v := divisor[..m];
    assert quotient[..0] + DigitLoopAsWritten(a[..length], v, 0).0 == DigitLoopAsWritten(a[..length], v, 0).0;
    for j := 0 to length - m
      invariant divisor[..m] == v
      invariant DigitLoopAsWritten(old(a[..length]), v, 0) ==
        (quotient[..j] + DigitLoopAsWritten(a[..length], v, j).0, DigitLoopAsWritten(a[..length], v, j).1)
    {
      ghost var s, q := a[..length], quotient[..j];
      ghost var before, window := a[..j], a[j..j + m + 1];
      ghost var after := a[j + m + 1..];
      assert s[..j] == before && s[j..j + m + 1] == window && s[j + m + 1..] == after[..length - j - m - 1];
      var guess := DivideDigitAsWritten(a, j, divisor, m);
      quotient[j] := guess;
      ghost var s2 := a[..length];
      assert s2[..j] == before && s2[j..j + m + 1] == a[j..j + m + 1] && s2[j + m + 1..] == after[..length - j - m - 1];
      DigitLoopStep(s, s2, v, j, guess);
      assert quotient[..j + 1] == q + [guess];
      assert q + ([guess] + DigitLoopAsWritten(s2, v, j + 1).0) == quotient[..j + 1] + DigitLoopAsWritten(s2, v, j + 1).0;
    }
    DigitLoopEnd(a[..length], v, length - m);
    assert quotient[..length - m] + [] == quotient[..length - m];
  }

  /** Past the last window the digit loop stops with no digits. */
  lemma DigitLoopEnd(s: seq<u32>, v: seq<u32>, j: nat)
    requires |v| >= 2 && v[0] > 0 && j + |v| + 1 > |s|
    ensures DigitLoopAsWritten(s, v, j) == ([], s)
  {
  }

  /** One pass of the digit loop, as DigitLoopAsWritten takes it. */
  lemma DigitLoopStep(s: seq<u32>, s2: seq<u32>, v: seq<u32>, j: nat, g: u32)
    requires |v| >= 2 && v[0] > 0 && j + |v| + 1 <= |s| == |s2|
    requires s2[..j] == s[..j] && s2[j + |v| + 1..] == s[j + |v| + 1..]
    requires (g, LimbValue(s2[j..j + |v| + 1])) == DigitAsWritten(s[j..j + |v| + 1], v)
    ensures DigitLoopAsWritten(s, v, j) == ([g] + DigitLoopAsWritten(s2, v, j + 1).0, DigitLoopAsWritten(s2, v, j + 1).1)
  {
    hide DigitAsWritten, LimbValue, ToLimbs, Radix;
    LimbsOfValue(s2[j..j + |v| + 1]);
    assert s2 == s[..j] + s2[j..j + |v| + 1] + s[j + |v| + 1..];
  }

  // ---------------------------------------------------------------------------
  // The input where the guess comes out too small

  /**
   * 0x80000000_80000000_00000005 divided by 0x80000000_FFFFFFFF: fillInArray
   * and the leading zero `divide` adds give these limbs, and the divisor's
   * leading limb already has its top bit set, so nothing is shifted.
   */
  lemma ExampleLimbs()
    ensures Int128Model.MagnitudeLimbs(0x8000_0000, 0x8000_0000_0000_0005) == [0x8000_0000, 0x8000_0000, 5]
    ensures Int128Model.MagnitudeLimbs(0, 0x8000_0000_FFFF_FFFF) == [0x8000_0000, 0xFFFF_FFFF]
  {
  }

  /**
   * At the window `[0x80000000, 0x80000000, 5]` the leading limbs agree, so
   * the guess starts at UINT32_MAX; `rhat` is 2^32, which wraps to 0, and
   * the loop lowers the guess twice before `rhat` wraps again.
   */
  lemma ExampleGuess()
    ensures GuessAsWritten(0x8000_0000, 0x8000_0000, 5, 0x8000_0000, 0xFFFF_FFFF) == 0xFFFF_FFFD
  {
    assert InitialGuess(0x8000_0000, 0x8000_0000, 0x8000_0000) == UInt32Max;
    assert InitialRest(0x8000_0000, 0x8000_0000, 0x8000_0000, UInt32Max) == 0;
    assert Refined(0xFFFF_FFFE, 0x8000_0000, 0x8000_0000, 0xFFFF_FFFF, 5) == 0xFFFF_FFFD;
  }

  /**
   * The digit loop as written on that dividend: the digits 0 and
   * 0xFFFFFFFD, where the quotient is 0xFFFFFFFF, and the limbs left,
   * 0x1_00000004_00000002, are more than the divisor.
   */
  lemma DivisionExample()
    ensures DigitLoopAsWritten([0, 0x8000_0000, 0x8000_0000, 5], [0x8000_0000, 0xFFFF_FFFF], 0)
      == ([0, 0xFFFF_FFFD], [0, 1, 4, 2])
    ensures LimbValue([0, 0x8000_0000, 0x8000_0000, 5]) / LimbValue([0x8000_0000, 0xFFFF_FFFF]) == 0xFFFF_FFFF
    ensures LimbValue([0, 1, 4, 2]) > LimbValue([0x8000_0000, 0xFFFF_FFFF])
  {
    ExampleValues([0, 0x8000_0000, 0x8000_0000, 5], [0x8000_0000, 0xFFFF_FFFF], [0, 1, 4, 2]);
    ExampleLoop([0, 0x8000_0000, 0x8000_0000, 5], [0x8000_0000, 0xFFFF_FFFF], [0, 1, 4, 2]);
  }

  /** The two windows of the example, one DigitLoopAsWritten step each. */
  lemma ExampleLoop(s0: seq<u32>, v: seq<u32>, s2: seq<u32>)
    requires s0 == [0, 0x8000_0000, 0x8000_0000, 5] && v == [0x8000_0000, 0xFFFF_FFFF] && s2 == [0, 1, 4, 2]
    ensures DigitLoopAsWritten(s0, v, 0) == ([0, 0xFFFF_FFFD], s2)
  {
    ExampleFirst(s0, v);
    ExampleSecond(s0, v, s2);
    hide *;
    assert [0] + [0xFFFF_FFFD] == [0, 0xFFFF_FFFD];
  }

  /** The first window is kept with the digit 0. */
  lemma ExampleFirst(s0: seq<u32>, v: seq<u32>)
    requires s0 == [0, 0x8000_0000, 0x8000_0000, 5] && v == [0x8000_0000, 0xFFFF_FFFF]
    ensures DigitLoopAsWritten(s0, v, 0) == ([0] + DigitLoopAsWritten(s0, v, 1).0, DigitLoopAsWritten(s0, v, 1).1)
  {
    hide *;
    var w := s0[0..3];
    assert w == [0, 0x8000_0000, 0x8000_0000];
    DigitZero(w, v);
    DigitLoopStep(s0, s0, v, 0, 0);
  }

  /** The second window gives the digit 0xFFFFFFFD and the loop ends. */
  lemma ExampleSecond(s0: seq<u32>, v: seq<u32>, s2: seq<u32>)
    requires s0 == [0, 0x8000_0000, 0x8000_0000, 5] && v == [0x8000_0000, 0xFFFF_FFFF] && s2 == [0, 1, 4, 2]
    ensures DigitLoopAsWritten(s0, v, 1) == ([0xFFFF_FFFD], s2)
  {
    LimbValueSmall(s2[1..]);
    assert LimbValue(s2[1..4]) == 0x1_0000_0004_0000_0002 by {
      assert s2[1..4] == s2[1..];
    }
    assert s0[1..4] == [0x8000_0000, 0x8000_0000, 5] && s2[..1] == s0[..1] && s2[4..] == s0[4..];
    hide *;
    DigitTooSmall(s0[1..4], v);
    DigitLoopStep(s0, s2, v, 1, 0xFFFF_FFFD);
    DigitLoopEnd(s2, v, 2);
    assert [0xFFFF_FFFD] + [] == [0xFFFF_FFFD];
  }

  /** The example's values, read from its limbs. */
  lemma ExampleValues(s0: seq<u32>, v: seq<u32>, s2: seq<u32>)
    requires s0 == [0, 0x8000_0000, 0x8000_0000, 5] && v == [0x8000_0000, 0xFFFF_FFFF] && s2 == [0, 1, 4, 2]
    ensures LimbValue(s0) / LimbValue(v) == 0xFFFF_FFFF && LimbValue(s2) > LimbValue(v)
  {
    LimbValueSmall(s0);
    LimbValueSmall(s2);
    LimbValueSmall(v);
    ExampleQuotient(LimbValue(s0), LimbValue(v), LimbValue(s2));
  }

  /** The true quotient of the example, 0xFFFFFFFF, and the excess left by the digit as written. */
  lemma ExampleQuotient(dividend: int, divisor: int, left: int)
    requires dividend == ((0 * Two32 + 0x8000_0000) * Two32 + 0x8000_0000) * Two32 + 5
    requires divisor == 0x8000_0000 * Two32 + 0xFFFF_FFFF && left == ((0 * Two32 + 1) * Two32 + 4) * Two32 + 2
    ensures dividend / divisor == 0xFFFF_FFFF && left > divisor
  {
    DivModUnique(dividend, divisor, 0xFFFF_FFFF, 0x2_0000_0004);
  }

  /** The first window, `[0, 0x80000000, 0x80000000]`, gives the digit 0 and is kept. */
  lemma DigitZero(w: seq<u32>, v: seq<u32>)
    requires w == [0, 0x8000_0000, 0x8000_0000] && v == [0x8000_0000, 0xFFFF_FFFF]
    ensures DigitAsWritten(w, v) == (0, LimbValue(w))
  {
    assert GuessAsWritten(0, 0x8000_0000, 0x8000_0000, 0x8000_0000, 0xFFFF_FFFF) == 0 by {
      assert InitialGuess(0, 0x8000_0000, 0x8000_0000) == 1;
      assert InitialRest(0, 0x8000_0000, 0x8000_0000, 1) == 0;
      assert Refined(1, 0, 0x8000_0000, 0xFFFF_FFFF, 0x8000_0000) == 0 by {
        assert Refined(0, 0x8000_0000, 0x8000_0000, 0xFFFF_FFFF, 0x8000_0000) == 0;
      }
    }
    hide GuessAsWritten, DigitAsWritten;
    NothingSubtracted(w, v);
    DigitKept(w, v, 0, 0, LimbValue(w));
  }

  /** With the guess 0 nothing is borrowed and the window is kept. */
  lemma NothingSubtracted(w: seq<u32>, v: seq<u32>)
    requires |w| == |v| + 1
    ensures Borrowed(w, v, 0) == 0 && Subtracted(w, v, 0) == LimbValue(w)
  {
    LimbValueBound(w);
    LimbValueBound(w[1..]);
    RadixIncreasing(|v|);
    hide LimbValue, Radix;
    DivModUnique(LimbValue(w[1..]), Radix(|v|), 0, LimbValue(w[1..]));
    DivModUnique(LimbValue(w), Radix(|v| + 1), 0, LimbValue(w));
  }

  /** The second window gives 0xFFFFFFFD and leaves 0x1_00000004_00000002. */
  lemma DigitTooSmall(w: seq<u32>, v: seq<u32>)
    requires w == [0x8000_0000, 0x8000_0000, 5] && v == [0x8000_0000, 0xFFFF_FFFF]
    ensures DigitAsWritten(w, v) == (0xFFFF_FFFD, 0x1_0000_0004_0000_0002)
  {
    ExampleGuess();
    TooSmallParts(w, v);
    hide GuessAsWritten, DigitAsWritten, Borrowed, Subtracted, LimbValue, Radix;
    DigitKept(w, v, 0xFFFF_FFFD, 0x7FFF_FFFF, 0x1_0000_0004_0000_0002);
  }

  /** What the subtraction leaves at the second window: a borrow of 0x7FFFFFFF, less than the leading limb. */
  lemma TooSmallParts(w: seq<u32>, v: seq<u32>)
    requires w == [0x8000_0000, 0x8000_0000, 5] && v == [0x8000_0000, 0xFFFF_FFFF]
    ensures Borrowed(w, v, 0xFFFF_FFFD) == 0x7FFF_FFFF && Subtracted(w, v, 0xFFFF_FFFD) == 0x1_0000_0004_0000_0002
  {
    LimbValueSmall(w);
    LimbValueSmall(w[1..]);
    LimbValueSmall(v);
    SmallRadix();
    hide LimbValue, Radix;
    assert LimbValue(w) == 0x8000_0000_8000_0000_0000_0005;
    assert LimbValue(w[1..]) == 0x8000_0000_0000_0005;
    assert LimbValue(v) == 0x8000_0000_FFFF_FFFF;
    var x := LimbValue(w) - 0xFFFF_FFFD * LimbValue(v);
    assert x == 0x1_0000_0004_0000_0002;
    DivModUnique(x, Radix(3), 0, x);
    var y := LimbValue(w[1..]) - 0xFFFF_FFFD * LimbValue(v);
    assert y == -0x7FFF_FFFF * Two64 + 0x4_0000_0002;
    DivModUnique(y, Radix(2), -0x7FFF_FFFF, 0x4_0000_0002);
  }

  /** The radices of one to three limbs. */
  lemma SmallRadix()
    ensures Radix(0) == 1 && Radix(1) == Two32 && Radix(2) == Two64 && Radix(3) == Two64 * Two32
  {
    Pow2Values();
    RadixStep(2);
  }
}
