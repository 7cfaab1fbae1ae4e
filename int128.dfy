// int128 of src/math/int128.cpp: a signed 128-bit integer in two's
// complement, kept as a signed high half and an unsigned low half. The
// product works on 32-bit limbs; the division spreads the magnitudes over
// arrays of 32-bit limbs, most significant first, and shifts and divides
// those arrays in place.
module Int128Model {
  import opened Words
  import opened UInt128Model
  import opened Int128Limbs

  const Half128: int := 0x8000_0000_0000_0000_0000_0000_0000_0000

  /** The values an int128 can hold. */
  predicate InRange(v: int)
  {
    -Half128 <= v < Half128
  }

  /** Two's complement wrap-around: the int128 congruent to `x` modulo 2^128. */
  function Wrap128(x: int): (r: int)
    ensures InRange(r) && (r - x) % Two128 == 0
  {
    var m := x % Two128;
    if m >= Half128 then m - Two128 else m
  }

  /** An int128 congruent to `x` is the wrapped `x`. */
  lemma WrapUnique(v: int, x: int)
    requires InRange(v) && (v - x) % Two128 == 0
    ensures v == Wrap128(x)
  {
    var r := Wrap128(x);
    assert (v - r) % Two128 == 0 by {
      ModAddMultiple(0, (v - x) / Two128 - (r - x) / Two128, Two128);
      assert v - r == ((v - x) / Two128 - (r - x) / Two128) * Two128;
    }
  }

  lemma WrapNegate(x: int)
    ensures Wrap128(-Wrap128(x)) == Wrap128(-x)
  {
    var r := Wrap128(x);
    var w := Wrap128(-r);
    assert (w - -x) % Two128 == 0 by {
      ModAddMultiple(0, (w + r) / Two128 - (r - x) / Two128, Two128);
      assert w + x == ((w + r) / Two128 - (r - x) / Two128) * Two128;
    }
    WrapUnique(w, -x);
  }

  /** The signed value of a pair of halves lies in the int128 range. */
  lemma SignedRange(h: i64, l: u64)
    ensures InRange(Join(h, l))
  {
    MulLe(-0x8000_0000_0000_0000, h, Two64);
    MulStep(h, 0x8000_0000_0000_0000, Two64);
  }

  function Magnitude(v: int): nat
  {
    if v < 0 then -v else v
  }

  // ---------------------------------------------------------------------------
  // C++ division: the quotient is truncated toward zero

  function TruncDiv(a: int, b: int): int
    requires b != 0
  {
    var q := Magnitude(a) / Magnitude(b);
    if (a < 0) != (b < 0) then -q else q
  }

  function TruncRem(a: int, b: int): int
    requires b != 0
  {
    var r := Magnitude(a) % Magnitude(b);
    if a < 0 then -r else r
  }

  /**
   * Truncating division as the C++ standard states it: `a == q * b + r`, the
   * remainder is smaller than the divisor and takes the dividend's sign, and
   * the quotient is negative exactly when the signs differ and it is not 0.
   */
  lemma TruncDivMod(a: int, b: int)
    requires b != 0
    ensures a == TruncDiv(a, b) * b + TruncRem(a, b)
    ensures Magnitude(TruncRem(a, b)) < Magnitude(b)
    ensures TruncRem(a, b) == 0 || (TruncRem(a, b) < 0 <==> a < 0)
    ensures TruncDiv(a, b) < 0 <==> (a < 0) != (b < 0) && Magnitude(a) >= Magnitude(b)
  {
    var ma: int, mb: int := Magnitude(a), Magnitude(b);
    var q: int, r: int := ma / mb, ma % mb;
    NatDivMod(ma, mb);
    if a < 0 && b < 0 {
      assert TruncDiv(a, b) == q && TruncRem(a, b) == -r;
      assert a == q * b - r by {
        assert q * b == -(q * mb);
      }
    } else if a < 0 {
      assert TruncDiv(a, b) == -q && TruncRem(a, b) == -r;
      assert a == -q * b - r by {
        assert -q * b == -(q * mb);
      }
    } else if b < 0 {
      assert TruncDiv(a, b) == -q && TruncRem(a, b) == r;
      assert a == -q * b + r by {
        assert -q * b == q * mb;
      }
    } else {
      assert TruncDiv(a, b) == q && TruncRem(a, b) == r;
    }
  }

  // ---------------------------------------------------------------------------
  // The word arithmetic behind `*=` and `negate`

  /** `x + y` on `uint64_t`: the sum is below an operand exactly when it wrapped. */
  lemma AddCarry(x: u64, y: u64)
    ensures var s := (x + y) % Two64;
      (s < y <==> x + y >= Two64) && s == x + y - (if x + y >= Two64 then Two64 else 0)
  {
    if x + y >= Two64 {
      DivModUnique(x + y, Two64, 1, x + y - Two64);
    } else {
      DivModUnique(x + y, Two64, 0, x + y);
    }
  }

  /**
   * The low half of `*=` and the carries into the high half: `lowbits` gets
   * the two low 32-bit digits of `p1 + (p2 + p3) * 2^32` and the high half the
   * rest, with the sum's two carries counted at 2^32 each.
   */
  lemma MulLowPart(p1: u64, p2: u64, p3: u64, s1: int, s2: int, h1: int, h2: int, lowF: int)
    requires s1 == (p1 / Two32 + p2) % Two64 && h1 == (if s1 < p2 then Two32 else 0)
    requires s2 == (s1 + p3) % Two64 && h2 == (if s2 < p3 then Signed64(h1 + Two32) else h1)
    requires lowF == (p1 % Two32 + (s2 * Two32) % Two64) % Two64
    ensures 0 <= h2 + s2 / Two32 < Two64 / 2 && 0 <= lowF < Two64
    ensures (h2 + s2 / Two32) * Two64 + lowF == p1 + (p2 + p3) * Two32
  {
    var sum := p1 / Two32 + p2 + p3;
    MulCarries(p1, p2, p3, s1, s2, h1, h2);
    ScaledDivMod(s2, Two32, Two32);
    MulLe(s2 % Two32, Two32 - 1, Two32);
    DivModUnique(p1 % Two32 + (s2 % Two32) * Two32, Two64, 0, p1 % Two32 + (s2 % Two32) * Two32);
    assert lowF == p1 % Two32 + (sum % Two32) * Two32;
    LowRegroup(p1, sum, p2 + p3);
  }

  /** The two carries of the low sum, counted at 2^32 each, and the sum's top bits. */
  lemma MulCarries(p1: u64, p2: u64, p3: u64, s1: int, s2: int, h1: int, h2: int)
    requires s1 == (p1 / Two32 + p2) % Two64 && h1 == (if s1 < p2 then Two32 else 0)
    requires s2 == (s1 + p3) % Two64 && h2 == (if s2 < p3 then Signed64(h1 + Two32) else h1)
    ensures h2 + s2 / Two32 == (p1 / Two32 + p2 + p3) / Two32 && 0 <= h2 <= 2 * Two32
    ensures s2 % Two32 == (p1 / Two32 + p2 + p3) % Two32 && 0 <= s2 < Two64
  {
    var s0 := p1 / Two32;
    DivBelow(p1, Two32, Two32);
    DivLe(p1, Two32);
    AddCarry(s0, p2);
    AddCarry(s1, p3);
    var c := (if s1 < p2 then 1 else 0) + (if s2 < p3 then 1 else 0);
    assert h2 == c * Two32;
    assert s0 + p2 + p3 == s2 + (c * Two32) * Two32;
    ModAddMultiple(s2, c * Two32, Two32);
  }

  lemma LowRegroup(p1: int, sum: int, t: int)
    requires sum == p1 / Two32 + t && p1 >= 0
    ensures (sum / Two32) * Two64 + (p1 % Two32 + (sum % Two32) * Two32) == p1 + t * Two32
  {
    assert sum == (sum / Two32) * Two32 + sum % Two32;
    assert (sum / Two32) * Two64 + (sum % Two32) * Two32 == sum * Two32;
    assert p1 == (p1 / Two32) * Two32 + p1 % Two32;
  }

  /** `Signed64` moves its argument by a multiple of 2^64. */
  lemma Signed64Shift(x: int)
    ensures Signed64(x) == x + ((Signed64(x) - x) / Two64) * Two64
  {
  }

  lemma ModShift(x: int)
    ensures x % Two64 == x - (x / Two64) * Two64
  {
  }

  /**
   * The high half of `*=` adds the terms at 2^64 and 2^96 with wrap-around,
   * and the halves then hold the product of the unsigned readings modulo
   * 2^128.
   */
  lemma IntProductWords(uh: u64, al: u64, ruh: u64, bl: u64, l0: int, l1: int, l2: int, l3: int,
                        r0: int, r1: int, r2: int, r3: int, h3: int, lowF: int, hF: int)
    requires l0 == uh / Two32 && l1 == uh % Two32 && l2 == al / Two32 && l3 == al % Two32
    requires r0 == ruh / Two32 && r1 == ruh % Two32 && r2 == bl / Two32 && r3 == bl % Two32
    requires h3 * Two64 + lowF == l3 * r3 + (l2 * r3 + l3 * r2) * Two32
    requires hF == Signed64(Signed64(h3 + (l1 * r3 + l2 * r2 + l3 * r1) % Two64) +
        ((l0 * r3 + l1 * r2 + l2 * r1 + l3 * r0) * Two32) % Two64)
    ensures (Join(hF, lowF) - Join(uh, al) * Join(ruh, bl)) % Two128 == 0
  {
    var t2 := l1 * r3 + l2 * r2 + l3 * r1;
    var t3 := (l0 * r3 + l1 * r2 + l2 * r1 + l3 * r0) * Two32;
    var e1 := Signed64(h3 + t2 % Two64);
    Signed64Shift(h3 + t2 % Two64);
    Signed64Shift(e1 + t3 % Two64);
    ModShift(t2);
    ModShift(t3);
    var k := (e1 - (h3 + t2 % Two64)) / Two64 + (hF - (e1 + t3 % Two64)) / Two64 - t2 / Two64 - t3 / Two64;
    assert hF == h3 + t2 + t3 + k * Two64;
    var kx := l0 * r1 + l1 * r2 + l2 * r3 + (l0 * r2 + l1 * r1) * Two32 + l0 * r1 * Two64;
    assert Join(uh, al) == ((l0 * Two32 + l1) * Two32 + l2) * Two32 + l3;
    assert Join(ruh, bl) == ((r0 * Two32 + r1) * Two32 + r2) * Two32 + r3;
    Expand(l0, l1, l2, l3, r0, r1, r2, r3);
    var x := Join(uh, al) * Join(ruh, bl);
    var kk := l0 * r2 + l1 * r1 + l2 * r0 + (l0 * r1 + l1 * r0) * Two32 + l0 * r0 * Two64;
    assert x == t3 * Two64 + t2 * Two64 + (l2 * r3 + l3 * r2) * Two32 + l3 * r3 + kk * Two128;
    assert Join(hF, lowF) == t3 * Two64 + t2 * Two64 + (l2 * r3 + l3 * r2) * Two32 + l3 * r3 + k * Two128;
    ModAddMultiple(0, k - kk, Two128);
  }

  /** Products of values congruent modulo 2^128 are congruent. */
  lemma ProductCongruent(a: int, b: int, ua: int, ub: int)
    requires (ua - a) % Two128 == 0 && (ub - b) % Two128 == 0
    ensures (ua * ub - a * b) % Two128 == 0
  {
    var ka, kb := (ua - a) / Two128, (ub - b) / Two128;
    assert ua == a + ka * Two128 && ub == b + kb * Two128;
    assert ua * ub - a * b == (a * kb + ka * b + ka * kb * Two128) * Two128;
    ModAddMultiple(0, a * kb + ka * b + ka * kb * Two128, Two128);
  }

  /** The unsigned reading of the high half changes the value by a multiple of 2^128. */
  lemma UnsignedReading(h: i64, l: u64)
    ensures (Join(h % Two64, l) - Join(h, l)) % Two128 == 0
  {
    var k := h / Two64;
    assert Join(h % Two64, l) - Join(h, l) == -k * Two128;
    ModAddMultiple(0, -k, Two128);
  }

  lemma ModCombine(x: int, y: int, z: int)
    requires (x - y) % Two128 == 0 && (y - z) % Two128 == 0
    ensures (x - z) % Two128 == 0
  {
    ModAddMultiple(0, (x - y) / Two128 + (y - z) / Two128, Two128);
    assert x - z == ((x - y) / Two128 + (y - z) / Two128) * Two128;
  }

  /** `negate`: complement both halves and add one, carrying into the high half. */
  lemma NegateWords(h: i64, l: u64, lo: int, hi: int)
    requires lo == (Two64 - 1 - l + 1) % Two64
    requires hi == if lo == 0 then Signed64(-(h as int) - 1 + 1) else -(h as int) - 1
    ensures Join(hi, lo) == Wrap128(-Join(h, l))
  {
    if l == 0 {
      DivModUnique(Two64, Two64, 1, 0);
      NegateCarry(h, hi);
    } else {
      DivModUnique(Two64 - l, Two64, 0, Two64 - l);
      NegateNoCarry(h, l);
    }
  }

  /** Negating a value with a zero low half carries into the high half. */
  lemma NegateCarry(h: i64, hi: int)
    requires hi == Signed64(-(h as int) - 1 + 1)
    ensures Join(hi, 0) == Wrap128(-Join(h, 0))
  {
    SignedRange(h, 0);
    Signed64Shift(-(h as int));
    var k := (hi + h) / Two64;
    assert Join(hi, 0) == -Join(h, 0) + k * Two128;
    ModAddMultiple(0, k, Two128);
    SignedRange(hi, 0);
    WrapUnique(Join(hi, 0), -Join(h, 0));
  }

  /** Without a carry the high half is complemented, which cannot overflow. */
  lemma NegateNoCarry(h: i64, l: u64)
    requires l != 0
    ensures Join(-(h as int) - 1, Two64 - l) == Wrap128(-Join(h, l))
  {
    SignedRange(h, l);
    assert Join(-(h as int) - 1, Two64 - l) == -Join(h, l);
    WrapUnique(-Join(h, l), -Join(h, l));
  }

  // ---------------------------------------------------------------------------
  // fillInArray: the magnitude as limbs

  /** The magnitude's halves: two's complement negation for a negative value. */
  function AbsHalves(high: i64, low: u64): (r: (u64, u64))
    ensures Join(r.0, r.1) == Magnitude(Join(high, low))
  {
    if high < 0 then
      var lo := (Two64 - 1 - low + 1) % Two64;
      var hi := -(high as int) - 1;
      AbsWords(high, low);
      if lo == 0 then (hi + 1, lo) else (hi, lo)
    else
      (high, low)
  }

  lemma AbsWords(high: i64, low: u64)
    requires high < 0
    ensures var lo := (Two64 - 1 - low + 1) % Two64;
      var hi := if lo == 0 then -(high as int) - 1 + 1 else -(high as int) - 1;
      0 <= hi < Two64 && 0 <= lo < Two64 && Join(hi, lo) == -Join(high, low)
  {
    if low == 0 {
      DivModUnique(Two64, Two64, 1, 0);
    } else {
      DivModUnique(Two64 - low, Two64, 0, Two64 - low);
    }
  }

  /** A value is negative exactly when its signed high half is. */
  lemma NegativeHigh(high: i64, low: u64)
    ensures Join(high, low) < 0 <==> high < 0
  {
    if high < 0 {
      MulLe(high, -1, Two64);
    } else {
      MulLe(0, high, Two64);
    }
  }

  /**
   * `fillInArray` as written: the magnitude's 32-bit limbs, most significant
   * first, where a high half of 0 keeps two limbs once the low half reaches
   * `UINT32_MAX`.
   */
  function MagnitudeLimbsAsWritten(high: i64, low: u64): (r: seq<u32>)
    ensures LimbValue(r) == Magnitude(Join(high, low)) && |r| <= 4
  {
    var (h, l) := AbsHalves(high, low);
    LimbsOfHalves(h, l);
    if h != 0 then
      if h > 0xFFFF_FFFF then [h / Two32, h % Two32, l / Two32, l % Two32]
      else [h, l / Two32, l % Two32]
    else if l >= 0xFFFF_FFFF then [l / Two32, l % Two32]
    else if l == 0 then []
    else [l]
  }

  /** `fillInArray` with the evident `>` bound: no leading zero limb. */
  function MagnitudeLimbs(high: i64, low: u64): (r: seq<u32>)
    ensures LimbValue(r) == Magnitude(Join(high, low)) && |r| <= 4
    ensures |r| > 0 ==> r[0] != 0
  {
    var (h, l) := AbsHalves(high, low);
    LimbsOfHalves(h, l);
    if h != 0 then
      if h > 0xFFFF_FFFF then [h / Two32, h % Two32, l / Two32, l % Two32]
      else [h, l / Two32, l % Two32]
    else if l > 0xFFFF_FFFF then [l / Two32, l % Two32]
    else if l == 0 then []
    else [l]
  }

  lemma LimbsOfHalves(h: u64, l: u64)
    ensures 0 <= h / Two32 < Two32 && 0 <= l / Two32 < Two32
    ensures LimbValue([h / Two32, h % Two32, l / Two32, l % Two32]) == Join(h, l)
    ensures h < Two32 ==> LimbValue([h, l / Two32, l % Two32]) == Join(h, l)
    ensures LimbValue([l / Two32, l % Two32]) == l && (l < Two32 ==> LimbValue([l]) == l)
    ensures l / Two32 == 0 <==> l < Two32
  {
    DivBelow(h, Two32, Two32);
    DivBelow(l, Two32, Two32);
    DivLe(h, Two32);
    DivLe(l, Two32);
    LimbValueSmall([h / Two32, h % Two32, l / Two32, l % Two32]);
    LimbValueSmall([l / Two32, l % Two32]);
    if h < Two32 {
      LimbValueSmall([h, l / Two32, l % Two32]);
    }
    if l < Two32 {
      LimbValueSmall([l]);
      DivModUnique(l, Two32, 0, l);
    } else {
      NatDivMod(l, Two32);
    }
  }

  /** The as-written bound keeps a leading zero limb for the magnitude `UINT32_MAX`. */
  lemma FillInArrayLeadingZero()
    ensures MagnitudeLimbsAsWritten(0, 0xFFFF_FFFF) == [0, 0xFFFF_FFFF]
    ensures MagnitudeLimbs(0, 0xFFFF_FFFF) == [0xFFFF_FFFF]
  {
    DivModUnique(0xFFFF_FFFF, Two32, 0, 0xFFFF_FFFF);
  }

  /** The two bounds disagree only at the magnitude `UINT32_MAX`. */
  lemma FillInArrayDiffers(high: i64, low: u64)
    ensures MagnitudeLimbsAsWritten(high, low) != MagnitudeLimbs(high, low) <==> Magnitude(Join(high, low)) == 0xFFFF_FFFF
  {
    var (h, l) := AbsHalves(high, low);
    JoinInjective(h, l, 0, 0xFFFF_FFFF);
    if h == 0 && l == 0xFFFF_FFFF {
      DivModUnique(0xFFFF_FFFF, Two32, 0, 0xFFFF_FFFF);
      assert |MagnitudeLimbsAsWritten(high, low)| == 2;
    }
  }

  lemma Signed64Small(x: int)
    requires 0 <= x < Two64 / 2
    ensures Signed64(x) == x
  {
    DivModUnique(x, Two64, 0, x);
  }

  /** `t << 32` on a `uint64_t` that already wrapped is the wrapped shift of the full sum. */
  lemma ShiftWrap(x: int)
    ensures ((x % Two64) * Two32) % Two64 == (x * Two32) % Two64
  {
    assert x * Two32 == (x % Two64) * Two32 + ((x / Two64) * Two32) * Two64;
    ModAddMultiple((x % Two64) * Two32, (x / Two64) * Two32, Two64);
  }

  /** The split of a `uint64_t` into its two 32-bit limbs. */
  lemma LimbsOfWord(x: u64)
    ensures 0 <= x / Two32 < Two32 && x == (x / Two32) * Two32 + x % Two32
  {
    DivBelow(x, Two32, Two32);
    DivLe(x, Two32);
  }

  // ---------------------------------------------------------------------------
  // The class

  /** `int128`: the signed high half and the unsigned low half of a two's complement value. */
  class Int128 {
    var high: i64
    var low: u64

    function Value(): int
      reads this
    {
      Join(high, low)
    }

    /** The default constructor: zero. */
    constructor()
      ensures high == 0 && low == 0 && Value() == 0
    {
      high := 0;
      low := 0;
    }

    /** From an `int64_t`: its bit pattern below, its sign extended above. */
    constructor FromI64(v: i64)
      ensures Value() == v
    {
      if v >= 0 {
        high := 0;
        low := v;
      } else {
        high := -1;
        DivModUnique(v, Two64, -1, v + Two64);
        low := v % Two64;
      }
    }

    constructor Halves(high: i64, low: u64)
      ensures this.high == high && this.low == low && Value() == Join(high, low)
    {
      this.high := high;
      this.low := low;
    }

    /** `negate`: complement both halves, add one to the low half and carry into the high half. */
    method Negate()
      modifies this
      ensures Value() == Wrap128(-old(Value()))
    {
      ghost var h, l := high, low;
      low := (Two64 - 1 - low + 1) % Two64;
      high := -(high as int) - 1;
      if low == 0 {
        high := Signed64(high + 1);
      }
      NegateWords(h, l, low, high);
    }

    /**
     * `operator*=`: the product modulo 2^128 from the 32-bit limbs of both
     * operands, read as unsigned; the terms at 2^128 and above are dropped.
     */
    method MulAssign(rhs: Int128)
      modifies this
      ensures Value() == Wrap128(old(Value()) * old(rhs.Value()))
    {
      ValueOf(this);
      ValueOf(rhs);
      var ah, al, bh, bl := high, low, rhs.high, rhs.low;
      hide *;
      Constants();
      var hi, lo := MulHalves(ah, al, bh, bl);
      high, low := hi, lo;
      ValueOf(this);
    }

    /**
     * `fillInArray`: the magnitude's limbs at `a[start..]`, most significant
     * first and without a leading zero limb, their count, and the sign.
     */
    method FillInArray(a: array<u32>, start: int) returns (length: int, wasNegative: bool)
      requires 0 <= start && start + 4 <= a.Length
      modifies a
      ensures 0 <= length <= 4 && a[start..start + length] == MagnitudeLimbs(high, low)
      ensures LimbValue(a[start..start + length]) == Magnitude(Value())
      ensures length > 0 ==> a[start] != 0
      ensures a[..start] == old(a[..start]) && a[start + length..] == old(a[start + length..])
      ensures wasNegative <==> Value() < 0
    {
      wasNegative := high < 0;
      NegativeHigh(high, low);
      var limbs := MagnitudeLimbs(high, low);
      StoreLimbs(a, start, limbs);
      length := |limbs|;
    }

    /**
     * `divide`: the quotient truncated toward zero (wrapped, which only the
     * minimum divided by -1 needs) and, in `remainder`, the remainder with
     * the dividend's sign. A dividend with fewer limbs than the divisor is
     * its own remainder; a one-limb divisor takes the short division, any
     * other the long one.
     */
    method Divide(divisor: Int128, remainder: Int128) returns (result: Int128)
      requires divisor.Value() != 0
      modifies remainder
      ensures fresh(result)
      ensures result.Value() == Wrap128(TruncDiv(old(Value()), old(divisor.Value())))
      ensures remainder.Value() == TruncRem(old(Value()), old(divisor.Value()))
    {
      hide *;
      ValueOf(this);
      ValueOf(divisor);
      ghost var a, b := Value(), divisor.Value();
      SignedRange(high, low);
      SignedRange(divisor.high, divisor.low);
      var dividendArray := new u32[5];
      var divisorArray := new u32[4];
      dividendArray[0] := 0;
      var dividendLength, dividendWasNegative := FillInArray(dividendArray, 1);
      assert dividendArray[0] == dividendArray[..1][0];
      ghost var limbs := dividendArray[1..1 + dividendLength];
      dividendLength := dividendLength + 1;
      var divisorLength, divisorWasNegative := divisor.FillInArray(divisorArray, 0);
      ghost var n, d := LimbValue(dividendArray[..dividendLength]), LimbValue(divisorArray[..divisorLength]);
      assert dividendArray[..dividendLength] == [0] + limbs;
      LeadingZero(dividendArray[..dividendLength]);
      assert dividendArray[..dividendLength][1..] == limbs;
      SignedQuotient(a, b, n, d, dividendWasNegative, divisorWasNegative);
      NonzeroLimbs(divisorArray[..divisorLength]);
      result := DivideMagnitudes(dividendArray, dividendLength, divisorArray, divisorLength, remainder,
        high, low, dividendWasNegative, divisorWasNegative);
    }

    /** `operator*`: a copy of this value multiplied in place. */
    method Mul(rhs: Int128) returns (out: Int128)
      ensures fresh(out) && out.Value() == Wrap128(Value() * rhs.Value())
    {
      out := new Int128.Halves(high, low);
      out.MulAssign(rhs);
    }

    /**
     * `operator/` as written: it runs `divide` into a scratch remainder and
     * then returns its right operand, not the quotient.
     */
    method DivOperatorAsWritten(rhs: Int128) returns (out: Int128)
      requires rhs.Value() != 0
      ensures fresh(out) && out.Value() == rhs.Value()
    {
      var remainder := new Int128();
      var quotient := Divide(rhs, remainder);
      out := new Int128.Halves(rhs.high, rhs.low);
    }

    /** `operator/` as intended: the quotient `divide` computes. */
    method DivOperator(rhs: Int128) returns (out: Int128)
      requires rhs.Value() != 0
      ensures fresh(out) && out.Value() == Wrap128(TruncDiv(Value(), rhs.Value()))
    {
      var remainder := new Int128();
      out := Divide(rhs, remainder);
    }

    /**
     * `operator%`: for a non-negative dividend and a positive divisor, the
     * unsigned remainder; it agrees with the remainder `divide` computes.
     */
    method ModOperator(rhs: Int128) returns (out: Int128)
      requires Value() >= 0 && rhs.Value() > 0
      ensures fresh(out) && out.Value() == Value() % rhs.Value()
      ensures out.Value() == TruncRem(Value(), rhs.Value())
    {
      var r := Value() % rhs.Value();
      SignedRange(high, low);
      SignedRange(rhs.high, rhs.low);
      RemainderHalves(r, Value(), rhs.Value());
      out := new Int128.Halves(r / Two64, r % Two64);
    }
  }

  /**
   * The three cases of `divide` on the magnitudes' limbs, the dividend's
   * behind a zero limb; `high` and `low` are the dividend's halves.
   */
  method DivideMagnitudes(dividendArray: array<u32>, dividendLength: int, divisorArray: array<u32>, divisorLength: int,
                          remainder: Int128, high: i64, low: u64, dividendWasNegative: bool, divisorWasNegative: bool)
    returns (result: Int128)
    requires dividendArray != divisorArray
    requires 1 <= dividendLength <= 5 && dividendLength <= dividendArray.Length && dividendArray[0] == 0
    requires 1 <= divisorLength <= 4 && divisorLength <= divisorArray.Length && divisorArray[0] != 0
    requires LimbValue(dividendArray[..dividendLength]) == Magnitude(Join(high, low))
    requires dividendWasNegative <==> Join(high, low) < 0
    modifies dividendArray, divisorArray, remainder
    ensures fresh(result)
    ensures var n, d := LimbValue(old(dividendArray[..dividendLength])), LimbValue(old(divisorArray[..divisorLength]));
      d > 0 && result.Value() == Wrap128(if dividendWasNegative != divisorWasNegative then -(n / d) else n / d)
    ensures var n, d := LimbValue(old(dividendArray[..dividendLength])), LimbValue(old(divisorArray[..divisorLength]));
      d > 0 && remainder.Value() == Wrap128(if dividendWasNegative then -(n % d) else n % d)
  {
    ghost var n, d := LimbValue(dividendArray[..dividendLength]), LimbValue(divisorArray[..divisorLength]);
    LimbValueLower(divisorArray[..divisorLength]);
    if dividendLength <= divisorLength {
      assert n < d by {
        LeadingZero(dividendArray[..dividendLength]);
        ShortDividend(dividendArray[..dividendLength][1..], divisorArray[..divisorLength]);
      }
      SmallDividend(high, low, n, d, dividendWasNegative, divisorWasNegative);
      remainder.high, remainder.low := high, low;
      result := new Int128();
    } else if divisorLength == 1 {
      assert d == divisorArray[0] by {
        LimbValueSmall(divisorArray[..1]);
      }
      result := SingleDivide(dividendArray, dividendLength, divisorArray[0], remainder,
        dividendWasNegative, divisorWasNegative);
      WrapInRange(remainder.Value());
    } else {
      result := LongDivide(dividendArray, dividendLength, divisorArray, divisorLength, remainder,
        dividendWasNegative, divisorWasNegative);
    }
  }

  /**
   * `maximumValue` as written: its low half has fifteen hexadecimal digits,
   * so it falls 0xF000_0000_0000_0000 short of the largest int128.
   */
  method MaximumValueAsWritten() returns (r: Int128)
    ensures fresh(r) && InRange(r.Value()) && r.Value() == Half128 - 1 - 0xF000_0000_0000_0000
    ensures InRange(r.Value() + 1)
  {
    r := new Int128.Halves(0x7fff_ffff_ffff_ffff, 0x0fff_ffff_ffff_ffff);
  }

  /** `maximumValue` as intended: no int128 is larger. */
  method MaximumValue() returns (r: Int128)
    ensures fresh(r) && InRange(r.Value()) && !InRange(r.Value() + 1)
  {
    r := new Int128.Halves(0x7fff_ffff_ffff_ffff, 0xffff_ffff_ffff_ffff);
  }

  /** `minimumValue`: no int128 is smaller. */
  method MinimumValue() returns (r: Int128)
    ensures fresh(r) && InRange(r.Value()) && !InRange(r.Value() - 1)
  {
    r := new Int128.Halves(-0x8000_0000_0000_0000, 0);
  }

  /** A remainder below an int128 divisor splits into its halves. */
  lemma RemainderHalves(r: int, a: int, b: int)
    requires 0 <= a && 0 < b && InRange(b) && r == a % b
    ensures 0 <= r / Two64 < Two64 / 2 && Join(r / Two64, r % Two64) == r
    ensures r == TruncRem(a, b)
  {
    DivBelow(r, Two64 / 2, Two64);
    DivModUnique(r, Two64, r / Two64, r % Two64);
  }

  /** `operator/` as written differs from the quotient: 7 / 2 yields 2. */
  lemma DivOperatorDiffers()
    ensures exists a: int, b: int :: b != 0 && InRange(a) && InRange(b) && b != Wrap128(TruncDiv(a, b))
  {
    assert Wrap128(TruncDiv(7, 2)) == 3 by {
      DivModUnique(7, 2, 3, 1);
      WrapInRange(3);
    }
    assert 2 != Wrap128(TruncDiv(7, 2));
  }

  /** The signed quotient and remainder from those of the magnitudes; the remainder needs no wrapping. */
  lemma SignedQuotient(a: int, b: int, n: int, d: int, dividendWasNegative: bool, divisorWasNegative: bool)
    requires InRange(a) && InRange(b) && b != 0
    requires n == Magnitude(a) && d == Magnitude(b)
    requires (dividendWasNegative <==> a < 0) && (divisorWasNegative <==> b < 0)
    ensures d > 0
    ensures TruncDiv(a, b) == if dividendWasNegative != divisorWasNegative then -(n / d) else n / d
    ensures TruncRem(a, b) == if dividendWasNegative then -(n % d) else n % d
    ensures Wrap128(TruncRem(a, b)) == TruncRem(a, b)
  {
    TruncDivMod(a, b);
    WrapInRange(TruncRem(a, b));
  }

  /** A dividend below the divisor: quotient zero, the dividend its own remainder. */
  lemma SmallDividend(high: i64, low: u64, n: int, d: int, dividendWasNegative: bool, divisorWasNegative: bool)
    requires n == Magnitude(Join(high, low)) && n < d && (dividendWasNegative <==> Join(high, low) < 0)
    ensures Wrap128(if dividendWasNegative != divisorWasNegative then -(n / d) else n / d) == 0
    ensures Join(high, low) == Wrap128(if dividendWasNegative then -(n % d) else n % d)
  {
    DivModUnique(n, d, 0, n);
    SignedRange(high, low);
    WrapInRange(Join(high, low));
    WrapInRange(0);
  }

  lemma NonzeroLimbs(s: seq<u32>)
    requires LimbValue(s) != 0
    ensures |s| > 0
  {
  }

  /** A dividend with fewer limbs than the divisor is below it. */
  lemma ShortDividend(s: seq<u32>, t: seq<u32>)
    requires |s| < |t| && t[0] != 0
    ensures LimbValue(s) < LimbValue(t)
  {
    LimbValueBound(s);
    LimbValueLower(t);
    Pow2Monotonic(32 * |s|, 32 * (|t| - 1));
  }

  /** Writes `s` at `a[start..]`, one limb at a time. */
  method StoreLimbs(a: array<u32>, start: int, s: seq<u32>)
    requires 0 <= start && start + |s| <= a.Length
    modifies a
    ensures a[..start] == old(a[..start]) && a[start..start + |s|] == s
    ensures a[start + |s|..] == old(a[start + |s|..])
  {
    for i := 0 to |s|
      invariant a[..start] == old(a[..start]) && a[start..start + i] == s[..i]
      invariant a[start + i..] == old(a[start + i..])
    {
      a[start + i] := s[i];
    }
  }

  method MulHalves(ah: i64, al: u64, bh: i64, bl: u64) returns (high: i64, low: u64)
    ensures Join(high, low) == Wrap128(Join(ah, al) * Join(bh, bl))
  {
    hide *;
    Constants();
    var uh: u64 := ah % Two64;
    var ruh: u64 := bh % Two64;
    LimbsOfWord(uh);
    LimbsOfWord(ruh);
    LimbsOfWord(al);
    LimbsOfWord(bl);
    var l0: u32, l1: u32, l2: u32, l3: u32 := uh / Two32, uh % Two32, al / Two32, al % Two32;
    var r0: u32, r1: u32, r2: u32, r3: u32 := ruh / Two32, ruh % Two32, bl / Two32, bl % Two32;
    high, low := MulLowWords(l2, l3, r2, r3);
    ghost var h3 := high;
    var t2: u64 := (l1 * r3 + l2 * r2 + l3 * r1) % Two64;
    high := Signed64(high + t2);
    ghost var e1 := high;
    var t3: u64 := (l0 * r3 + l1 * r2 + l2 * r1 + l3 * r0) % Two64;
    high := Signed64(high + (t3 * Two32) % Two64);
    MulAssignValue(ah, al, bh, bl, l0, l1, l2, l3, r0, r1, r2, r3, h3, low, e1, t2, t3, high);
  }

  /**
   * The first half of `operator*=`: the low word and the carry into the high
   * word from the products of the low limbs, summed with explicit carries.
   */
  method MulLowWords(l2: u32, l3: u32, r2: u32, r3: u32) returns (high: i64, low: u64)
    ensures high * Two64 + low == l3 * r3 + (l2 * r3 + l3 * r2) * Two32
  {
    hide *;
    Constants();
    LimbProduct(l3, r3);
    LimbProduct(l2, r3);
    LimbProduct(l3, r2);
    var product: u64 := l3 * r3;
    low := product % Two32;
    var sum: u64 := product / Two32;
    product := l2 * r3;
    sum := (sum + product) % Two64;
    high := if sum < product then Two32 else 0;
    ghost var s1, h1 := sum, high;
    product := l3 * r2;
    sum := (sum + product) % Two64;
    if sum < product {
      high := Signed64(high + Two32);
    }
    low := (low + (sum * Two32) % Two64) % Two64;
    MulLowPart(l3 * r3, l2 * r3, l3 * r2, s1, sum, h1, high, low);
    Signed64Small(high + sum / Two32);
    high := Signed64(high + sum / Two32);
  }

  lemma ValueOf(x: Int128)
    ensures x.Value() == Join(x.high, x.low)
  {
  }

  lemma Constants()
    ensures Two32 == 0x1_0000_0000 && Two64 == 0x1_0000_0000_0000_0000
  {
  }

  /** The halves `*=` leaves hold the product of the operands modulo 2^128. */
  lemma MulAssignValue(ah: i64, al: u64, bh: i64, bl: u64, l0: int, l1: int, l2: int, l3: int,
                       r0: int, r1: int, r2: int, r3: int, h3: int, lowF: u64, e1: int, t2: int, t3: int, hF: i64)
    requires l0 == (ah % Two64) / Two32 && l1 == (ah % Two64) % Two32 && l2 == al / Two32 && l3 == al % Two32
    requires r0 == (bh % Two64) / Two32 && r1 == (bh % Two64) % Two32 && r2 == bl / Two32 && r3 == bl % Two32
    requires h3 * Two64 + lowF == l3 * r3 + (l2 * r3 + l3 * r2) * Two32
    requires t2 == (l1 * r3 + l2 * r2 + l3 * r1) % Two64 && e1 == Signed64(h3 + t2)
    requires t3 == (l0 * r3 + l1 * r2 + l2 * r1 + l3 * r0) % Two64 && hF == Signed64(e1 + (t3 * Two32) % Two64)
    ensures Join(hF, lowF) == Wrap128(Join(ah, al) * Join(bh, bl))
  {
    var uh, ruh := ah % Two64, bh % Two64;
    ShiftWrap(l0 * r3 + l1 * r2 + l2 * r1 + l3 * r0);
    IntProductWords(uh, al, ruh, bl, l0, l1, l2, l3, r0, r1, r2, r3, h3, lowF, hF);
    UnsignedReading(ah, al);
    UnsignedReading(bh, bl);
    ProductCongruent(Join(ah, al), Join(bh, bl), Join(uh, al), Join(ruh, bl));
    ModCombine(Join(hF, lowF), Join(uh, al) * Join(ruh, bl), Join(ah, al) * Join(bh, bl));
    SignedRange(hF, lowF);
    WrapUnique(Join(hF, lowF), Join(ah, al) * Join(bh, bl));
  }

  // ---------------------------------------------------------------------------
  // Building a value from limbs, signs, and the division by one limb

  /** An int128 is its own wrap. */
  lemma WrapInRange(v: int)
    requires InRange(v)
    ensures Wrap128(v) == v
  {
    WrapUnique(v, v);
  }

  /** Halves whose high part is read as `int64_t` hold the wrap of the unsigned value. */
  lemma HalvesWrap(x: int, y: int)
    requires 0 <= x < Two64 && 0 <= y < Two64
    ensures Join(Signed64(x), y) == Wrap128(x * Two64 + y)
  {
    var h := Signed64(x);
    Signed64Shift(x);
    var k := (h - x) / Two64;
    assert Join(h, y) == x * Two64 + y + k * Two128;
    ModAddMultiple(0, k, Two128);
    SignedRange(h, y);
    WrapUnique(Join(h, y), x * Two64 + y);
  }

  /** `(uint64_t(x) << 32) + y` for two limbs. */
  lemma WordOfLimbs(x: u32, y: u32)
    ensures 0 <= x * Two32 + y < Two64
  {
    MulLe(x, Two32 - 1, Two32);
  }

  /** The limbs `buildFromArray` joins into the two halves of each length. */
  lemma HalvesOfLimbs(s: seq<u32>)
    requires |s| <= 5 && (|s| == 5 ==> s[0] == 0)
    ensures |s| == 2 ==> LimbValue(s) == s[0] * Two32 + s[1]
    ensures |s| == 3 ==> LimbValue(s) == s[0] * Two64 + (s[1] * Two32 + s[2])
    ensures |s| == 4 ==> LimbValue(s) == (s[0] * Two32 + s[1]) * Two64 + (s[2] * Two32 + s[3])
    ensures |s| == 5 ==> LimbValue(s) == (s[1] * Two32 + s[2]) * Two64 + (s[3] * Two32 + s[4])
  {
    if |s| == 5 {
      LimbValueFront(s);
      LimbValueSmall(s[1..]);
    } else {
      LimbValueSmall(s);
    }
  }

  /**
   * `buildFromArray`: the int128 whose limbs, most significant first, are
   * `a[..length]`; five limbs need a leading zero.
   */
  method BuildFromArray(value: Int128, a: array<u32>, length: int)
    requires 0 <= length <= 5 && length <= a.Length
    requires length == 5 ==> a[0] == 0
    modifies value
    ensures value.Value() == Wrap128(LimbValue(a[..length]))
  {
    ghost var s := a[..length];
    HalvesOfLimbs(s);
    var x: int, y: int;
    if length == 0 {
      x, y := 0, 0;
      value.high, value.low := 0, 0;
    } else if length == 1 {
      LimbValueSmall(s);
      x, y := 0, a[0];
      value.high, value.low := 0, a[0];
    } else if length == 2 {
      WordOfLimbs(a[0], a[1]);
      x, y := 0, a[0] * Two32 + a[1];
      value.high, value.low := 0, a[0] * Two32 + a[1];
    } else if length == 3 {
      WordOfLimbs(a[1], a[2]);
      x, y := a[0], a[1] * Two32 + a[2];
      value.high, value.low := a[0], a[1] * Two32 + a[2];
      Signed64Small(a[0]);
    } else if length == 4 {
      WordOfLimbs(a[0], a[1]);
      WordOfLimbs(a[2], a[3]);
      x, y := a[0] * Two32 + a[1], a[2] * Two32 + a[3];
      value.high, value.low := Signed64(a[0] * Two32 + a[1]), a[2] * Two32 + a[3];
    } else {
      WordOfLimbs(a[1], a[2]);
      WordOfLimbs(a[3], a[4]);
      x, y := a[1] * Two32 + a[2], a[3] * Two32 + a[4];
      value.high, value.low := Signed64(a[1] * Two32 + a[2]), a[3] * Two32 + a[4];
    }
    assert length <= 3 ==> Signed64(x) == x by {
      if length <= 3 {
        WordOfLimbs(0, 0);
        if length == 3 {
          Signed64Small(a[0]);
        } else {
          Signed64Small(0);
        }
      }
    }
    BuiltValue(s, x, y, value.high, value.low);
  }

  lemma BuiltValue(s: seq<u32>, x: int, y: int, h: i64, l: u64)
    requires 0 <= x < Two64 && 0 <= y < Two64 && LimbValue(s) == x * Two64 + y
    requires h == Signed64(x) && l == y
    ensures Join(h, l) == Wrap128(LimbValue(s))
  {
    HalvesWrap(x, y);
  }

  /**
   * `fixDivisionSigns`: the quotient is negated when the signs differ, the
   * remainder when the dividend was negative.
   */
  method FixDivisionSigns(result: Int128, remainder: Int128, dividendWasNegative: bool, divisorWasNegative: bool)
    requires result != remainder
    modifies result, remainder
    ensures result.Value() ==
      if dividendWasNegative != divisorWasNegative then Wrap128(-old(result.Value())) else old(result.Value())
    ensures remainder.Value() == if dividendWasNegative then Wrap128(-old(remainder.Value())) else old(remainder.Value())
  {
    if dividendWasNegative != divisorWasNegative {
      result.Negate();
    }
    if dividendWasNegative {
      remainder.Negate();
    }
  }

  /** One step of the schoolbook division by one limb: `r` stays below the divisor. */
  lemma DigitStep(v: int, q: int, dv: int, r: int, d: int)
    requires 0 <= r < dv < Two32 && 0 <= d < Two32 && v == q * dv + r
    ensures 0 <= r * Two32 + d < Two64
    ensures 0 <= (r * Two32 + d) / dv < Two32 && 0 <= (r * Two32 + d) % dv < dv
    ensures v * Two32 + d == (q * Two32 + (r * Two32 + d) / dv) * dv + (r * Two32 + d) % dv
  {
    var x := r * Two32 + d;
    MulStep(r, dv, Two32);
    assert x < dv * Two32;
    MulLe(dv, Two32, Two32);
    NatDivMod(x, dv);
    DivBelow(x, Two32, dv);
    assert v * Two32 + d == (q * Two32) * dv + x;
  }

  /**
   * `singleDivide`: the limbs divided by a one-limb divisor from the most
   * significant limb down, then the signs fixed.
   */
  method SingleDivide(dividend: array<u32>, dividendLength: int, divisor: u32, remainder: Int128,
                      dividendWasNegative: bool, divisorWasNegative: bool) returns (result: Int128)
    requires 0 <= dividendLength <= 5 && dividendLength <= dividend.Length && divisor != 0
    requires dividendLength == 5 ==> dividend[0] == 0
    modifies remainder
    ensures fresh(result)
    ensures var n := LimbValue(dividend[..dividendLength]);
      result.Value() == Wrap128(if dividendWasNegative != divisorWasNegative then -(n / divisor) else n / divisor)
    ensures var n := LimbValue(dividend[..dividendLength]);
      remainder.Value() == if dividendWasNegative then -(n % divisor) else n % divisor
  {
    var resultArray := new u32[5];
    var r := DivideLimbs(dividend, dividendLength, divisor, resultArray);
    ghost var n := LimbValue(dividend[..dividendLength]);
    DivModUnique(n, divisor, LimbValue(resultArray[..dividendLength]), r);
    ghost var q := n / divisor;
    result := new Int128();
    BuildFromArray(result, resultArray, dividendLength);
    assert result.Value() == Wrap128(q);
    remainder.high, remainder.low := 0, r;
    RemainderSign(r);
    assert remainder.Value() == r;
    FixDivisionSigns(result, remainder, dividendWasNegative, divisorWasNegative);
    WrapNegate(q);
  }

  /** The loop of `singleDivide`: the quotient's limbs in `resultArray` and the remainder. */
  method DivideLimbs(dividend: array<u32>, dividendLength: int, divisor: u32, resultArray: array<u32>) returns (r: u64)
    requires 0 <= dividendLength <= dividend.Length && dividendLength <= resultArray.Length
    requires dividend != resultArray && divisor != 0
    modifies resultArray
    ensures r < divisor && LimbValue(dividend[..dividendLength]) == LimbValue(resultArray[..dividendLength]) * divisor + r
    ensures dividendLength > 0 && dividend[0] == 0 ==> resultArray[0] == 0
  {
    r := 0;
    for j := 0 to dividendLength
      invariant r < divisor
      invariant LimbValue(dividend[..j]) == LimbValue(resultArray[..j]) * divisor + r
      invariant j > 0 && dividend[0] == 0 ==> resultArray[0] == 0
    {
      r := DivideLimb(dividend, j, divisor, resultArray, r);
    }
  }

  /** One round of `singleDivide`'s loop: the next limb brought down and divided. */
  method DivideLimb(dividend: array<u32>, j: int, divisor: u32, resultArray: array<u32>, r: u64) returns (next: u64)
    requires 0 <= j < dividend.Length && j < resultArray.Length && dividend != resultArray
    requires r < divisor && LimbValue(dividend[..j]) == LimbValue(resultArray[..j]) * divisor + r
    modifies resultArray
    ensures next < divisor && LimbValue(dividend[..j + 1]) == LimbValue(resultArray[..j + 1]) * divisor + next
    ensures resultArray[..j] == old(resultArray[..j]) && resultArray[j] == (r * Two32 + dividend[j]) / divisor
  {
    ghost var v, q := LimbValue(dividend[..j]), LimbValue(resultArray[..j]);
    DigitStep(v, q, divisor, r, dividend[j]);
    next := r * Two32;
    next := next + dividend[j];
    resultArray[j] := next / divisor;
    next := next % divisor;
    Unfold(dividend[..j + 1]);
    Unfold(resultArray[..j + 1]);
    assert dividend[..j + 1][..j] == dividend[..j] && resultArray[..j + 1][..j] == resultArray[..j];
  }

  /** A remainder below 2^64 keeps its value when negated as an int128. */
  lemma RemainderSign(r: int)
    requires 0 <= r < Two64
    ensures Wrap128(-r) == -r && Join(0, r) == r
  {
    WrapInRange(-r);
  }

  // ---------------------------------------------------------------------------
  // The long division of `divide`

  /** A dividend split around the window `s[j..j + m + 1]`. */
  lemma WindowSplit(s: seq<u32>, j: int, m: int)
    requires 0 <= j && 0 <= m && j + m + 1 <= |s|
    ensures LimbValue(s) == (LimbValue(s[..j]) * Radix(m + 1) + LimbValue(s[j..j + m + 1])) * Radix(|s| - j - m - 1)
      + LimbValue(s[j + m + 1..])
  {
    hide *;
    var x, w, t := s[..j] + s[j..j + m + 1], s[j..j + m + 1], s[j + m + 1..];
    assert s == x + t;
    assert |t| == |s| - j - m - 1 && |w| == m + 1;
    LimbValueConcat(x, t);
    LimbValueConcat(s[..j], w);
  }

  /**
   * A partial remainder below `d * 2^32 * r` leaves nothing above its window,
   * and the window divided by `d` is one limb.
   */
  lemma WindowBound(a: int, p: int, w: int, t: int, d: int, r: int, rm: int)
    requires p >= 0 && w >= 0 && 0 <= t < r && 0 < d < rm
    requires a == (p * (rm * Two32) + w) * r + t && a < d * (r * Two32)
    ensures p == 0 && w < d * Two32
  {
    MulLe(0, p * (rm * Two32), r);
    assert a >= w * r;
    if w >= d * Two32 {
      MulLe(d * Two32, w, r);
    }
    if p >= 1 {
      MulLe(1, p, rm * Two32);
      MulLe(rm * Two32, p * (rm * Two32) + w, r);
      MulStep(d, rm, Two32);
      MulLe(d * Two32, rm * Two32, r);
    }
  }

  /** The digit of a window below `d * 2^32` and what the window keeps. */
  lemma WindowDigit(w: int, d: int, rm: int)
    requires 0 <= w < d * Two32 && 0 < d < rm
    ensures 0 <= w / d < Two32 && 0 <= w - (w / d) * d < d
  {
    NatDivMod(w, d);
    DivBelow(w, Two32, d);
  }

  /** The dividend after one digit: the window's multiple of `d` is gone. */
  lemma DigitRemainder(w: int, t: int, d: int, r: int, g: int, w2: int)
    requires 0 <= t < r && 0 <= w2 < d && w2 == w - g * d
    ensures w * r + t == g * d * r + (w2 * r + t) && w2 * r + t < d * r
  {
    MulStep(w2, d, r);
  }

  /** The window's digit is one limb, and what it leaves fits the window. */
  lemma WindowFacts(s: seq<u32>, j: int, m: int, d: int)
    requires 1 <= m && 0 <= j && j + m + 1 <= |s|
    requires 0 < d < Radix(m) && LimbValue(s) < d * Radix(|s| - m - j)
    ensures var w := LimbValue(s[j..j + m + 1]);
      0 <= w / d < Two32 && 0 <= w - (w / d) * d < d && d < Radix(m + 1)
  {
    hide *;
    var t := |s| - m - j - 1;
    var w := LimbValue(s[j..j + m + 1]);
    WindowSplit(s, j, m);
    LimbValueBound(s[j + m + 1..]);
    RadixStep(t);
    RadixStep(m);
    WindowBound(LimbValue(s), LimbValue(s[..j]), w, LimbValue(s[j + m + 1..]), d, Radix(t), Radix(m));
    WindowDigit(w, d, Radix(m));
    RadixIncreasing(m);
  }

  /** Replacing the window by its remainder takes `g * d` units of `Radix(t)` off the dividend. */
  lemma WindowOutcome(s: seq<u32>, s2: seq<u32>, j: int, m: int, d: int, g: int)
    requires 1 <= m && 0 <= j && j + m + 1 <= |s| == |s2|
    requires 0 < d < Radix(m) && LimbValue(s) < d * Radix(|s| - m - j)
    requires g == LimbValue(s[j..j + m + 1]) / d
    requires s2[..j] == s[..j] && s2[j + m + 1..] == s[j + m + 1..]
    requires LimbValue(s2[j..j + m + 1]) == LimbValue(s[j..j + m + 1]) - g * d
    ensures var r := Radix(|s| - m - j - 1);
      LimbValue(s) == g * d * r + LimbValue(s2) && LimbValue(s2) < d * r
  {
    hide *;
    var t := |s| - m - j - 1;
    var w := LimbValue(s[j..j + m + 1]);
    WindowSplit(s, j, m);
    WindowSplit(s2, j, m);
    LimbValueBound(s[j + m + 1..]);
    RadixStep(t);
    RadixStep(m);
    WindowBound(LimbValue(s), LimbValue(s[..j]), w, LimbValue(s[j + m + 1..]), d, Radix(t), Radix(m));
    WindowDigit(w, d, Radix(m));
    DigitRemainder(w, LimbValue(s[j + m + 1..]), d, Radix(t), g, w - g * d);
  }

  /**
   * One digit of the long division: the window `dividend[j..j + m + 1]`
   * divided by the divisor, the window left holding the remainder.
   */
  method DivideDigit(dividend: array<u32>, length: int, j: int, divisor: array<u32>, m: int) returns (guess: u32)
    requires dividend != divisor && 1 <= m <= divisor.Length && 0 <= j && j + m + 1 <= length <= dividend.Length
    requires 0 < LimbValue(divisor[..m])
    requires LimbValue(dividend[..length]) < LimbValue(divisor[..m]) * Radix(length - m - j)
    modifies dividend
    ensures var d, r := LimbValue(divisor[..m]), Radix(length - m - j - 1);
      LimbValue(old(dividend[..length])) == guess * d * r + LimbValue(dividend[..length]) &&
      LimbValue(dividend[..length]) < d * r
  {
    ghost var s := dividend[..length];
    var d := LimbValue(divisor[..m]);
    var w := LimbValue(dividend[j..j + m + 1]);
    assert s[j..j + m + 1] == dividend[j..j + m + 1];
    LimbValueBound(divisor[..m]);
    WindowFacts(s, j, m, d);
    guess := w / d;
    var rest := ToLimbs(w - guess * d, m + 1);
    StoreLimbs(dividend, j, rest);
    ghost var s2 := dividend[..length];
    assert s2[..j] == s[..j] by {
      assert s2[..j] == dividend[..j] && s[..j] == old(dividend[..j]);
    }
    assert s2[j..j + m + 1] == rest by {
      assert s2[j..j + m + 1] == dividend[j..j + |rest|];
    }
    assert s2[j + m + 1..] == s[j + m + 1..] by {
      assert s2[j + m + 1..] == dividend[j + |rest|..length] && s[j + m + 1..] == old(dividend[j + |rest|..length]);
      assert dividend[j + |rest|..length] == dividend[j + |rest|..][..length - j - |rest|];
      assert old(dividend[j + |rest|..length]) == old(dividend[j + |rest|..])[..length - j - |rest|];
    }
    WindowOutcome(s, s2, j, m, d, guess);
  }

  lemma DigitsStep(n: int, q: int, d: int, r1: int, a: int, g: int, a2: int)
    requires n == q * d * (r1 * Two32) + a && a == g * d * r1 + a2
    ensures n == (q * Two32 + g) * d * r1 + a2
  {
  }

  /**
   * The digit loop of `divide`: one quotient limb per window, from the most
   * significant down, until the dividend holds the remainder.
   */
  method DivideDigits(dividend: array<u32>, length: int, divisor: array<u32>, m: int, quotient: array<u32>)
    requires dividend != divisor && dividend != quotient && divisor != quotient
    requires 1 <= m < length <= dividend.Length && m <= divisor.Length && length - m <= quotient.Length
    requires 0 < LimbValue(divisor[..m])
    requires LimbValue(dividend[..length]) < LimbValue(divisor[..m]) * Radix(length - m)
    modifies dividend, quotient
    ensures var d := LimbValue(divisor[..m]);
      LimbValue(old(dividend[..length])) == LimbValue(quotient[..length - m]) * d + LimbValue(dividend[..length]) &&
      LimbValue(dividend[..length]) < d
  {
    ghost var n := LimbValue(dividend[..length]);
    ghost var d := LimbValue(divisor[..m]);
    var resultLength := length - m;
    assert Radix(0) == 1;
    for j := 0 to resultLength
      invariant n == LimbValue(quotient[..j]) * d * Radix(resultLength - j) + LimbValue(dividend[..length])
      invariant LimbValue(dividend[..length]) < d * Radix(resultLength - j)
    {
      hide *;
      ghost var q, a := LimbValue(quotient[..j]), LimbValue(dividend[..length]);
      var guess := DivideDigit(dividend, length, j, divisor, m);
      quotient[j] := guess;
      RadixStep(resultLength - j - 1);
      assert quotient[..j + 1][..j] == quotient[..j];
      Unfold(quotient[..j + 1]);
      DigitsStep(n, q, d, Radix(resultLength - j - 1), a, guess, LimbValue(dividend[..length]));
    }
    assert LimbValue(quotient[..resultLength]) * d * Radix(0) == LimbValue(quotient[..resultLength]) * d;
  }

  /** Shifting both operands left by `fls`'s complement loses no bit of either. */
  lemma NormalizeFits(n: int, d: int, top: int, bitpos: int, m: int, length: int, p: int)
    requires 1 <= bitpos <= 32 && 0 < top < Pow2(bitpos) && 1 <= m < length && p == Pow2(32 - bitpos)
    requires 0 <= n < Radix(length - 1) && Radix(m - 1) <= d < (top + 1) * Radix(m - 1)
    ensures 0 < p < Two32 && 0 <= 32 - bitpos < 32
    ensures 0 <= n * p < Radix(length) && 0 <= d * p < Radix(m) && n * p < d * p * Radix(length - m)
  {
    NormalizePower(bitpos);
    RadixStep(length - 1);
    RadixStep(m - 1);
    RadixAdd(m - 1, length - m);
    hide *;
    FitBelow(n, p, Radix(length - 1));
    FitTop(d, top, Radix(m - 1), Pow2(bitpos), p);
    FitQuotient(n, d, p, Radix(m - 1), Radix(length - m));
    MulLe(0, n, p);
    MulLe(0, d, p);
  }

  lemma NormalizePower(bitpos: int)
    requires 1 <= bitpos <= 32
    ensures Pow2(bitpos) * Pow2(32 - bitpos) == Two32 && 0 < Pow2(32 - bitpos) < Two32
  {
    Pow2Add(bitpos, 32 - bitpos);
    Pow2Values();
    Pow2Monotonic(32 - bitpos, 31);
    Pow2Add(31, 1);
  }

  lemma FitBelow(n: int, p: int, r: int)
    requires 0 <= n < r && 0 < p <= Two32
    ensures n * p < r * Two32
  {
    MulStep(n, r, p);
    MulLe(p, Two32, r);
  }

  lemma FitTop(d: int, top: int, r: int, pb: int, p: int)
    requires 0 < top < pb && 0 <= d < (top + 1) * r && pb * p == Two32 && p > 0 && r > 0
    ensures d * p < r * Two32
  {
    MulStep(d, (top + 1) * r, p);
    MulLe(top + 1, pb, p);
    MulLe((top + 1) * p, pb * p, r);
    assert (top + 1) * r * p == (top + 1) * p * r;
  }

  lemma FitQuotient(n: int, d: int, p: int, r1: int, r2: int)
    requires 0 <= n < r1 * r2 && r1 <= d && p > 0 && r2 > 0
    ensures n * p < d * p * r2
  {
    MulLe(r1, d, r2);
    MulStep(n, d * r2, p);
    assert d * r2 * p == d * p * r2;
  }

  /** A remainder below an `m`-limb divisor has a zero leading limb among more than `m`. */
  lemma RemainderTop(s: seq<u32>, d: int, m: int)
    requires 1 <= m < |s| && LimbValue(s) < d <= Radix(m)
    ensures s[0] == 0
  {
    Pow2Monotonic(32 * m, 32 * (|s| - 1));
    TopZero(s);
  }

  /** An exact shift: the product below the modulus is its own remainder. */
  lemma ShiftExact(v: int, p: int, r: int)
    requires 0 <= v * p < r
    ensures (v * p) % r == v * p
  {
    DivModUnique(v * p, r, 0, v * p);
  }

  /**
   * The normalization of `divide`: both operands shifted left by the bits
   * the divisor's leading limb leaves free, which loses no bit of either.
   */
  method Normalize(dividendArray: array<u32>, dividendLength: int, divisorArray: array<u32>, divisorLength: int)
    returns (normalizeBits: int)
    requires dividendArray != divisorArray
    requires 2 <= divisorLength < dividendLength <= dividendArray.Length && divisorLength <= divisorArray.Length
    requires dividendArray[0] == 0 && divisorArray[0] != 0
    modifies dividendArray, divisorArray
    ensures 0 <= normalizeBits < 32
    ensures var p, n, d := Pow2(normalizeBits), LimbValue(old(dividendArray[..dividendLength])),
        LimbValue(old(divisorArray[..divisorLength]));
      LimbValue(dividendArray[..dividendLength]) == n * p && LimbValue(divisorArray[..divisorLength]) == d * p &&
      0 < d <= Radix(divisorLength) && n * p < d * p * Radix(dividendLength - divisorLength) && p > 0
  {
    ghost var n, d := LimbValue(dividendArray[..dividendLength]), LimbValue(divisorArray[..divisorLength]);
    ghost var L, m := dividendLength, divisorLength;
    ghost var before, divisorBefore := dividendArray[..L], divisorArray[..m];
    LimbValueLower(divisorBefore);
    LimbValueUpper(divisorBefore);
    LeadingZero(before);
    assert before[1..] == dividendArray[1..L];
    LimbValueBound(dividendArray[1..L]);
    LimbValueBound(divisorBefore);
    Pow2Monotonic(0, 32 * (m - 1));
    var bitpos := Fls(divisorArray[0]);
    assert bitpos != 0 by {
      assert Pow2(0) == 1;
    }
    normalizeBits := 32 - bitpos;
    ghost var p := Pow2(normalizeBits);
    NormalizeFits(n, d, divisorArray[0], bitpos, m, L, p);
    hide *;
    ShiftArrayLeft(divisorArray, divisorLength, normalizeBits);
    ShiftArrayLeft(dividendArray, dividendLength, normalizeBits);
    ShiftLeftMod(divisorBefore, normalizeBits);
    ShiftLeftMod(before, normalizeBits);
    ShiftExact(d, p, Radix(m));
    ShiftExact(n, p, Radix(L));
  }

  /**
   * The general case of `divide`: both operands normalized by the same
   * shift, one quotient limb per window, the remainder shifted back, then
   * both built and their signs fixed.
   */
  method LongDivide(dividendArray: array<u32>, dividendLength: int, divisorArray: array<u32>, divisorLength: int,
                    remainder: Int128, dividendWasNegative: bool, divisorWasNegative: bool) returns (result: Int128)
    requires dividendArray != divisorArray
    requires 2 <= divisorLength < dividendLength <= 5
    requires dividendLength <= dividendArray.Length && divisorLength <= divisorArray.Length
    requires dividendArray[0] == 0 && divisorArray[0] != 0
    modifies dividendArray, divisorArray, remainder
    ensures fresh(result)
    ensures var n, d := LimbValue(old(dividendArray[..dividendLength])), LimbValue(old(divisorArray[..divisorLength]));
      d > 0 && result.Value() == Wrap128(if dividendWasNegative != divisorWasNegative then -(n / d) else n / d)
    ensures var n, d := LimbValue(old(dividendArray[..dividendLength])), LimbValue(old(divisorArray[..divisorLength]));
      d > 0 && remainder.Value() == Wrap128(if dividendWasNegative then -(n % d) else n % d)
  {
    hide *;
    ghost var n, d := LimbValue(dividendArray[..dividendLength]), LimbValue(divisorArray[..divisorLength]);
    ghost var L, m := dividendLength, divisorLength;
    var resultLength := dividendLength - divisorLength;
    var resultArray := new u32[4];
    var normalizeBits := Normalize(dividendArray, dividendLength, divisorArray, divisorLength);
    ghost var p := Pow2(normalizeBits);
    DivideDigits(dividendArray, dividendLength, divisorArray, divisorLength, resultArray);
    ghost var normalized := dividendArray[..L];
    ShiftArrayRight(dividendArray, dividendLength, normalizeBits);
    ShiftRightDiv(normalized, normalizeBits);
    DivisionRecovered(n, d, p, LimbValue(resultArray[..resultLength]), LimbValue(normalized),
      LimbValue(dividendArray[..L]));
    RemainderTop(dividendArray[..L], d, m);
    result := BuildResults(resultArray, resultLength, dividendArray, dividendLength, remainder,
      dividendWasNegative, divisorWasNegative);
  }

  /** Dividing both operands by the same `p` recovers quotient and remainder of the unscaled division. */
  lemma DivisionRecovered(n: int, d: int, p: int, q: int, scaled: int, r: int)
    requires n >= 0 && d > 0 && p > 0
    requires n * p == q * (d * p) + scaled && 0 <= scaled < d * p && r == scaled / p
    ensures q == n / d && r == n % d
  {
    DivModUnique(n * p, d * p, q, scaled);
    ScaledDivMod(n, p, d);
    DivModUnique((n % d) * p, p, n % d, 0);
  }

  /** The end of `divide`: quotient and remainder built from their limbs, then their signs fixed. */
  method BuildResults(quotient: array<u32>, quotientLength: int, rest: array<u32>, restLength: int, remainder: Int128,
                      dividendWasNegative: bool, divisorWasNegative: bool) returns (result: Int128)
    requires 0 <= quotientLength <= 4 && quotientLength <= quotient.Length
    requires 0 <= restLength <= 5 && restLength <= rest.Length && (restLength == 5 ==> rest[0] == 0)
    modifies remainder
    ensures fresh(result)
    ensures var q: int := LimbValue(quotient[..quotientLength]);
      result.Value() == Wrap128(if dividendWasNegative != divisorWasNegative then -q else q)
    ensures var r: int := LimbValue(rest[..restLength]);
      remainder.Value() == Wrap128(if dividendWasNegative then -r else r)
  {
    hide *;
    result := new Int128();
    BuildFromArray(result, quotient, quotientLength);
    BuildFromArray(remainder, rest, restLength);
    FixDivisionSigns(result, remainder, dividendWasNegative, divisorWasNegative);
    WrapNegate(LimbValue(quotient[..quotientLength]));
    WrapNegate(LimbValue(rest[..restLength]));
  }
}
