// uint128 of include/fwk/math/uint128.h: an unsigned 128-bit integer kept
// as two 64-bit halves. The compound assignments update the halves in
// place and wrap modulo 2^128; the comparisons are expressions on the halves.
module UInt128Model {
  import opened Words

  /** The value of a pair of halves. */
  function Join(hi: int, lo: int): int
  {
    hi * Two64 + lo
  }

  // ---------------------------------------------------------------------------
  // The word arithmetic behind the shifts and the product

  /** The shifts below 64 with `p * q == 2^64`, `p == 2^a`. */
  lemma ShiftLeftSplit(hi: u64, lo: u64, p: int, q: int)
    requires p > 0 && q > 0 && q * p == Two64
    ensures 0 <= (hi * p) % Two64 + lo / q < Two64
    ensures Join((hi * p) % Two64 + lo / q, (lo * p) % Two64) == (Join(hi, lo) * p) % Two128
  {
    ScaledDivMod(lo, p, q);
    ScaledDivMod(hi, p, q);
    DivBelow(lo, p, q);
    DivLe(lo, q);
    MulLe(hi % q, q - 1, p);
    var top := (hi % q) * p + lo / q;
    assert top < Two64;
    assert hi * p == (hi / q) * Two64 + (hi % q) * p;
    assert lo * p == (lo / q) * Two64 + (lo % q) * p;
    assert Join(hi, lo) * p == (hi / q) * Two128 + (top * Two64 + (lo % q) * p);
    DivModUnique(Join(hi, lo) * p, Two128, hi / q, top * Two64 + (lo % q) * p);
  }

  lemma ShiftRightSplit(hi: u64, lo: u64, p: int, q: int)
    requires p > 0 && q > 0 && p * q == Two64
    ensures 0 <= hi / p && 0 <= lo / p + (hi * q) % Two64 < Two64
    ensures Join(hi / p, lo / p + (hi * q) % Two64) == Join(hi, lo) / p
  {
    var mid := (hi % p) * q + lo / p;
    assert (hi * q) % Two64 == (hi % p) * q by {
      ScaledDivMod(hi, q, p);
    }
    assert 0 <= mid < Two64 by {
      DivBelow(lo, q, p);
      DivLe(lo, p);
      MulLe(hi % p, p - 1, q);
    }
    DivLe(hi, p);
    assert Join(hi, lo) == ((hi / p) * Two64 + mid) * p + lo % p by {
      assert hi == (hi / p) * p + hi % p && lo == (lo / p) * p + lo % p;
    }
    DivModUnique(Join(hi, lo), p, (hi / p) * Two64 + mid, lo % p);
  }

  /**
   * `(hi << a) | (lo >> (64 - a))` and `lo << a` for `0 < a < 64`: the two
   * operands of `|` have no bit in common, so the `|` is a sum, and the new
   * halves hold the value shifted left, modulo 2^128.
   */
  lemma ShiftLeftWords(hi: u64, lo: u64, a: nat)
    requires 0 < a < 64
    ensures var p, q := Pow2(a), Pow2(64 - a);
      (hi * p) % Two64 + lo / q < Two64 &&
      Join((hi * p) % Two64 + lo / q, (lo * p) % Two64) == (Join(hi, lo) * p) % Two128
  {
    Pow2Add(64 - a, a);
    Pow2Values();
    ShiftLeftSplit(hi, lo, Pow2(a), Pow2(64 - a));
  }

  /**
   * `(lo >> a) | (hi << (64 - a))` and `hi >> a` for `0 < a < 64`: the new
   * halves hold the value shifted right.
   */
  lemma ShiftRightWords(hi: u64, lo: u64, a: nat)
    requires 0 < a < 64
    ensures var p, q := Pow2(a), Pow2(64 - a);
      lo / p + (hi * q) % Two64 < Two64 &&
      Join(hi / p, lo / p + (hi * q) % Two64) == Join(hi, lo) / p
  {
    Pow2Add(a, 64 - a);
    Pow2Values();
    ShiftRightSplit(hi, lo, Pow2(a), Pow2(64 - a));
  }

  /** `lo << (a - 64)` for `64 <= a < 128` becomes the high half. */
  lemma ShiftLeftHigh(hi: u64, lo: u64, a: nat)
    requires 64 <= a < 128
    ensures Join((lo * Pow2(a - 64)) % Two64, 0) == (Join(hi, lo) * Pow2(a)) % Two128
  {
    var p := Pow2(a - 64);
    assert Pow2(a) == Two64 * p by {
      Pow2Add(64, a - 64);
      Pow2Values();
    }
    ShiftLeftHighSplit(hi, lo, p);
  }

  lemma ShiftLeftHighSplit(hi: int, lo: int, p: int)
    requires p > 0 && lo >= 0
    ensures Join((lo * p) % Two64, 0) == (Join(hi, lo) * (Two64 * p)) % Two128
  {
    assert Join(hi, lo) * (Two64 * p) == (hi * p) * Two128 + (lo * p) * Two64;
    ScaledDivMod(lo * p, Two64, Two64);
    ModAddMultiple((lo * p) * Two64, hi * p, Two128);
  }

  /** `hi >> (a - 64)` for `64 <= a < 128` becomes the low half. */
  lemma ShiftRightHigh(hi: u64, lo: u64, a: nat)
    requires 64 <= a < 128
    ensures Join(0, hi / Pow2(a - 64)) == Join(hi, lo) / Pow2(a)
  {
    var p := Pow2(a - 64);
    Pow2Add(64, a - 64);
    Pow2Values();
    DivModUnique(Join(hi, lo), Two64, hi, lo);
    DivDiv(Join(hi, lo), Two64, p);
  }

  lemma Expand(a3: int, a2: int, a1: int, a0: int, b3: int, b2: int, b1: int, b0: int)
    ensures (((a3 * Two32 + a2) * Two32 + a1) * Two32 + a0) * (((b3 * Two32 + b2) * Two32 + b1) * Two32 + b0) ==
      (a3 * b0 + a2 * b1 + a1 * b2 + a0 * b3) * (Two32 * Two64) + (a2 * b0 + a1 * b1 + a0 * b2) * Two64 +
      (a1 * b0 + a0 * b1) * Two32 + a0 * b0 +
      (a3 * b1 + a2 * b2 + a1 * b3 + (a3 * b2 + a2 * b3) * Two32 + a3 * b3 * Two64) * Two128
  {
  }

  /** `(c96 << 32) + c64` with the wrapped sums: the terms at 2^96 and 2^64, modulo 2^128. */
  lemma HighTerms(s3: int, s2: int, h: int)
    requires h == (((s3 % Two64) * Two32) % Two64 + s2 % Two64) % Two64
    ensures h * Two64 - (s3 * (Two32 * Two64) + s2 * Two64) == -((s3 / Two64) * Two32 + s2 / Two64 +
      ((s3 % Two64) * Two32) / Two64 + (((s3 % Two64) * Two32) % Two64 + s2 % Two64) / Two64) * Two128
  {
    var c96, k1 := s3 % Two64, s3 / Two64;
    var c64, k2 := s2 % Two64, s2 / Two64;
    var u, k3 := (c96 * Two32) % Two64, (c96 * Two32) / Two64;
    var k4 := (u + c64) / Two64;
    assert s3 == k1 * Two64 + c96 && s2 == k2 * Two64 + c64;
    assert c96 * Two32 == k3 * Two64 + u && u + c64 == k4 * Two64 + h;
  }

  /** The product of two values as the sums of their 32-bit limb products at each power of 2^32. */
  lemma LimbExpansion(ahi: u64, alo: u64, bhi: u64, blo: u64)
    ensures var a96, a64, a32, a00 := ahi / Two32, ahi % Two32, alo / Two32, alo % Two32;
      var b96, b64, b32, b00 := bhi / Two32, bhi % Two32, blo / Two32, blo % Two32;
      Join(ahi, alo) * Join(bhi, blo) ==
        (a96 * b00 + a64 * b32 + a32 * b64 + a00 * b96) * (Two32 * Two64) + (a64 * b00 + a32 * b32 + a00 * b64) * Two64
        + (a32 * b00 + a00 * b32) * Two32 + a00 * b00
        + (a96 * b32 + a64 * b64 + a32 * b96 + (a96 * b64 + a64 * b96) * Two32 + a96 * b96 * Two64) * Two128
  {
    var a96, a64, a32, a00 := ahi / Two32, ahi % Two32, alo / Two32, alo % Two32;
    var b96, b64, b32, b00 := bhi / Two32, bhi % Two32, blo / Two32, blo % Two32;
    assert Join(ahi, alo) == ((a96 * Two32 + a64) * Two32 + a32) * Two32 + a00;
    assert Join(bhi, blo) == ((b96 * Two32 + b64) * Two32 + b32) * Two32 + b00;
    Expand(a96, a64, a32, a00, b96, b64, b32, b00);
  }

  /**
   * The product of `*=`: the 32-bit limbs `a96 a64 a32 a00` and `b96 b64 b32
   * b00` give the high half `h` from the terms at 2^96 and 2^64, the three
   * lower terms are added one at a time, and the total is the product
   * modulo 2^128.
   */
  lemma ProductWords(ahi: u64, alo: u64, bhi: u64, blo: u64, h: int, t1: int, t2: int, t3: int)
    requires var a96, a64, a32, a00 := ahi / Two32, ahi % Two32, alo / Two32, alo % Two32;
      var b96, b64, b32, b00 := bhi / Two32, bhi % Two32, blo / Two32, blo % Two32;
      h == (((a96 * b00 + a64 * b32 + a32 * b64 + a00 * b96) % Two64 * Two32) % Two64 +
        (a64 * b00 + a32 * b32 + a00 * b64) % Two64) % Two64 &&
      t1 == a32 * b00 && t2 == a00 * b32 && t3 == a00 * b00
    ensures (((Join(h, 0) + t1 * Two32) % Two128 + t2 * Two32) % Two128 + t3) % Two128 ==
      (Join(ahi, alo) * Join(bhi, blo)) % Two128
  {
    var a96, a64, a32, a00 := ahi / Two32, ahi % Two32, alo / Two32, alo % Two32;
    var b96, b64, b32, b00 := bhi / Two32, bhi % Two32, blo / Two32, blo % Two32;
    var s3 := a96 * b00 + a64 * b32 + a32 * b64 + a00 * b96;
    var s2 := a64 * b00 + a32 * b32 + a00 * b64;
    var k := a96 * b32 + a64 * b64 + a32 * b96 + (a96 * b64 + a64 * b96) * Two32 + a96 * b96 * Two64;
    var x := Join(ahi, alo) * Join(bhi, blo);
    LimbExpansion(ahi, alo, bhi, blo);
    assert x == s3 * (Two32 * Two64) + s2 * Two64 + (t1 + t2) * Two32 + t3 + k * Two128;
    var j := (s3 / Two64) * Two32 + s2 / Two64 +
      ((s3 % Two64) * Two32) / Two64 + (((s3 % Two64) * Two32) % Two64 + s2 % Two64) / Two64;
    HighTerms(s3, s2, h);
    var u := Join(h, 0) + t1 * Two32;
    assert ((u % Two128 + t2 * Two32) % Two128 + t3) % Two128 == (u + t2 * Two32 + t3) % Two128 by {
      ModSum(u, t2 * Two32, Two128);
      ModSum(u + t2 * Two32, t3, Two128);
    }
    ModAddMultiple(Join(h, 0) + t1 * Two32 + t2 * Two32 + t3, k + j, Two128);
  }

  /**
   * The high word `operator*=` starts from: the terms of the 32-bit limb
   * products at 2^96 and 2^64, each wrapped to 64 bits.
   */
  function ProductHigh(ahi: u64, alo: u64, bhi: u64, blo: u64): u64
  {
    var a96, a64, a32, a00 := ahi / Two32, ahi % Two32, alo / Two32, alo % Two32;
    var b96, b64, b32, b00 := bhi / Two32, bhi % Two32, blo / Two32, blo % Two32;
    var c96 := (a96 * b00 + a64 * b32 + a32 * b64 + a00 * b96) % Two64;
    var c64 := (a64 * b00 + a32 * b32 + a00 * b64) % Two64;
    ((c96 * Two32) % Two64 + c64) % Two64
  }

  /** The product of two 32-bit limbs, which fits one word. */
  function LimbTimes(x: int, y: int): u64
    requires 0 <= x < Two32 && 0 <= y < Two32
  {
    LimbProduct(x, y);
    x * y
  }

  /** ProductWords, for the words as ProductHigh and LimbTimes give them. */
  lemma ProductWordsOf(ahi: u64, alo: u64, bhi: u64, blo: u64, h: int, t1: int, t2: int, t3: int)
    requires h == ProductHigh(ahi, alo, bhi, blo)
    requires t1 == LimbTimes(alo / Two32, blo % Two32)
    requires t2 == LimbTimes(alo % Two32, blo / Two32)
    requires t3 == LimbTimes(alo % Two32, blo % Two32)
    ensures (((Join(h, 0) + t1 * Two32) % Two128 + t2 * Two32) % Two128 + t3) % Two128 ==
      (Join(ahi, alo) * Join(bhi, blo)) % Two128
  {
    hide Join;
    ProductWords(ahi, alo, bhi, blo, h, t1, t2, t3);
    hide *;
  }

  /**
   * The words `operator*=` computes from the 32-bit limbs of its operands:
   * the high word of the two top terms, and the three low products that are
   * added to it with carry.
   */
  method ProductTerms(ahi: u64, alo: u64, bhi: u64, blo: u64) returns (h: u64, t1: u64, t2: u64, t3: u64)
    ensures (((Join(h, 0) + t1 * Two32) % Two128 + t2 * Two32) % Two128 + t3) % Two128 ==
      (Join(ahi, alo) * Join(bhi, blo)) % Two128
  {
    hide Join, ProductHigh, LimbTimes;
    h := ProductHigh(ahi, alo, bhi, blo);
    t1 := LimbTimes(alo / Two32, blo % Two32);
    t2 := LimbTimes(alo % Two32, blo / Two32);
    t3 := LimbTimes(alo % Two32, blo % Two32);
    ProductWordsOf(ahi, alo, bhi, blo, h, t1, t2, t3);
  }

  lemma JoinInjective(h1: u64, l1: u64, h2: u64, l2: u64)
    ensures Join(h1, l1) == Join(h2, l2) <==> h1 == h2 && l1 == l2
  {
    if Join(h1, l1) == Join(h2, l2) {
      DivModUnique(Join(h1, l1), Two64, h1, l1);
      DivModUnique(Join(h2, l2), Two64, h2, l2);
    }
  }

  /** The order of values is the order of the high halves, then of the low halves. */
  lemma JoinOrder(h1: u64, l1: u64, h2: u64, l2: u64)
    ensures Join(h1, l1) < Join(h2, l2) <==> if h1 == h2 then l1 < l2 else h1 < h2
  {
  }

  /** A value below 2^128 from a high part `x` (taken modulo 2^64) and a low half. */
  lemma WrapHigh(x: int, lo: int)
    requires 0 <= lo < Two64
    ensures (x * Two64 + lo) % Two128 == Join(x % Two64, lo)
  {
    assert x == (x / Two64) * Two64 + x % Two64;
    assert x * Two64 + lo == (x / Two64) * Two128 + Join(x % Two64, lo);
    DivModUnique(x * Two64 + lo, Two128, x / Two64, Join(x % Two64, lo));
  }

  /** `+=` on the halves: the sum modulo 2^128. */
  lemma AddWords(ahi: u64, alo: u64, bhi: u64, blo: u64)
    ensures var lolo := (alo + blo) % Two64;
      var hi := if lolo < alo then ((ahi + bhi) % Two64 + 1) % Two64 else (ahi + bhi) % Two64;
      Join(hi, lolo) == (Join(ahi, alo) + Join(bhi, blo)) % Two128
  {
    var c := if alo + blo >= Two64 then 1 else 0;
    var lolo := alo + blo - c * Two64;
    DivModUnique(alo + blo, Two64, c, lolo);
    ModSum(ahi + bhi, c, Two64);
    assert Join(ahi, alo) + Join(bhi, blo) == (ahi + bhi + c) * Two64 + lolo;
    WrapHigh(ahi + bhi + c, lolo);
  }

  /** `-=` on the halves: the difference modulo 2^128. */
  lemma SubWords(ahi: u64, alo: u64, bhi: u64, blo: u64)
    ensures var hi := if blo > alo then ((ahi - bhi) % Two64 - 1) % Two64 else (ahi - bhi) % Two64;
      Join(hi, (alo - blo) % Two64) == (Join(ahi, alo) - Join(bhi, blo)) % Two128
  {
    var c := if blo > alo then 1 else 0;
    var rest := alo - blo + c * Two64;
    DivModUnique(alo - blo, Two64, -c, rest);
    ModSum(ahi - bhi, -c, Two64);
    assert Join(ahi, alo) - Join(bhi, blo) == (ahi - bhi - c) * Two64 + rest;
    WrapHigh(ahi - bhi - c, rest);
  }

  /** Unary minus on the halves: two's complement, so the sum with the value is 0 modulo 2^128. */
  lemma NegWords(hi: u64, lo: u64)
    ensures var hiFlip, loFlip := Two64 - 1 - hi, Two64 - 1 - lo;
      var loAdd := (loFlip + 1) % Two64;
      var r := if loAdd < loFlip then Join((hiFlip + 1) % Two64, loAdd) else Join(hiFlip, loAdd);
      (Join(hi, lo) + r) % Two128 == 0
  {
    var hiFlip, loFlip := Two64 - 1 - hi, Two64 - 1 - lo;
    if lo == 0 {
      DivModUnique(loFlip + 1, Two64, 1, 0);
      DivModUnique(hiFlip + 1, Two64, if hi == 0 then 1 else 0, if hi == 0 then 0 else hiFlip + 1);
      DivModUnique(Join(hi, lo) + Join((hiFlip + 1) % Two64, 0), Two128, if hi == 0 then 0 else 1, 0);
    } else {
      DivModUnique(loFlip + 1, Two64, 0, loFlip + 1);
      DivModUnique(Join(hi, lo) + Join(hiFlip, loFlip + 1), Two128, 1, 0);
    }
  }

  // ---------------------------------------------------------------------------
  // The class

  class UInt128 {
    var lo: u64
    var hi: u64

    /** The number the halves stand for. */
    function Value(): nat
      reads this
    {
      Join(hi, lo)
    }

    constructor(hi: u64, lo: u64)
      ensures this.hi == hi && this.lo == lo && Value() == hi * Two64 + lo
    {
      this.lo := lo;
      this.hi := hi;
    }

    /** From a signed integer: the low half is its bit pattern, the high half its sign extension. */
    constructor FromSigned(v: i64)
      ensures Value() == v % Two128
    {
      lo := v % Two64;
      hi := if v < 0 then Two64 - 1 else 0;
      assert Join(if v < 0 then Two64 - 1 else 0, v % Two64) == v % Two128;
    }

    constructor FromUnsigned(v: u64)
      ensures Value() == v
    {
      lo := v;
      hi := 0;
    }

    /** `operator bool`. */
    predicate IsNonZero()
      reads this
      ensures IsNonZero() <==> Value() != 0
    {
      lo != 0 || hi != 0
    }

    /** `Uint128Low64`: the value modulo 2^64. */
    function Low64(): (r: u64)
      reads this
      ensures r == Value() % Two64
    {
      DivModUnique(Value(), Two64, hi, lo);
      lo
    }

    /** `Uint128High64`: the value divided by 2^64. */
    function High64(): (r: u64)
      reads this
      ensures r == Value() / Two64
    {
      DivModUnique(Value(), Two64, hi, lo);
      hi
    }

    /** `operator==`: both halves equal, that is, equal values. */
    predicate Equal(other: UInt128)
      reads this, other
      ensures Equal(other) <==> Value() == other.Value()
    {
      JoinInjective(hi, lo, other.hi, other.lo);
      lo == other.lo && hi == other.hi
    }

    /** `operator<`: the high halves decide unless they are equal. */
    predicate Less(other: UInt128)
      reads this, other
      ensures Less(other) <==> Value() < other.Value()
    {
      JoinOrder(hi, lo, other.hi, other.lo);
      if hi == other.hi then lo < other.lo else hi < other.hi
    }

    /** `operator<=`. */
    predicate LessEq(other: UInt128)
      reads this, other
      ensures LessEq(other) <==> Value() <= other.Value()
    {
      JoinOrder(hi, lo, other.hi, other.lo);
      JoinInjective(hi, lo, other.hi, other.lo);
      if hi == other.hi then lo <= other.lo else hi <= other.hi
    }

    /** `operator+=`: the low halves' carry goes into the high half. */
    method AddAssign(other: UInt128)
      modifies this
      ensures Value() == (old(Value()) + old(other.Value())) % Two128
    {
      ghost var a, b := Value(), other.Value();
      ghost var alo, blo := lo, other.lo;
      hi := (hi + other.hi) % Two64;
      var lolo := (lo + other.lo) % Two64;
      if lolo < lo {
        hi := (hi + 1) % Two64;
      }
      lo := lolo;
      AddWords(old(hi), alo, old(other.hi), blo);
    }

    /** `operator-=`: a borrow from the high half when the low half underflows. */
    method SubAssign(other: UInt128)
      modifies this
      ensures Value() == (old(Value()) - old(other.Value())) % Two128
    {
      ghost var alo, blo := lo, other.lo;
      hi := (hi - other.hi) % Two64;
      if other.lo > lo {
        hi := (hi - 1) % Two64;
      }
      lo := (lo - other.lo) % Two64;
      SubWords(old(hi), alo, old(other.hi), blo);
    }

    /** `operator<<=`, for shift amounts below 128. */
    method ShiftLeftAssign(amount: int)
      requires 0 <= amount < 128
      modifies this
      ensures Value() == (old(Value()) * Pow2(amount)) % Two128
    {
      if amount < 64 {
        if amount != 0 {
          var p, q := Pow2(amount), Pow2(64 - amount);
          ShiftLeftWords(hi, lo, amount);
          var newHi: int := (hi * p) % Two64 + lo / q;
          hi := newHi;
          lo := (lo * p) % Two64;
        } else {
          assert Value() < Two128;
        }
      } else {
        ShiftLeftHigh(hi, lo, amount);
        hi := (lo * Pow2(amount - 64)) % Two64;
        lo := 0;
      }
    }

    /** `operator>>=`, for shift amounts below 128. */
    method ShiftRightAssign(amount: int)
      requires 0 <= amount < 128
      modifies this
      ensures Value() == old(Value()) / Pow2(amount)
    {
      if amount < 64 {
        if amount != 0 {
          var p, q := Pow2(amount), Pow2(64 - amount);
          Pow2Add(amount, 64 - amount);
          Pow2Values();
          ShiftRightSplit(hi, lo, p, q);
          lo := lo / p + (hi * q) % Two64;
          hi := hi / p;
        }
      } else {
        ShiftRightHigh(hi, lo, amount);
        DivLe(hi, Pow2(amount - 64));
        lo := hi / Pow2(amount - 64);
        hi := 0;
      }
    }

    /**
     * `operator*=`: the product modulo 2^128 from 32-bit limbs; the terms
     * above 2^128 are dropped and the three lowest are added with carry.
     */
    method MulAssign(other: UInt128)
      modifies this
      ensures Value() == (old(Value()) * old(other.Value())) % Two128
    {
      hide Join;
      var h, t1, t2, t3 := ProductTerms(hi, lo, other.hi, other.lo);
      hi := h;
      lo := 0;
      AddShifted(t1);
      AddShifted(t2);
      var t := new UInt128.FromUnsigned(t3);
      AddAssign(t);
    }

    /** `*this += uint128(x) << 32`. */
    method AddShifted(x: u64)
      modifies this
      ensures Value() == (old(Value()) + x * Two32) % Two128
    {
      var t := new UInt128.FromUnsigned(x);
      t.ShiftLeftAssign(32);
      Pow2Values();
      AddAssign(t);
    }

    /** Prefix `operator++`. */
    method Increment()
      modifies this
      ensures Value() == (old(Value()) + 1) % Two128
    {
      var one := new UInt128.FromUnsigned(1);
      AddAssign(one);
    }

    /** Prefix `operator--`. */
    method Decrement()
      modifies this
      ensures Value() == (old(Value()) - 1) % Two128
    {
      var one := new UInt128.FromUnsigned(1);
      SubAssign(one);
    }
  }

  /** Unary `operator-`: complement both halves, then add one with carry. */
  method Negate(val: UInt128) returns (r: UInt128)
    ensures fresh(r) && (val.Value() + r.Value()) % Two128 == 0
  {
    var hiFlip := Two64 - 1 - val.hi;
    var loFlip := Two64 - 1 - val.lo;
    var loAdd := (loFlip + 1) % Two64;
    if loAdd < loFlip {
      r := new UInt128((hiFlip + 1) % Two64, loAdd);
    } else {
      r := new UInt128(hiFlip, loAdd);
    }
    NegWords(val.hi, val.lo);
  }

  /** `operator~`: both halves complemented, so the value is 2^128 - 1 - v. */
  method Complement(val: UInt128) returns (r: UInt128)
    ensures fresh(r) && r.Value() == Two128 - 1 - val.Value()
  {
    r := new UInt128(Two64 - 1 - val.hi, Two64 - 1 - val.lo);
  }
}
