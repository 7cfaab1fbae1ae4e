// Arrays of 32-bit limbs, most significant first, as the int128 division of
// src/math/int128.cpp keeps the magnitudes it divides, and the in-place
// shifts of those arrays.
module Int128Limbs {
  import opened Words

  function Radix(n: nat): (r: nat)
  {
    Pow2(32 * n)
  }

  lemma RadixStep(n: nat)
    ensures Radix(n + 1) == Radix(n) * Two32
  {
    Pow2Add(32 * n, 32);
    Pow2Values();
  }

  lemma RadixIncreasing(n: nat)
    ensures 1 <= Radix(n) < Radix(n + 1)
  {
    RadixStep(n);
    MulStep(1, Two32, Radix(n));
  }

  /** The number whose base-2^32 digits, most significant first, are `s`. */
  function LimbValue(s: seq<u32>): nat
  {
    if |s| == 0 then 0 else LimbValue(s[..|s| - 1]) * Two32 + s[|s| - 1]
  }

  lemma {:induction false} LimbValueBound(s: seq<u32>)
    ensures LimbValue(s) < Radix(|s|)
    decreases |s|
  {
    if |s| == 0 {
      assert Radix(0) == 1;
    } else {
      var n := |s| - 1;
      LimbValueBound(s[..n]);
      RadixStep(n);
      MulStep(LimbValue(s[..n]), Radix(n), Two32);
    }
  }

  /** One step of `LimbValue`. */
  lemma Unfold(s: seq<u32>)
    requires |s| > 0
    ensures LimbValue(s) == LimbValue(s[..|s| - 1]) * Two32 + s[|s| - 1]
  {
  }

  lemma Distribute(a: int, r: int, x: int, w: int)
    ensures (a * r + x) * w == a * (r * w) + x * w
  {
  }

  /** The leading limb counts `Radix(|s| - 1)` times. */
  lemma {:induction false} LimbValueFront(s: seq<u32>)
    requires |s| > 0
    ensures LimbValue(s) == s[0] * Radix(|s| - 1) + LimbValue(s[1..])
    decreases |s|
  {
    if |s| == 1 {
      assert s[..0] == [] && s[1..] == [];
      assert Radix(0) == 1;
    } else {
      hide *;
      var n := |s| - 1;
      var t := s[..n];
      LimbValueFront(t);
      Unfold(s);
      Unfold(s[1..]);
      assert s[1..][..n - 1] == t[1..] && s[1..][n - 1] == s[n] && t[0] == s[0];
      RadixStep(n - 1);
      Distribute(s[0], Radix(n - 1), LimbValue(t[1..]), Two32);
    }
  }

  lemma LimbValueSmall(s: seq<u32>)
    requires |s| <= 4
    ensures |s| == 1 ==> LimbValue(s) == s[0]
    ensures |s| == 2 ==> LimbValue(s) == s[0] * Two32 + s[1]
    ensures |s| == 3 ==> LimbValue(s) == (s[0] * Two32 + s[1]) * Two32 + s[2]
    ensures |s| == 4 ==> LimbValue(s) == ((s[0] * Two32 + s[1]) * Two32 + s[2]) * Two32 + s[3]
  {
    if |s| > 0 {
      assert s[..1][..0] == [];
    }
    if |s| > 1 {
      assert s[..2][..1] == s[..1];
    }
    if |s| > 2 {
      assert s[..3][..2] == s[..2];
    }
    if |s| > 3 {
      assert s[..4][..3] == s[..3];
    }
  }

  lemma RadixAdd(a: nat, b: nat)
    ensures Radix(a + b) == Radix(a) * Radix(b)
  {
    Pow2Add(32 * a, 32 * b);
  }

  lemma Regroup(x: int, r: int, y: int)
    ensures (x * r + y) * Two32 == x * (r * Two32) + y * Two32
  {
  }

  /** The limbs of `s` followed by those of `t`: `s` counts `Radix(|t|)` times. */
  lemma {:induction false} LimbValueConcat(s: seq<u32>, t: seq<u32>)
    ensures LimbValue(s + t) == LimbValue(s) * Radix(|t|) + LimbValue(t)
    decreases |t|
  {
    if |t| == 0 {
      assert s + t == s;
      assert Radix(0) == 1;
    } else {
      var n := |t| - 1;
      var u := s + t;
      assert u[..|u| - 1] == s + t[..n] && u[|u| - 1] == t[n];
      LimbValueConcat(s, t[..n]);
      Unfold(u);
      Unfold(t);
      RadixStep(n);
      Regroup(LimbValue(s), Radix(n), LimbValue(t[..n]));
    }
  }

  /** The `n` limbs of a number below `Radix(n)`. */
  function {:induction false} ToLimbs(v: nat, n: nat): (r: seq<u32>)
    requires v < Radix(n)
    ensures |r| == n && LimbValue(r) == v
    decreases n
  {
    if n == 0 then
      assert Radix(0) == 1;
      []
    else
      RadixStep(n - 1);
      DivBelow(v, Radix(n - 1), Two32);
      var front := ToLimbs(v / Two32, n - 1);
      var r := front + [v % Two32];
      assert r[..n - 1] == front;
      Unfold(r);
      r
  }

  /** A nonzero leading limb makes the value at least `Radix(|s| - 1)`. */
  lemma LimbValueLower(s: seq<u32>)
    requires |s| > 0 && s[0] != 0
    ensures LimbValue(s) >= Radix(|s| - 1)
  {
    LimbValueFront(s);
    MulLe(1, s[0], Radix(|s| - 1));
  }

  /** The value is below the leading limb plus one, in units of `Radix(|s| - 1)`. */
  lemma LimbValueUpper(s: seq<u32>)
    requires |s| > 0
    ensures LimbValue(s) < (s[0] as int + 1) * Radix(|s| - 1)
  {
    var r := Radix(|s| - 1);
    LimbValueFront(s);
    LimbValueBound(s[1..]);
    assert (s[0] as int + 1) * r == s[0] * r + r;
    hide *;
  }

  /** A value below `Radix(|s| - 1)` has a zero leading limb. */
  lemma TopZero(s: seq<u32>)
    requires |s| > 0 && LimbValue(s) < Radix(|s| - 1)
    ensures s[0] == 0
  {
    if s[0] != 0 {
      LimbValueLower(s);
    }
  }

  /** A leading zero limb adds nothing. */
  lemma LeadingZero(s: seq<u32>)
    requires |s| > 0 && s[0] == 0
    ensures LimbValue(s) == LimbValue(s[1..])
  {
    LimbValueFront(s);
  }

  // ---------------------------------------------------------------------------
  // Shifting an array of limbs

  lemma ShiftParts(bits: nat)
    requires bits < 32
    ensures Pow2(bits) * Pow2(32 - bits) == Two32
  {
    Pow2Add(bits, 32 - bits);
    Pow2Values();
  }

  /** With `p * q == 2^32`, the two parts of a combined limb have no bit in common. */
  lemma CombineLeftBound(x: u32, y: u32, p: int, q: int)
    requires p > 0 && q > 0 && p * q == Two32
    ensures 0 <= (x * p) % Two32 + y / q < Two32
  {
    ScaledDivMod(x, p, q);
    MulLe(x % q, q - 1, p);
    DivBelow(y, p, q);
    DivLe(y, q);
  }

  lemma CombineRightBound(x: u32, y: u32, p: int, q: int)
    requires p > 0 && q > 0 && p * q == Two32
    ensures 0 <= y / p + (x * q) % Two32 < Two32
  {
    ScaledDivMod(x, q, p);
    MulLe(x % p, p - 1, q);
    DivBelow(y, q, p);
    DivLe(y, p);
  }

  /** `(x << bits) | (y >> (32 - bits))`: `x` shifted left, filled from `y`. */
  function CombineLeft(x: u32, y: u32, bits: nat): u32
    requires bits < 32
  {
    ShiftParts(bits);
    CombineLeftBound(x, y, Pow2(bits), Pow2(32 - bits));
    (x * Pow2(bits)) % Two32 + y / Pow2(32 - bits)
  }

  /** `(y >> bits) | (x << (32 - bits))`: `y` shifted right, filled from `x`. */
  function CombineRight(x: u32, y: u32, bits: nat): u32
    requires bits < 32
  {
    ShiftParts(bits);
    CombineRightBound(x, y, Pow2(bits), Pow2(32 - bits));
    y / Pow2(bits) + (x * Pow2(32 - bits)) % Two32
  }

  /** Every limb shifted left by `bits`, filled from the next limb. */
  function ShiftedLeft(s: seq<u32>, bits: nat): (r: seq<u32>)
    requires bits < 32
    ensures |r| == |s|
  {
    seq(|s|, i requires 0 <= i < |s| => CombineLeft(s[i], if i + 1 < |s| then s[i + 1] else 0, bits))
  }

  /** Every limb shifted right by `bits`, filled from the previous limb. */
  function ShiftedRight(s: seq<u32>, bits: nat): (r: seq<u32>)
    requires bits < 32
    ensures |r| == |s|
  {
    seq(|s|, i requires 0 <= i < |s| => CombineRight(if i > 0 then s[i - 1] else 0, s[i], bits))
  }

  lemma CombineLeftSplit(x: u32, y: u32, p: int, q: int)
    requires p > 0 && q > 0 && p * q == Two32
    ensures x * p == (x / q) * Two32 + (x * p) % Two32
  {
    ScaledDivMod(x, p, q);
    assert x == (x / q) * q + x % q;
    assert x * p == (x / q) * (q * p) + (x % q) * p;
  }

  /** The leading limb, 0 for no limbs. */
  function Head(s: seq<u32>): u32
  {
    if |s| > 0 then s[0] else 0
  }

  lemma HeadOf(s: seq<u32>)
    requires |s| > 0
    ensures Head(s) == s[0]
  {
  }

  lemma ShiftedLeftParts(s: seq<u32>, bits: nat)
    requires bits < 32 && |s| > 0
    ensures var r := ShiftedLeft(s, bits);
      |r| == |s| && r[1..] == ShiftedLeft(s[1..], bits) &&
      r[0] == (s[0] * Pow2(bits)) % Two32 + Head(s[1..]) / Pow2(32 - bits)
  {
    var r := ShiftedLeft(s, bits);
    assert forall i :: 0 <= i < |s| - 1 ==> r[1..][i] == ShiftedLeft(s[1..], bits)[i];
  }

  /** `(s0 * R + x) * p` regrouped, with `s0 * p == o * 2^32 + c` and `x * p == nx * R + y`. */
  lemma LeftArith(vs: int, vr: int, s0: int, x: int, r0: int, y: int, rr: int, rr1: int, p: int, o: int, c: int, nx: int)
    requires vs == s0 * rr + x && vr == r0 * rr + y && x * p == nx * rr + y && r0 == c + nx
    requires s0 * p == o * Two32 + c && rr1 == rr * Two32
    ensures vs * p == o * rr1 + vr
  {
    assert vs * p == (s0 * p) * rr + x * p;
    assert (o * Two32 + c) * rr == o * (rr * Two32) + c * rr;
  }

  /**
   * The value of the limbs times `2^bits` is the shifted limbs' value plus
   * the bits pushed out of the leading limb.
   */
  lemma {:induction false} ShiftLeftValue(s: seq<u32>, bits: nat)
    requires bits < 32
    ensures LimbValue(s) * Pow2(bits) == Head(s) / Pow2(32 - bits) * Radix(|s|) + LimbValue(ShiftedLeft(s, bits))
    decreases |s|
  {
    hide *;
    if |s| > 0 {
      ShiftLeftValue(s[1..], bits);
      ShiftLeftStep(s, bits);
    } else {
      ShiftLeftEmpty(s, bits);
    }
  }

  lemma ShiftLeftEmpty(s: seq<u32>, bits: nat)
    requires bits < 32 && |s| == 0
    ensures LimbValue(s) * Pow2(bits) == Head(s) / Pow2(32 - bits) * Radix(|s|) + LimbValue(ShiftedLeft(s, bits))
  {
    assert |ShiftedLeft(s, bits)| == 0;
    assert LimbValue(s) == 0 && LimbValue(ShiftedLeft(s, bits)) == 0 && Head(s) == 0;
    hide *;
  }

  /** The induction step of `ShiftLeftValue`: one more leading limb. */
  lemma ShiftLeftStep(s: seq<u32>, bits: nat)
    requires bits < 32 && |s| > 0
    requires var t := s[1..];
      LimbValue(t) * Pow2(bits) == Head(t) / Pow2(32 - bits) * Radix(|t|) + LimbValue(ShiftedLeft(t, bits))
    ensures LimbValue(s) * Pow2(bits) == Head(s) / Pow2(32 - bits) * Radix(|s|) + LimbValue(ShiftedLeft(s, bits))
  {
    hide *;
    var p, q := Pow2(bits), Pow2(32 - bits);
    ShiftParts(bits);
    var n := |s| - 1;
    var t := s[1..];
    var r := ShiftedLeft(s, bits);
    ShiftedLeftParts(s, bits);
    var next := Head(t);
    HeadOf(s);
    LimbValueFront(s);
    LimbValueFront(r);
    RadixStep(n);
    CombineLeftSplit(s[0], next, p, q);
    LeftArith(LimbValue(s), LimbValue(r), s[0], LimbValue(t), r[0], LimbValue(r[1..]), Radix(n), Radix(n + 1),
      p, s[0] / q, (s[0] * p) % Two32, next / q);
  }

  lemma ShiftLeftMod(s: seq<u32>, bits: nat)
    requires bits < 32
    ensures LimbValue(ShiftedLeft(s, bits)) == (LimbValue(s) * Pow2(bits)) % Radix(|s|)
  {
    ShiftLeftValue(s, bits);
    LimbValueBound(ShiftedLeft(s, bits));
    var out := Head(s) / Pow2(32 - bits);
    DivModUnique(LimbValue(s) * Pow2(bits), Radix(|s|), out, LimbValue(ShiftedLeft(s, bits)));
  }

  lemma CombineRightSplit(x: u32, y: u32, p: int, q: int)
    requires p > 0 && q > 0 && p * q == Two32
    ensures (x * q) % Two32 == (x % p) * q
  {
    ScaledDivMod(x, q, p);
  }

  lemma ShiftedRightParts(s: seq<u32>, bits: nat)
    requires bits < 32 && |s| > 0
    ensures var r, n := ShiftedRight(s, bits), |s| - 1;
      |r| == |s| && r[..n] == ShiftedRight(s[..n], bits) &&
      r[n] == s[n] / Pow2(bits) + ((if n > 0 then s[n - 1] else 0) * Pow2(32 - bits)) % Two32
  {
    var r, n := ShiftedRight(s, bits), |s| - 1;
    assert forall i :: 0 <= i < n ==> r[..n][i] == ShiftedRight(s[..n], bits)[i];
  }

  /** `(vrt * p + b) * 2^32 + x` regrouped, with `p * q == 2^32` and `x == xq * p + xr`. */
  lemma RightArith(vs: int, vt: int, vrt: int, vr: int, x: int, b: int, rn: int, xq: int, xr: int, p: int, q: int)
    requires vs == vt * Two32 + x && vt == vrt * p + b && vr == vrt * Two32 + rn
    requires rn == xq + b * q && x == xq * p + xr && p * q == Two32
    ensures vs == vr * p + xr
  {
    assert (vrt * p + b) * Two32 == vrt * (p * Two32) + b * (p * q);
    assert vr * p == vrt * (Two32 * p) + xq * p + b * (q * p);
  }

  /**
   * The limbs are the right-shifted limbs times `2^bits` plus the bits
   * pushed out of the last limb.
   */
  lemma {:induction false} ShiftRightValue(s: seq<u32>, bits: nat)
    requires bits < 32
    ensures var out := if |s| > 0 then s[|s| - 1] % Pow2(bits) else 0;
      LimbValue(s) == LimbValue(ShiftedRight(s, bits)) * Pow2(bits) + out
    decreases |s|
  {
    if |s| > 0 {
      hide *;
      var p, q := Pow2(bits), Pow2(32 - bits);
      ShiftParts(bits);
      var n := |s| - 1;
      var t := s[..n];
      var r := ShiftedRight(s, bits);
      ShiftedRightParts(s, bits);
      ShiftRightValue(t, bits);
      var prev := if n > 0 then s[n - 1] else 0;
      assert (if |t| > 0 then t[|t| - 1] else 0) == prev;
      var x := s[n];
      CombineRightSplit(prev, x, p, q);
      NatDivMod(x, p);
      Unfold(s);
      Unfold(r);
      RightArith(LimbValue(s), LimbValue(t), LimbValue(r[..n]), LimbValue(r), x, prev % p, r[n], x / p, x % p, p, q);
    } else {
      assert ShiftedRight(s, bits) == [];
    }
  }

  lemma ShiftRightDiv(s: seq<u32>, bits: nat)
    requires bits < 32
    ensures LimbValue(ShiftedRight(s, bits)) == LimbValue(s) / Pow2(bits)
  {
    ShiftRightValue(s, bits);
    var out := if |s| > 0 then s[|s| - 1] % Pow2(bits) else 0;
    DivModUnique(LimbValue(s), Pow2(bits), LimbValue(ShiftedRight(s, bits)), out);
  }

  // ---------------------------------------------------------------------------
  // Limb-array helpers of the division

  /** `fls`: the position of the last set bit, 1 for the least significant, 0 for none. */
  method Fls(x: u32) returns (bitpos: int)
    ensures 0 <= bitpos <= 32 && x < Pow2(bitpos)
    ensures x == 0 || Pow2(bitpos - 1) <= x
  {
    bitpos := 0;
    var y := x;
    while y != 0
      invariant 0 <= bitpos <= 32 && y == x / Pow2(bitpos)
      invariant bitpos > 0 ==> Pow2(bitpos - 1) <= x
      decreases y
    {
      FlsStep(x, bitpos);
      y := y / 2;
      bitpos := bitpos + 1;
    }
    NatDivMod(x, Pow2(bitpos));
  }

  /** One round of `fls`: a nonzero quotient means the bit at `b` or above is set. */
  lemma FlsStep(x: u32, b: nat)
    requires b <= 32 && x / Pow2(b) != 0
    ensures b < 32 && Pow2(b) <= x && x / Pow2(b + 1) == (x / Pow2(b)) / 2
  {
    NatDivMod(x, Pow2(b));
    Pow2Values();
    assert b < 32;
    DivDiv(x, Pow2(b), 2);
  }

  /** `shiftArrayLeft`: the first `length` limbs shifted left by `bits`, in place. */
  method ShiftArrayLeft(a: array<u32>, length: int, bits: int)
    requires 0 <= length <= a.Length && 0 <= bits < 32
    modifies a
    ensures a[..length] == ShiftedLeft(old(a[..length]), bits)
    ensures a[length..] == old(a[length..])
  {
    ghost var s := a[..length];
    if length > 0 && bits != 0 {
      for i := 0 to length - 1
        invariant a[..i] == ShiftedLeft(s, bits)[..i]
        invariant a[i..] == old(a[i..])
      {
        a[i] := CombineLeft(a[i], a[i + 1], bits);
        assert a[..i + 1] == ShiftedLeft(s, bits)[..i + 1];
      }
      a[length - 1] := CombineLeft(a[length - 1], 0, bits);
      assert a[..length] == ShiftedLeft(s, bits);
    } else if length > 0 {
      ShiftedZero(s);
    }
  }

  /** `shiftArrayRight`: the first `length` limbs shifted right by `bits`, in place. */
  method ShiftArrayRight(a: array<u32>, length: int, bits: int)
    requires 0 <= length <= a.Length && 0 <= bits < 32
    modifies a
    ensures a[..length] == ShiftedRight(old(a[..length]), bits)
    ensures a[length..] == old(a[length..])
  {
    ghost var s := a[..length];
    ghost var r := ShiftedRight(s, bits);
    if length > 0 && bits != 0 {
      for i := length downto 1
        invariant forall k :: 0 <= k < i ==> a[k] == s[k]
        invariant forall k :: i <= k < length ==> a[k] == r[k]
        invariant a[length..] == old(a[length..])
      {
        a[i] := CombineRight(a[i - 1], a[i], bits);
      }
      a[0] := CombineRight(0, a[0], bits);
      assert a[..length] == r;
    } else if length > 0 {
      ShiftedZero(s);
    }
  }

  /** A shift by 0 bits changes nothing. */
  lemma ShiftedZero(s: seq<u32>)
    ensures ShiftedLeft(s, 0) == s && ShiftedRight(s, 0) == s
  {
    forall i | 0 <= i < |s|
      ensures ShiftedLeft(s, 0)[i] == s[i] && ShiftedRight(s, 0)[i] == s[i]
    {
      CombineZero(s[i], if i + 1 < |s| then s[i + 1] else 0);
      CombineZero(s[i], if i > 0 then s[i - 1] else 0);
    }
  }

  lemma CombineZero(x: u32, y: u32)
    ensures CombineLeft(x, y, 0) == x && CombineRight(y, x, 0) == x
  {
    assert Pow2(0) == 1;
    Pow2Values();
    DivModUnique(x, Two32, 0, x);
    DivModUnique(y, Two32, 0, y);
    DivModUnique(y * Two32, Two32, y, 0);
  }
}
