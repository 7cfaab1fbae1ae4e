// SlabAllocator of src/slab_allocator.cpp: zones of slabsPerZone slabs,
// tracked by 64-bit group words (one bit per slab, set when the slab is
// taken) and per-zone flags saying which groups are empty and which are
// full. A 64-bit word is modelled as its 64 bits, lowest first; a zone's
// words lie end to end, so slab k of a zone is bit k % 64 of word k / 64.
module SlabAllocatorModel {
  import opened Wrappers
  import opened Seqs

  const GroupSize: int := 64

  /** The index of the first true entry, or -1 (findFirstBit on the bits
      a word has set, with -1 for a zero word). */
  function FirstTrue(s: seq<bool>): (r: int)
    ensures -1 <= r < |s|
    ensures r >= 0 ==> s[r]
    ensures forall i | 0 <= i < |s| && (r == -1 || i < r) :: !s[i]
  {
    if s == [] then -1
    else if s[0] then 0
    else
      var t := FirstTrue(s[1..]);
      assert forall i | 1 <= i < |s| :: s[i] == s[1..][i - 1];
      if t == -1 then -1 else t + 1
  }

  /** ~bits. */
  function Negate(bits: seq<bool>): (r: seq<bool>)
    ensures |r| == |bits| && forall i | 0 <= i < |bits| :: r[i] == !bits[i]
  {
    seq(|bits|, i requires 0 <= i < |bits| => !bits[i])
  }

  /** n consecutive set bits start at i, all inside the word. */
  predicate RunAt(bits: seq<bool>, i: int, n: int)
  {
    0 <= i && i + n <= |bits| && forall k | i <= k < i + n :: bits[k]
  }

  /** The run starting points. */
  function Runs(bits: seq<bool>, n: int): seq<bool>
  {
    seq(|bits|, i => RunAt(bits, i, n))
  }

  /** The first place a run of n set bits starts, or -1. */
  function FirstRun(bits: seq<bool>, n: int): int
  {
    FirstTrue(Runs(bits, n))
  }

  /** FirstRun finds a run, and no run starts earlier; -1 means there is
      none at all. */
  lemma FirstRunMeaning(bits: seq<bool>, n: int)
    ensures var r := FirstRun(bits, n);
      (r == -1 <==> forall i | 0 <= i < |bits| :: !RunAt(bits, i, n)) &&
      (r != -1 ==> RunAt(bits, r, n) && forall i | 0 <= i < r :: !RunAt(bits, i, n))
  {
    var rs := Runs(bits, n);
    assert forall i | 0 <= i < |bits| :: rs[i] == RunAt(bits, i, n);
  }

  /** Every set bit at i + d, d in D, inside the word. */
  ghost predicate AllIn(bits: seq<bool>, i: int, D: set<int>)
  {
    forall d | d in D :: 0 <= i + d < |bits| && bits[i + d]
  }

  /** The offsets D that findNBits has combined so far, with m bits of the
      request still to go out of n: D spans 0 to n - m and leaves no gap of
      m or more. */
  ghost predicate Covers(D: set<int>, m: int, n: int)
  {
    0 in D && n - m in D && (forall d | d in D :: 0 <= d <= n - m) &&
    forall x | 0 <= x <= n - m :: Near(D, m, x)
  }

  /** Some member of D lies in (x - m, x]. */
  ghost predicate Near(D: set<int>, m: int, x: int)
  {
    exists d | d in D :: x - m < d <= x
  }

  lemma CoversStep(D: set<int>, m: int, n: int, s: int)
    requires Covers(D, m, n) && m >= 2 && s == m / 2
    ensures Covers(D + set d | d in D :: d + s, m - s, n)
  {
    var D' := D + set d | d in D :: d + s;
    var m' := m - s;
    assert n - m + s in D';
    forall x | 0 <= x <= n - m'
      ensures Near(D', m', x)
    {
      if x <= n - m {
        assert Near(D, m, x);
        var d :| d in D && x - m < d <= x;
        if d <= x - m' {
          assert d + s in D';
        }
      } else if x - m' < n - m {
        assert n - m in D';
      } else {
        assert x == n - m + s;
      }
    }
  }

  /** With one bit to go, D is exactly 0 .. n - 1. */
  lemma CoversDone(bits: seq<bool>, D: set<int>, n: int, i: int)
    requires Covers(D, 1, n)
    ensures AllIn(bits, i, D) == RunAt(bits, i, n)
  {
    if AllIn(bits, i, D) {
      forall k | i <= k < i + n
        ensures bits[k]
      {
        assert Near(D, 1, k - i);
        var d :| d in D && k - i - 1 < d <= k - i;
      }
    }
    if RunAt(bits, i, n) {
      forall d | d in D
        ensures 0 <= i + d < |bits| && bits[i + d]
      {
        assert i <= i + d < i + n;
      }
    }
  }

  /** One step of findNBits: bits & (bits >> s). */
  function ShiftAnd(b: seq<bool>, s: int): (r: seq<bool>)
    requires s >= 0
    ensures |r| == |b|
  {
    seq(|b|, i requires 0 <= i < |b| => b[i] && i + s < |b| && b[i + s])
  }

  lemma ShiftAndAllIn(bits: seq<bool>, b: seq<bool>, D: set<int>, s: int)
    requires |b| == |bits| && s >= 0 && 0 in D
    requires forall i | 0 <= i < |b| :: b[i] == AllIn(bits, i, D)
    ensures forall i | 0 <= i < |b| :: ShiftAnd(b, s)[i] == AllIn(bits, i, D + set d | d in D :: d + s)
  {
    var D' := D + set d | d in D :: d + s;
    forall i | 0 <= i < |b|
      ensures ShiftAnd(b, s)[i] == AllIn(bits, i, D')
    {
      if i + s < |b| {
        assert b[i + s] == AllIn(bits, i + s, D);
        if AllIn(bits, i, D) && AllIn(bits, i + s, D) {
          forall d | d in D'
            ensures 0 <= i + d < |bits| && bits[i + d]
          {
            if d !in D {
              var e :| e in D && d == e + s;
              assert 0 <= i + s + e < |bits| && bits[i + s + e];
            }
          }
        }
        if AllIn(bits, i, D') {
          forall e | e in D
            ensures 0 <= i + s + e < |bits| && bits[i + s + e]
          {
            assert e + s in D';
          }
        }
      } else {
        assert 0 + s in D';
      }
    }
  }

  /** findNBits(bits, n): the first index of a run of at least n set bits
      (runs do not wrap past bit 63), or -1; n <= 1 finds the first set bit. */
  method FindNBits(bits: seq<bool>, n: int) returns (r: int)
    requires |bits| == GroupSize
    ensures r == FirstRun(bits, Max(n, 1))
  {
    ghost var N := Max(n, 1);
    ghost var D: set<int> := {0};
    var b := bits;
    var m := n;
    while m > 1
      invariant |b| == GroupSize && (m < 1 ==> m == n) && (n >= 1 ==> m >= 1)
      invariant Covers(D, Max(m, 1), N)
      invariant forall i | 0 <= i < |b| :: b[i] == AllIn(bits, i, D)
    {
      var s := m / 2;
      CoversStep(D, m, N, s);
      ShiftAndAllIn(bits, b, D, s);
      b := ShiftAnd(b, s);
      D := D + set d | d in D :: d + s;
      m := m - s;
    }
    forall i | 0 <= i < |b|
      ensures b[i] == RunAt(bits, i, N)
    {
      CoversDone(bits, D, N, i);
    }
    assert b == Runs(bits, N);
    r := FirstTrue(b);
  }

  // ---------------------------------------------------------------------
  // Ranges of slabs and the words that hold them

  /** Slabs a to b - 1 all free (bits clear). */
  predicate AllClear(s: seq<bool>, a: int, b: int)
  {
    0 <= a <= b <= |s| && forall k | a <= k < b :: !s[k]
  }

  /** Slabs a to b - 1 all taken (bits set). */
  predicate AllSet(s: seq<bool>, a: int, b: int)
  {
    0 <= a <= b <= |s| && forall k | a <= k < b :: s[k]
  }

  /** Slabs a to b - 1 set to v, the others as they were. */
  function Assign(s: seq<bool>, a: int, b: int, v: bool): (r: seq<bool>)
    ensures |r| == |s|
  {
    seq(|s|, k requires 0 <= k < |s| => if a <= k < b then v else s[k])
  }

  /** Setting a clear range (clearing a set one) moves the count by its length. */
  lemma {:induction false} CountAssign(s: seq<bool>, a: int, b: int, v: bool)
    requires 0 <= a <= b <= |s| && forall k | a <= k < b :: s[k] == !v
    ensures CountTrue(Assign(s, a, b, v)) == CountTrue(s) + (if v then b - a else a - b)
  {
    if s != [] {
      var last := |s| - 1;
      if b == |s| && a < b {
        assert Assign(s, a, b, v)[..last] == Assign(s[..last], a, last, v);
        CountAssign(s[..last], a, last, v);
      } else if b < |s| {
        assert Assign(s, a, b, v)[..last] == Assign(s[..last], a, b, v);
        CountAssign(s[..last], a, b, v);
      } else {
        assert Assign(s, a, b, v) == s;
      }
    }
  }

  /** Word g of a zone: slabs 64 g to 64 g + 63. */
  function Word(s: seq<bool>, g: int): (r: seq<bool>)
    requires 0 <= g && g * 64 + 64 <= |s|
    ensures |r| == GroupSize && forall i | 0 <= i < 64 :: r[i] == s[g * 64 + i]
  {
    s[g * 64..g * 64 + 64]
  }

  /** countTrailingZeros(word): the free slabs at the bottom of a word (64
      for a zero word). */
  function TrailingZeros(w: seq<bool>): (r: nat)
    ensures r <= |w| && (forall i | 0 <= i < r :: !w[i]) && (r < |w| ==> w[r])
  {
    if w == [] || w[0] then 0
    else
      var t := TrailingZeros(w[1..]);
      assert forall i | 1 <= i < |w| :: w[i] == w[1..][i - 1];
      t + 1
  }

  /** countLeadingZeros(word): the free slabs at the top of a word (64 for a
      zero word). */
  function LeadingZeros(w: seq<bool>): (r: nat)
    ensures r <= |w| && (forall i | |w| - r <= i < |w| :: !w[i]) && (r < |w| ==> w[|w| - 1 - r])
  {
    if w == [] || w[|w| - 1] then 0
    else
      var t := LeadingZeros(w[..|w| - 1]);
      t + 1
  }

  /** ~0ull >> k as the processor computes it, the count taken mod 64 (so a
      shift by 64, which C++ leaves undefined, keeps every bit). */
  function OnesShiftedRight(k: int): (r: seq<bool>)
    requires 0 <= k <= 64
    ensures |r| == GroupSize
  {
    var c := k % 64;
    seq(64, i => i < 64 - c)
  }

  /** mask << k, truncated to 64 bits. */
  function ShiftLeft(mask: seq<bool>, k: int): (r: seq<bool>)
    requires |mask| == GroupSize && 0 <= k < 64
    ensures |r| == GroupSize
  {
    seq(64, i requires 0 <= i < 64 => i >= k && mask[i - k])
  }

  /** groups[g] |= mask (v true) or groups[g] &= ~mask (v false). */
  function ApplyWord(s: seq<bool>, g: int, mask: seq<bool>, v: bool): (r: seq<bool>)
    requires |mask| == GroupSize && 0 <= g && g * 64 + 64 <= |s|
    ensures |r| == |s|
  {
    seq(|s|, k requires 0 <= k < |s| => if g * 64 <= k < g * 64 + 64 && mask[k - g * 64] then v else s[k])
  }

  /** A mask of bits lo to hi - 1 applied to word g is a range assignment. */
  lemma ApplyWordRange(s: seq<bool>, g: int, mask: seq<bool>, v: bool, lo: int, hi: int)
    requires |mask| == GroupSize && 0 <= g && g * 64 + 64 <= |s| && 0 <= lo <= hi <= 64
    requires forall i | 0 <= i < 64 :: mask[i] == (lo <= i < hi)
    ensures ApplyWord(s, g, mask, v) == Assign(s, g * 64 + lo, g * 64 + hi, v)
  {
    var r := ApplyWord(s, g, mask, v);
    forall k | 0 <= k < |s|
      ensures r[k] == Assign(s, g * 64 + lo, g * 64 + hi, v)[k]
    {
      if g * 64 <= k < g * 64 + 64 {
        assert mask[k - g * 64] == (lo <= k - g * 64 < hi);
      }
    }
  }

  /** first_bits = (~0ull >> max(0, 64 - n)) << first_offset: bits
      first_offset to first_offset + n - 1, as far as the word goes. */
  lemma FirstBits(mask: seq<bool>, n: int, firstOffset: int)
    requires n >= 1 && 0 <= firstOffset < 64
    requires mask == ShiftLeft(OnesShiftedRight(Max(0, 64 - n)), firstOffset)
    ensures forall i | 0 <= i < 64 :: mask[i] == (firstOffset <= i < Min(firstOffset + n, 64))
  {
    var ones := OnesShiftedRight(Max(0, 64 - n));
    forall i | 0 <= i < 64
      ensures mask[i] == (firstOffset <= i < Min(firstOffset + n, 64))
    {
      if i >= firstOffset {
        assert mask[i] == ones[i - firstOffset];
      }
    }
  }

  /** last_bits = ~0ull >> (64 - num_last_bits): the low num_last_bits bits,
      all 64 when num_last_bits is 0. */
  lemma LastBits(mask: seq<bool>, numLastBits: int)
    requires 0 <= numLastBits < 64 && mask == OnesShiftedRight(64 - numLastBits)
    ensures forall i | 0 <= i < 64 :: mask[i] == (i < (if numLastBits == 0 then 64 else numLastBits))
  {
  }

  /** An empty range changes nothing. */
  lemma AssignEmpty(s: seq<bool>, a: int, v: bool)
    ensures Assign(s, a, a, v) == s
  {
  }

  /** Two adjacent range assignments of the same value are one. */
  lemma AssignAdjacent(s: seq<bool>, a: int, b: int, c: int, v: bool)
    requires a <= b <= c
    ensures Assign(Assign(s, a, b, v), b, c, v) == Assign(s, a, c, v)
  {
  }

  /** The three pieces fillSlabs writes make up the whole range. */
  lemma AssignPieces(s: seq<bool>, a: int, b: int, c: int, d: int, v: bool)
    requires a <= b <= c <= d
    ensures Assign(Assign(Assign(s, a, b, v), c, d, v), b, c, v) == Assign(s, a, d, v)
  {
  }

  /** groups[g] = v ? ~0ull : 0. */
  function SetWord(s: seq<bool>, g: int, v: bool): (r: seq<bool>)
    requires 0 <= g && g * 64 + 64 <= |s|
    ensures |r| == |s|
  {
    Assign(s, g * 64, g * 64 + 64, v)
  }

  /** (group_bits >> (groups - count)) << shift: the count flags from shift on. */
  function GroupMask(groups: int, count: int, shift: int): (r: seq<bool>)
    requires groups >= 0
    ensures |r| == groups
  {
    seq(groups, g => shift <= g < shift + count)
  }

  function AndNot(a: seq<bool>, b: seq<bool>): (r: seq<bool>)
    requires |a| == |b|
    ensures |r| == |a|
  {
    seq(|a|, i requires 0 <= i < |a| => a[i] && !b[i])
  }

  function Or(a: seq<bool>, b: seq<bool>): (r: seq<bool>)
    requires |a| == |b|
    ensures |r| == |a|
  {
    seq(|a|, i requires 0 <= i < |a| => a[i] || b[i])
  }

  // ---------------------------------------------------------------------
  // Zones

  /** num_free_slabs and the empty/full group flags of one zone. */
  datatype Zone = Zone(numFreeSlabs: int, emptyGroups: seq<bool>, fullGroups: seq<bool>)

  ghost predicate ZoneShape(zone: Zone, s: seq<bool>, groups: int)
  {
    groups >= 1 && |s| == groups * 64 && |zone.emptyGroups| == groups && |zone.fullGroups| == groups
  }

  /** What verifySlabs checks for one zone: each group is flagged empty
      exactly when its word is zero and full exactly when its word is all
      ones, and the free count is the slab count minus the set bits. */
  ghost predicate ZoneValid(zone: Zone, s: seq<bool>, groups: int)
  {
    ZoneShape(zone, s, groups) &&
    (forall g | 0 <= g < groups :: FlagsMatch(zone, s, g)) &&
    zone.numFreeSlabs == groups * 64 - CountTrue(s)
  }

  /** Group g is flagged empty exactly when its word is zero, full exactly
      when it is all ones. */
  ghost predicate FlagsMatch(zone: Zone, s: seq<bool>, g: int)
    requires 0 <= g < |zone.emptyGroups| == |zone.fullGroups| && g * 64 + 64 <= |s|
  {
    zone.emptyGroups[g] == AllClear(s, g * 64, g * 64 + 64) &&
    zone.fullGroups[g] == AllSet(s, g * 64, g * 64 + 64)
  }

  /** The flags and the count follow from the bits. */
  lemma ZoneDetermined(z1: Zone, z2: Zone, s: seq<bool>, groups: int)
    requires ZoneValid(z1, s, groups) && ZoneValid(z2, s, groups)
    ensures z1 == z2
  {
    forall g | 0 <= g < groups
      ensures z1.emptyGroups[g] == z2.emptyGroups[g] && z1.fullGroups[g] == z2.fullGroups[g]
    {
      assert FlagsMatch(z1, s, g) && FlagsMatch(z2, s, g);
    }
    assert z1.emptyGroups == z2.emptyGroups;
    assert z1.fullGroups == z2.fullGroups;
  }

  /** The zone after fillSlabs(offset, n), given its new bits s. */
  function FilledZone(zone: Zone, s: seq<bool>, offset: int, n: int): Zone
    requires ZoneShape(zone, s, |zone.emptyGroups|) && 0 <= offset && n >= 1 && offset + n <= |s|
  {
    var groups := |zone.emptyGroups|;
    var first, last := offset / 64, (offset + n - 1) / 64;
    var numGroups := last - first + 1;
    var fullBits := GroupMask(groups, Max(numGroups - 2, 0), first + 1);
    var fullBits := if AllSet(s, first * 64, first * 64 + 64) then fullBits[first := true] else fullBits;
    var fullBits := if AllSet(s, last * 64, last * 64 + 64) then fullBits[last := true] else fullBits;
    Zone(zone.numFreeSlabs - n,
         AndNot(zone.emptyGroups, GroupMask(groups, numGroups, first)),
         Or(zone.fullGroups, fullBits))
  }

  /** The zone after clearSlabs(offset, n), given its new bits s. */
  function ClearedZone(zone: Zone, s: seq<bool>, offset: int, n: int): Zone
    requires ZoneShape(zone, s, |zone.emptyGroups|) && 0 <= offset && n >= 1 && offset + n <= |s|
  {
    var groups := |zone.emptyGroups|;
    var first, last := offset / 64, (offset + n - 1) / 64;
    var numGroups := last - first + 1;
    var emptyBits := GroupMask(groups, Max(numGroups - 2, 0), first + 1);
    var emptyBits := if AllClear(s, first * 64, first * 64 + 64) then emptyBits[first := true] else emptyBits;
    var emptyBits := if AllClear(s, last * 64, last * 64 + 64) then emptyBits[last := true] else emptyBits;
    Zone(zone.numFreeSlabs + n,
         Or(zone.emptyGroups, emptyBits),
         AndNot(zone.fullGroups, GroupMask(groups, numGroups, first)))
  }

  /** How group g lies against the range offset .. offset + n - 1: groups
      first to last meet it (at slab Max(offset, 64 g)), the ones strictly
      between lie inside it, the rest are apart from it. */
  lemma GroupAgainstRange(offset: int, n: int, g: int)
    requires 0 <= offset && n >= 1 && g >= 0
    ensures var first, last := offset / 64, (offset + n - 1) / 64;
      first * 64 <= offset && offset + n <= last * 64 + 64 && first <= last &&
      (first <= g <= last ==> offset <= Max(offset, g * 64) < offset + n && g * 64 <= Max(offset, g * 64) < g * 64 + 64) &&
      (first < g < last ==> offset <= g * 64 && g * 64 + 64 <= offset + n) &&
      (g < first || g > last ==> g * 64 + 64 <= offset || offset + n <= g * 64)
  {
  }

  /** The flags FilledZone gives group g. */
  lemma FilledFlags(zone: Zone, s: seq<bool>, offset: int, n: int, g: int)
    requires ZoneShape(zone, s, |zone.emptyGroups|) && 0 <= offset && n >= 1 && offset + n <= |s|
    requires 0 <= g < |zone.emptyGroups|
    ensures var first, last := offset / 64, (offset + n - 1) / 64;
      FilledZone(zone, s, offset, n).emptyGroups[g] == (zone.emptyGroups[g] && !(first <= g <= last)) &&
      FilledZone(zone, s, offset, n).fullGroups[g] ==
        (zone.fullGroups[g] || first < g < last || ((g == first || g == last) && AllSet(s, g * 64, g * 64 + 64)))
  {
  }

  /** The flags ClearedZone gives group g. */
  lemma ClearedFlags(zone: Zone, s: seq<bool>, offset: int, n: int, g: int)
    requires ZoneShape(zone, s, |zone.emptyGroups|) && 0 <= offset && n >= 1 && offset + n <= |s|
    requires 0 <= g < |zone.emptyGroups|
    ensures var first, last := offset / 64, (offset + n - 1) / 64;
      ClearedZone(zone, s, offset, n).fullGroups[g] == (zone.fullGroups[g] && !(first <= g <= last)) &&
      ClearedZone(zone, s, offset, n).emptyGroups[g] ==
        (zone.emptyGroups[g] || first < g < last || ((g == first || g == last) && AllClear(s, g * 64, g * 64 + 64)))
  {
  }

  /** Group g of the bits after Assign(s, offset, offset + n, v), the range
      holding !v before: untouched outside the range, uniform inside it, and
      where it meets the range no longer uniformly !v, nor uniformly v before. */
  lemma AssignGroup(s: seq<bool>, offset: int, n: int, v: bool, g: int)
    requires 0 <= offset && n >= 1 && offset + n <= |s| && 0 <= g && g * 64 + 64 <= |s|
    requires forall k | offset <= k < offset + n :: s[k] == !v
    ensures var s', first, last := Assign(s, offset, offset + n, v), offset / 64, (offset + n - 1) / 64;
      (g < first || g > last ==>
        AllClear(s', g * 64, g * 64 + 64) == AllClear(s, g * 64, g * 64 + 64) &&
        AllSet(s', g * 64, g * 64 + 64) == AllSet(s, g * 64, g * 64 + 64)) &&
      (first < g < last ==> if v then AllSet(s', g * 64, g * 64 + 64) else AllClear(s', g * 64, g * 64 + 64)) &&
      (first <= g <= last ==>
        if v then !AllClear(s', g * 64, g * 64 + 64) && !AllSet(s, g * 64, g * 64 + 64)
        else !AllSet(s', g * 64, g * 64 + 64) && !AllClear(s, g * 64, g * 64 + 64))
  {
    GroupAgainstRange(offset, n, g);
    var s' := Assign(s, offset, offset + n, v);
    assert forall k | 0 <= k < |s| && !(offset <= k < offset + n) :: s'[k] == s[k];
    var first, last := offset / 64, (offset + n - 1) / 64;
    if first <= g <= last {
      var k := Max(offset, g * 64);
      assert s'[k] == v && s[k] == !v;
    }
  }

  /** fillSlabs on free slabs keeps the verifySlabs invariant. */
  lemma FillKeepsZoneValid(zone: Zone, s: seq<bool>, groups: int, offset: int, n: int)
    requires ZoneValid(zone, s, groups) && 0 <= offset && n >= 1 && offset + n <= |s|
    requires AllClear(s, offset, offset + n)
    ensures ZoneValid(FilledZone(zone, Assign(s, offset, offset + n, true), offset, n), Assign(s, offset, offset + n, true), groups)
  {
    var s' := Assign(s, offset, offset + n, true);
    var z' := FilledZone(zone, s', offset, n);
    forall g | 0 <= g < groups
      ensures FlagsMatch(z', s', g)
    {
      assert FlagsMatch(zone, s, g);
      FilledFlags(zone, s', offset, n, g);
      AssignGroup(s, offset, n, true, g);
      hide AllClear, AllSet, FilledZone, Assign;
    }
    CountAssign(s, offset, offset + n, true);
  }

  /** clearSlabs on taken slabs keeps the verifySlabs invariant. */
  lemma ClearKeepsZoneValid(zone: Zone, s: seq<bool>, groups: int, offset: int, n: int)
    requires ZoneValid(zone, s, groups) && 0 <= offset && n >= 1 && offset + n <= |s|
    requires AllSet(s, offset, offset + n)
    ensures ZoneValid(ClearedZone(zone, Assign(s, offset, offset + n, false), offset, n), Assign(s, offset, offset + n, false), groups)
  {
    var s' := Assign(s, offset, offset + n, false);
    var z' := ClearedZone(zone, s', offset, n);
    forall g | 0 <= g < groups
      ensures FlagsMatch(z', s', g)
    {
      assert FlagsMatch(zone, s, g);
      ClearedFlags(zone, s', offset, n, g);
      AssignGroup(s, offset, n, false, g);
      hide AllClear, AllSet, ClearedZone, Assign;
    }
    CountAssign(s, offset, offset + n, false);
  }

  /** clearSlabs undoes fillSlabs: the bits, the flags and the free count
      all return to what they were. */
  lemma ClearUndoesFill(zone: Zone, s: seq<bool>, groups: int, offset: int, n: int)
    requires ZoneValid(zone, s, groups) && 0 <= offset && n >= 1 && offset + n <= |s|
    requires AllClear(s, offset, offset + n)
    ensures var s' := Assign(s, offset, offset + n, true);
      Assign(s', offset, offset + n, false) == s &&
      ClearedZone(FilledZone(zone, s', offset, n), s, offset, n) == zone
  {
    var s' := Assign(s, offset, offset + n, true);
    FillKeepsZoneValid(zone, s, groups, offset, n);
    var z' := FilledZone(zone, s', offset, n);
    assert Assign(s', offset, offset + n, false) == s;
    ClearKeepsZoneValid(z', s', groups, offset, n);
    ZoneDetermined(ClearedZone(z', s, offset, n), zone, s, groups);
  }

  // ---------------------------------------------------------------------
  // Searching one zone (the three cases of allocSlabs)

  /** A zone with a free slab has a group not flagged full. */
  lemma NotFullGroupExists(zone: Zone, s: seq<bool>, groups: int)
    requires ZoneValid(zone, s, groups) && zone.numFreeSlabs >= 1
    ensures FirstTrue(Negate(zone.fullGroups)) >= 0
  {
    CountTrueBelow(s);
    var k :| 0 <= k < |s| && !s[k];
    var g := k / 64;
    assert FlagsMatch(zone, s, g);
    assert !AllSet(s, g * 64, g * 64 + 64);
    assert Negate(zone.fullGroups)[g];
  }

  /** A run of n clear bits in word g is a run of free slabs of the zone. */
  lemma WordRunIsFree(s: seq<bool>, g: int, off: int, n: int)
    requires 0 <= g && g * 64 + 64 <= |s| && n >= 1
    requires RunAt(Negate(Word(s, g)), off, n)
    ensures AllClear(s, g * 64 + off, g * 64 + off + n)
  {
    forall k | g * 64 + off <= k < g * 64 + off + n
      ensures !s[k]
    {
      assert Negate(Word(s, g))[k - g * 64];
    }
  }

  /** n free slabs in a row from slab o of the zone. */
  predicate FreeAt(s: seq<bool>, o: int, n: int)
  {
    AllClear(s, o, o + n)
  }

  /** The first slab from which n slabs in a row are free, or -1 when the
      zone holds no such run: where allocSlabs places n slabs in a zone. */
  function FirstFit(s: seq<bool>, n: int): (r: int)
    requires n >= 1
    ensures -1 <= r < |s|
    ensures r >= 0 ==> FreeAt(s, r, n)
    ensures forall o | 0 <= o < |s| && (r == -1 || o < r) :: !FreeAt(s, o, n)
  {
    var fits := seq(|s|, o => FreeAt(s, o, n));
    assert forall o | 0 <= o < |s| :: fits[o] == FreeAt(s, o, n);
    FirstTrue(fits)
  }

  /** A run from r with none before it is the first fit; no run at all
      gives -1. */
  lemma FirstFitIs(s: seq<bool>, n: int, r: int)
    requires n >= 1 && -1 <= r
    requires r >= 0 ==> FreeAt(s, r, n)
    requires forall o | 0 <= o < |s| && (r == -1 || o < r) :: !FreeAt(s, o, n)
    ensures FirstFit(s, n) == r
  {
  }

  /** A zone with a run of n free slabs holds at least n free slabs: the
      zones allocSlabs skips for their free count have no run either. */
  lemma FitNeedsFree(zone: Zone, s: seq<bool>, groups: int, n: int)
    requires ZoneValid(zone, s, groups) && n >= 1 && FirstFit(s, n) != -1
    ensures zone.numFreeSlabs >= n
  {
    var o := FirstFit(s, n);
    CountAssign(s, o, o + n, true);
  }

  /** A run of free slabs inside word g is a run of clear bits of the word. */
  lemma InWord(s: seq<bool>, g: int, o: int, n: int)
    requires 0 <= g && g * 64 + 64 <= |s| && g * 64 <= o && o + n <= g * 64 + 64
    requires FreeAt(s, o, n)
    ensures RunAt(Negate(Word(s, g)), o - g * 64, n)
  {
    forall k | o - g * 64 <= k < o - g * 64 + n
      ensures Negate(Word(s, g))[k]
    {
      assert !s[g * 64 + k];
    }
  }

  /** A run of free slabs from inside word g past its end: the word has at
      least the run's part of it as leading zeros. */
  lemma AcrossWord(s: seq<bool>, g: int, o: int, n: int)
    requires 0 <= g && g * 64 + 64 <= |s| && g * 64 <= o < g * 64 + 64 < o + n
    requires FreeAt(s, o, n)
    ensures LeadingZeros(Word(s, g)) >= g * 64 + 64 - o
  {
    var w := Word(s, g);
    forall i | o - g * 64 <= i < 64
      ensures !w[i]
    {
      assert !s[g * 64 + i];
    }
  }

  /** Free slabs from the start of word j on: the word has at least that
      many trailing zeros (all 64 when they cover it). */
  lemma IntoWord(s: seq<bool>, j: int, e: int)
    requires 0 <= j && j * 64 + 64 <= |s| && j * 64 <= e && AllClear(s, j * 64, e)
    ensures TrailingZeros(Word(s, j)) >= Min(e - j * 64, 64)
  {
    var w := Word(s, j);
    forall i | 0 <= i < Min(e - j * 64, 64)
      ensures !w[i]
    {
      assert !s[j * 64 + i];
    }
  }

  /** The single-slab case: the first free bit of the first group not
      flagged full, which is the first free slab of the zone. */
  method FindOne(s: seq<bool>, zone: Zone, groups: int) returns (offset: int)
    requires ZoneValid(zone, s, groups) && zone.numFreeSlabs >= 1
    ensures 0 <= offset < |s| && !s[offset]
    ensures forall k | 0 <= k < offset :: s[k]
    ensures offset == FirstFit(s, 1)
  {
    NotFullGroupExists(zone, s, groups);
    var firstGroup := FirstTrue(Negate(zone.fullGroups));
    assert FlagsMatch(zone, s, firstGroup);
    assert !AllSet(s, firstGroup * 64, firstGroup * 64 + 64);
    ghost var k :| firstGroup * 64 <= k < firstGroup * 64 + 64 && !s[k];
    assert Negate(Word(s, firstGroup))[k - firstGroup * 64];
    var firstBit := FirstTrue(Negate(Word(s, firstGroup)));
    offset := firstGroup * 64 + firstBit;
    forall j | 0 <= j < offset
      ensures s[j]
    {
      if j < firstGroup * 64 {
        var g := j / 64;
        assert !Negate(zone.fullGroups)[g];
        assert FlagsMatch(zone, s, g);
      } else {
        assert !Negate(Word(s, firstGroup))[j - firstGroup * 64];
      }
    }
    FirstFreeFits(s, offset);
  }

  /** The first free slab is the first fit of a single slab. */
  lemma FirstFreeFits(s: seq<bool>, offset: int)
    requires 0 <= offset < |s| && !s[offset] && forall k | 0 <= k < offset :: s[k]
    ensures offset == FirstFit(s, 1)
  {
    forall o | 0 <= o < |s| && o < offset
      ensures !FreeAt(s, o, 1)
    {
      assert s[o];
    }
    FirstFitIs(s, 1, offset);
  }

  /** The words before the first one not flagged full hold no free slab. */
  lemma BeforeFirstGroup(zone: Zone, s: seq<bool>, groups: int, n: int)
    requires ZoneValid(zone, s, groups) && n >= 1 && FirstTrue(Negate(zone.fullGroups)) >= 0
    ensures forall o | 0 <= o < |s| && o < FirstTrue(Negate(zone.fullGroups)) * 64 :: !FreeAt(s, o, n)
  {
    var first := FirstTrue(Negate(zone.fullGroups));
    forall o | 0 <= o < |s| && o < first * 64
      ensures !FreeAt(s, o, n)
    {
      var g := o / 64;
      assert !Negate(zone.fullGroups)[g];
      assert FlagsMatch(zone, s, g);
      assert s[o];
    }
  }

  /** A word with every slab taken starts no free run. */
  lemma FullWord(s: seq<bool>, g: int, n: int)
    requires 0 <= g && g * 64 + 64 <= |s| && n >= 1 && AllSet(s, g * 64, g * 64 + 64)
    ensures forall o | g * 64 <= o < g * 64 + 64 :: !FreeAt(s, o, n)
  {
    forall o | g * 64 <= o < g * 64 + 64
      ensures !FreeAt(s, o, n)
    {
      assert s[o];
    }
  }

  /** With no run of n clear bits inside word g, no run of n free slabs
      starts in the word below its top free slabs. */
  lemma BelowTop(s: seq<bool>, g: int, n: int)
    requires 0 <= g && g * 64 + 64 <= |s| && 1 <= n <= 64
    requires FirstRun(Negate(Word(s, g)), n) == -1
    ensures forall o | g * 64 <= o < g * 64 + 64 - LeadingZeros(Word(s, g)) :: !FreeAt(s, o, n)
  {
    FirstRunMeaning(Negate(Word(s, g)), n);
    forall o | g * 64 <= o < g * 64 + 64 - LeadingZeros(Word(s, g))
      ensures !FreeAt(s, o, n)
    {
      if FreeAt(s, o, n) {
        if o + n <= g * 64 + 64 {
          InWord(s, g, o, n);
        } else {
          AcrossWord(s, g, o, n);
        }
      }
    }
  }

  /** findNBits' run inside word g is the first run of n free slabs that
      starts in the word. */
  lemma InWordFirst(s: seq<bool>, g: int, n: int)
    requires 0 <= g && g * 64 + 64 <= |s| && 1 <= n <= 64
    requires FirstRun(Negate(Word(s, g)), n) != -1
    ensures forall o | g * 64 <= o < g * 64 + FirstRun(Negate(Word(s, g)), n) :: !FreeAt(s, o, n)
  {
    var off := FirstRun(Negate(Word(s, g)), n);
    FirstRunMeaning(Negate(Word(s, g)), n);
    forall o | g * 64 <= o < g * 64 + off
      ensures !FreeAt(s, o, n)
    {
      if FreeAt(s, o, n) && o + n <= g * 64 + 64 {
        InWord(s, g, o, n);
      }
    }
  }

  /** FindShort's pass over word g found neither a run inside it nor one
      across the boundary: no run of n free slabs starts in the word. */
  lemma ShortWordEmpty(s: seq<bool>, groups: int, g: int, n: int)
    requires |s| == groups * 64 && 0 <= g < groups && 2 <= n <= 64
    requires FirstRun(Negate(Word(s, g)), n) == -1
    requires g + 1 < groups ==> LeadingZeros(Word(s, g)) + TrailingZeros(Word(s, g + 1)) < n
    ensures forall o | g * 64 <= o < g * 64 + 64 :: !FreeAt(s, o, n)
  {
    BelowTop(s, g, n);
    FirstRunMeaning(Negate(Word(s, g)), n);
    forall o | g * 64 + 64 - LeadingZeros(Word(s, g)) <= o < g * 64 + 64
      ensures !FreeAt(s, o, n)
    {
      if FreeAt(s, o, n) {
        if o + n <= g * 64 + 64 {
          InWord(s, g, o, n);
        } else {
          AcrossWord(s, g, o, n);
          IntoWord(s, g + 1, o + n);
        }
      }
    }
  }

  /** The case 2 <= n <= 64: a run inside one word (findNBits on the clear
      bits), else one across the boundary with the next word; the first
      fit of the zone. */
  method FindShort(s: seq<bool>, zone: Zone, groups: int, n: int) returns (offset: int)
    requires ZoneValid(zone, s, groups) && 2 <= n <= 64 && zone.numFreeSlabs >= n
    ensures offset == FirstFit(s, n)
  {
    NotFullGroupExists(zone, s, groups);
    var g := FirstTrue(Negate(zone.fullGroups));
    BeforeFirstGroup(zone, s, groups, n);
    while g < groups
      invariant 0 <= g <= groups
      invariant forall o | 0 <= o < |s| && o < g * 64 :: !FreeAt(s, o, n)
    {
      if AllSet(s, g * 64, g * 64 + 64) {
        FullWord(s, g, n);
        g := g + 1;
        continue;
      }
      var off := FindNBits(Negate(Word(s, g)), n);
      if off != -1 {
        FirstRunMeaning(Negate(Word(s, g)), n);
        WordRunIsFree(s, g, off, n);
        InWordFirst(s, g, n);
      }
      if off == -1 && g + 1 < groups {
        var curSpace := LeadingZeros(Word(s, g));
        var nextSpace := TrailingZeros(Word(s, g + 1));
        if curSpace + nextSpace >= n {
          off := 64 - curSpace;
          forall k | g * 64 + off <= k < g * 64 + off + n
            ensures !s[k]
          {
            if k < g * 64 + 64 {
              assert !Word(s, g)[k - g * 64];
            } else {
              assert !Word(s, g + 1)[k - g * 64 - 64];
            }
          }
          BelowTop(s, g, n);
        }
      }
      if off != -1 {
        FirstFitIs(s, n, g * 64 + off);
        return g * 64 + off;
      }
      ShortWordEmpty(s, groups, g, n);
      g := g + 1;
    }
    FirstFitIs(s, n, -1);
    return -1;
  }

  /** The free slabs from 64 g + 64 - curSpace on through the following
      words: whole free words are added up until a word that is not
      (counting its bottom free slabs), or until n is reached. When n slabs
      from there are free, the count reaches n. */
  method SpanAfter(s: seq<bool>, groups: int, g: int, curSpace: int, n: int) returns (totalSpace: int)
    requires |s| == groups * 64 && 0 <= g < groups && 0 <= curSpace <= 64 && curSpace < n
    requires AllClear(s, g * 64 + 64 - curSpace, g * 64 + 64)
    ensures g * 64 + 64 - curSpace + totalSpace <= |s|
    ensures AllClear(s, g * 64 + 64 - curSpace, g * 64 + 64 - curSpace + totalSpace)
    ensures FreeAt(s, g * 64 + 64 - curSpace, n) ==> totalSpace >= n
  {
    ghost var start := g * 64 + 64 - curSpace;
    totalSpace := curSpace;
    var j := g + 1;
    while j < groups
      invariant g < j <= groups && start + totalSpace == j * 64 && totalSpace < n
      invariant AllClear(s, start, j * 64)
    {
      var space := TrailingZeros(Word(s, j));
      forall k | j * 64 <= k < j * 64 + space
        ensures !s[k]
      {
        assert !Word(s, j)[k - j * 64];
      }
      if FreeAt(s, start, n) {
        IntoWord(s, j, start + n);
      }
      totalSpace := totalSpace + space;
      if space < 64 || totalSpace >= n {
        return;
      }
      j := j + 1;
    }
  }

  /** The case n > 64: a run that starts in the top free slabs of a word
      and runs on through the next ones; the first fit of the zone. */
  method FindLong(s: seq<bool>, zone: Zone, groups: int, n: int) returns (offset: int)
    requires ZoneValid(zone, s, groups) && n > 64 && zone.numFreeSlabs >= n
    ensures offset == FirstFit(s, n)
  {
    NotFullGroupExists(zone, s, groups);
    var g := FirstTrue(Negate(zone.fullGroups));
    BeforeFirstGroup(zone, s, groups, n);
    while g < groups
      invariant 0 <= g <= groups
      invariant forall o | 0 <= o < |s| && o < g * 64 :: !FreeAt(s, o, n)
    {
      if AllSet(s, g * 64, g * 64 + 64) {
        FullWord(s, g, n);
        g := g + 1;
        continue;
      }
      var curSpace := LeadingZeros(Word(s, g));
      forall k | g * 64 + 64 - curSpace <= k < g * 64 + 64
        ensures !s[k]
      {
        assert !Word(s, g)[k - g * 64];
      }
      var totalSpace := SpanAfter(s, groups, g, curSpace, n);
      LongWord(s, g, n);
      if totalSpace >= n {
        FirstFitIs(s, n, g * 64 + 64 - curSpace);
        return g * 64 + 64 - curSpace;
      }
      g := g + 1;
    }
    FirstFitIs(s, n, -1);
    return -1;
  }

  /** For n > 64 a run of n free slabs starting in word g starts in its top
      free slabs, and then one starts where they start. */
  lemma LongWord(s: seq<bool>, g: int, n: int)
    requires 0 <= g && g * 64 + 64 <= |s| && n > 64
    ensures var start := g * 64 + 64 - LeadingZeros(Word(s, g));
      (forall o | g * 64 <= o < start :: !FreeAt(s, o, n)) &&
      ((exists o | start <= o < g * 64 + 64 :: FreeAt(s, o, n)) ==> FreeAt(s, start, n))
  {
    var start := g * 64 + 64 - LeadingZeros(Word(s, g));
    forall o | g * 64 <= o < start
      ensures !FreeAt(s, o, n)
    {
      if FreeAt(s, o, n) {
        AcrossWord(s, g, o, n);
      }
    }
    if o :| start <= o < g * 64 + 64 && FreeAt(s, o, n) {
      forall k | start <= k < start + n
        ensures !s[k]
      {
        if k < g * 64 + 64 {
          assert !Word(s, g)[k - g * 64];
        }
      }
    }
  }

  /** allocSlabs' search: the first zone with a run of n free slabs, at its
      first fit, or (-1, -1) when no zone has one. */
  method FindPlace(zones: seq<Zone>, groupBits: seq<seq<bool>>, groups: int, n: int) returns (zoneId: int, offset: int)
    requires |groupBits| == |zones| && n >= 1
    requires forall z | 0 <= z < |zones| :: ZoneValid(zones[z], groupBits[z], groups)
    ensures -1 <= zoneId < |zones|
    ensures zoneId == -1 ==> offset == -1
    ensures zoneId != -1 ==> offset == FirstFit(groupBits[zoneId], n) != -1
    ensures forall z | 0 <= z < |zones| && (zoneId == -1 || z < zoneId) :: FirstFit(groupBits[z], n) == -1
  {
    var i := 0;
    while i < |zones|
      invariant 0 <= i <= |zones|
      invariant forall z | 0 <= z < i :: FirstFit(groupBits[z], n) == -1
    {
      var zone := zones[i];
      if zone.numFreeSlabs < n {
        if FirstFit(groupBits[i], n) != -1 {
          FitNeedsFree(zone, groupBits[i], groups, n);
        }
        i := i + 1;
        continue;
      }
      var off;
      if n == 1 {
        off := FindOne(groupBits[i], zone, groups);
      } else if n <= 64 {
        off := FindShort(groupBits[i], zone, groups, n);
      } else {
        off := FindLong(groupBits[i], zone, groups, n);
      }
      if off != -1 {
        return i, off;
      }
      i := i + 1;
    }
    return -1, -1;
  }

  // ---------------------------------------------------------------------
  // verifySlabs

  /** Counting the bits word by word. */
  lemma PrefixCount(s: seq<bool>, g: int)
    requires 0 <= g && g * 64 + 64 <= |s|
    ensures CountTrue(s[..g * 64 + 64]) == CountTrue(s[..g * 64]) + CountTrue(Word(s, g))
  {
    assert s[..g * 64 + 64] == s[..g * 64] + Word(s, g);
    CountTrueConcat(s[..g * 64], Word(s, g));
  }

  /** The mismatch verifySlabs reports. */
  datatype SlabError =
    | EmptyFlagMismatch(zone: int, group: int)
    | FullFlagMismatch(zone: int, group: int)
    | FreeCountMismatch(zone: int, numFreeSlabs: int, expected: int)

  /** The error names a real mismatch of zone z. */
  ghost predicate Reports(e: SlabError, zone: Zone, s: seq<bool>, groups: int, z: int)
    requires ZoneShape(zone, s, groups)
  {
    e.zone == z &&
    match e
    case EmptyFlagMismatch(_, g) => 0 <= g < groups && zone.emptyGroups[g] != AllClear(s, g * 64, g * 64 + 64)
    case FullFlagMismatch(_, g) => 0 <= g < groups && zone.fullGroups[g] != AllSet(s, g * 64, g * 64 + 64)
    case FreeCountMismatch(_, found, expected) =>
      found == zone.numFreeSlabs && expected == groups * 64 - CountTrue(s) && found != expected
  }

  /** The loop of verifySlabs over one zone's groups. */
  method VerifyZone(zone: Zone, s: seq<bool>, groups: int, z: int) returns (r: Option<SlabError>)
    requires ZoneShape(zone, s, groups)
    ensures r.None? <==> ZoneValid(zone, s, groups)
    ensures r.Some? ==> Reports(r.value, zone, s, groups, z)
  {
    hide AllClear, AllSet, CountTrue, Word;
    var numSlabs := 0;
    var g := 0;
    while g < groups
      invariant 0 <= g <= groups && numSlabs == CountTrue(s[..g * 64])
      invariant forall h | 0 <= h < g :: FlagsMatch(zone, s, h)
    {
      var isEmpty := AllClear(s, g * 64, g * 64 + 64);
      var isFull := AllSet(s, g * 64, g * 64 + 64);
      PrefixCount(s, g);
      numSlabs := numSlabs + CountTrue(Word(s, g));
      if isEmpty != zone.emptyGroups[g] {
        assert !FlagsMatch(zone, s, g);
        return Some(EmptyFlagMismatch(z, g));
      }
      if isFull != zone.fullGroups[g] {
        assert !FlagsMatch(zone, s, g);
        return Some(FullFlagMismatch(z, g));
      }
      g := g + 1;
    }
    assert s[..groups * 64] == s;
    var numFreeSlabs := groups * 64 - numSlabs;
    if numFreeSlabs != zone.numFreeSlabs {
      return Some(FreeCountMismatch(z, zone.numFreeSlabs, numFreeSlabs));
    }
    return None;
  }

  // ---------------------------------------------------------------------
  // The allocator

  class SlabAllocator {
    const slabSize: int
    const zoneSize: int
    const slabsPerZone: int
    const groupsPerZone: int
    var zones: seq<Zone>
    /** m_zone_groups: for each zone, its group words end to end. */
    var groupBits: seq<seq<bool>>

    /** Every zone has its words and flags. */
    ghost predicate WellFormed()
      reads this
    {
      groupsPerZone >= 1 && slabsPerZone == groupsPerZone * 64 && |groupBits| == |zones| &&
      forall z | 0 <= z < |zones| :: ZoneShape(zones[z], groupBits[z], groupsPerZone)
    }

    /** The state verifySlabs accepts. */
    ghost predicate Valid()
      reads this
    {
      WellFormed() && forall z | 0 <= z < |zones| :: ZoneValid(zones[z], groupBits[z], groupsPerZone)
    }

    /** SlabAllocator(slab_size, zone_size): zones of zone_size / slab_size
        slabs, a whole number of 64-slab groups. */
    constructor(slabSize: int, zoneSize: int)
      requires slabSize > 0 && zoneSize > 0 && zoneSize % slabSize == 0
      requires (zoneSize / slabSize) % 64 == 0
      ensures Valid() && zones == []
      ensures slabsPerZone == zoneSize / slabSize && groupsPerZone == slabsPerZone / 64
    {
      this.slabSize := slabSize;
      this.zoneSize := zoneSize;
      slabsPerZone := zoneSize / slabSize;
      groupsPerZone := zoneSize / slabSize / 64;
      zones := [];
      groupBits := [];
    }

    /** addZone(): a new zone with every slab free and every group empty. */
    method AddZone()
      requires Valid()
      modifies this
      ensures Valid()
      ensures zones == old(zones) + [Zone(slabsPerZone, seq(groupsPerZone, _ => true), seq(groupsPerZone, _ => false))]
      ensures groupBits == old(groupBits) + [seq(slabsPerZone, _ => false)]
    {
      var newZone := Zone(slabsPerZone, seq(groupsPerZone, _ => true), seq(groupsPerZone, _ => false));
      var bits := seq(slabsPerZone, _ => false);
      CountTrueNone(bits);
      forall g | 0 <= g < groupsPerZone
        ensures !AllSet(bits, g * 64, g * 64 + 64)
      {
        assert !bits[g * 64];
      }
      assert ZoneValid(newZone, bits, groupsPerZone);
      zones := zones + [newZone];
      groupBits := groupBits + [bits];
    }

    /** fillSlabs(zone_id, offset, num_slabs): set the bits of the range word
        by word and update the zone's flags and free count. */
    method FillSlabs(zoneId: int, offset: int, numSlabs: int)
      requires WellFormed() && 0 <= zoneId < |zones|
      requires 0 <= offset && 1 <= numSlabs && offset + numSlabs <= slabsPerZone
      modifies this
      ensures WellFormed()
      ensures groupBits == old(groupBits)[zoneId := Assign(old(groupBits[zoneId]), offset, offset + numSlabs, true)]
      ensures zones == old(zones)[zoneId := FilledZone(old(zones[zoneId]), groupBits[zoneId], offset, numSlabs)]
      ensures old(Valid() && AllClear(groupBits[zoneId], offset, offset + numSlabs)) ==> Valid()
    {
      hide ZoneValid, AllClear, AllSet, Assign, GroupMask, Or, AndNot;
      var bits := WriteBits(groupBits[zoneId], offset, numSlabs, true);
      var zone := zones[zoneId];
      var first, last := offset / 64, (offset + numSlabs - 1) / 64;
      var numGroups := last - first + 1;
      var numFullGroups := Max(numGroups - 2, 0);
      var emptyGroups := AndNot(zone.emptyGroups, GroupMask(groupsPerZone, numGroups, first));
      var fullBits := GroupMask(groupsPerZone, numFullGroups, first + 1);
      if AllSet(bits, first * 64, first * 64 + 64) {
        fullBits := fullBits[first := true];
      }
      if AllSet(bits, last * 64, last * 64 + 64) {
        fullBits := fullBits[last := true];
      }
      var newZone := Zone(zone.numFreeSlabs - numSlabs, emptyGroups, Or(zone.fullGroups, fullBits));
      if Valid() && AllClear(groupBits[zoneId], offset, offset + numSlabs) {
        FillKeepsZoneValid(zone, groupBits[zoneId], groupsPerZone, offset, numSlabs);
      }
      assert newZone == FilledZone(zone, bits, offset, numSlabs);
      hide FilledZone;
      zones := zones[zoneId := newZone];
      groupBits := groupBits[zoneId := bits];
    }

    /** clearSlabs(zone_id, offset, num_slabs): clear the bits of the range
        word by word and update the zone's flags and free count. */
    method ClearSlabs(zoneId: int, offset: int, numSlabs: int)
      requires WellFormed() && 0 <= zoneId < |zones|
      requires 0 <= offset && 1 <= numSlabs && offset + numSlabs <= slabsPerZone
      modifies this
      ensures WellFormed()
      ensures groupBits == old(groupBits)[zoneId := Assign(old(groupBits[zoneId]), offset, offset + numSlabs, false)]
      ensures zones == old(zones)[zoneId := ClearedZone(old(zones[zoneId]), groupBits[zoneId], offset, numSlabs)]
      ensures old(Valid() && AllSet(groupBits[zoneId], offset, offset + numSlabs)) ==> Valid()
    {
      hide ZoneValid, AllClear, AllSet, Assign, GroupMask, Or, AndNot;
      var bits := WriteBits(groupBits[zoneId], offset, numSlabs, false);
      var zone := zones[zoneId];
      var first, last := offset / 64, (offset + numSlabs - 1) / 64;
      var numGroups := last - first + 1;
      var numFullGroups := Max(numGroups - 2, 0);
      var fullGroups := AndNot(zone.fullGroups, GroupMask(groupsPerZone, numGroups, first));
      var emptyBits := GroupMask(groupsPerZone, numFullGroups, first + 1);
      if AllClear(bits, first * 64, first * 64 + 64) {
        emptyBits := emptyBits[first := true];
      }
      if AllClear(bits, last * 64, last * 64 + 64) {
        emptyBits := emptyBits[last := true];
      }
      var newZone := Zone(zone.numFreeSlabs + numSlabs, Or(zone.emptyGroups, emptyBits), fullGroups);
      if Valid() && AllSet(groupBits[zoneId], offset, offset + numSlabs) {
        ClearKeepsZoneValid(zone, groupBits[zoneId], groupsPerZone, offset, numSlabs);
      }
      assert newZone == ClearedZone(zone, bits, offset, numSlabs);
      hide ClearedZone;
      zones := zones[zoneId := newZone];
      groupBits := groupBits[zoneId := bits];
    }

    /** allocSlabs(num_slabs): find a free run in the first zone that has
        one, or add a zone and take its first slabs; mark them taken. */
    method AllocSlabs(numSlabs: int) returns (zoneId: int, offset: int)
      requires Valid() && 1 <= numSlabs < slabsPerZone
      modifies this
      ensures Valid()
      ensures 0 <= zoneId <= old(|zones|) && 0 <= offset && offset + numSlabs <= slabsPerZone
      ensures zoneId < old(|zones|) ==>
        |zones| == old(|zones|) && old(AllClear(groupBits[zoneId], offset, offset + numSlabs))
      ensures zoneId == old(|zones|) ==> offset == 0 && |zones| == old(|zones|) + 1
      ensures groupBits == (old(groupBits) + (if zoneId == old(|zones|) then [seq(slabsPerZone, _ => false)] else []))
                           [zoneId := Assign(
                              (old(groupBits) + [seq(slabsPerZone, _ => false)])[zoneId], offset, offset + numSlabs, true)]
      ensures forall z | 0 <= z < old(|zones|) && z != zoneId :: zones[z] == old(zones[z])
      ensures zones[zoneId].numFreeSlabs ==
        (if zoneId == old(|zones|) then slabsPerZone else old(zones[zoneId].numFreeSlabs)) - numSlabs
      ensures forall z | 0 <= z < zoneId :: FirstFit(old(groupBits[z]), numSlabs) == -1
      ensures zoneId < old(|zones|) ==> offset == FirstFit(old(groupBits[zoneId]), numSlabs)
    {
      zoneId, offset := FindPlace(zones, groupBits, groupsPerZone, numSlabs);
      if offset == -1 {
        offset := 0;
        zoneId := |zones|;
        AddZone();
      }
      assert AllClear(groupBits[zoneId], offset, offset + numSlabs);
      FillSlabs(zoneId, offset, numSlabs);
    }

    /** verifySlabs(): the first mismatch between the flags, the free counts
        and the words, or none when the allocator is consistent. */
    method VerifySlabs() returns (r: Option<SlabError>)
      requires WellFormed()
      ensures r.None? <==> Valid()
      ensures r.Some? ==>
        0 <= r.value.zone < |zones| &&
        Reports(r.value, zones[r.value.zone], groupBits[r.value.zone], groupsPerZone, r.value.zone)
    {
      var z := 0;
      while z < |zones|
        invariant 0 <= z <= |zones|
        invariant forall y | 0 <= y < z :: ZoneValid(zones[y], groupBits[y], groupsPerZone)
      {
        r := VerifyZone(zones[z], groupBits[z], groupsPerZone, z);
        if r.Some? {
          return;
        }
        z := z + 1;
      }
      return None;
    }
  }

  /** The first word's update sets the range up to the end of that word. */
  lemma FirstWordStep(s: seq<bool>, offset: int, n: int, v: bool)
    requires 0 <= offset && n >= 1 && offset + n <= |s| && |s| % 64 == 0
    ensures var first := offset / 64;
      first * 64 + 64 <= |s| &&
      ApplyWord(s, first, ShiftLeft(OnesShiftedRight(Max(0, 64 - n)), offset % 64), v) ==
      Assign(s, offset, Min(offset + n, first * 64 + 64), v)
  {
    var first, firstOffset := offset / 64, offset % 64;
    var firstBits := ShiftLeft(OnesShiftedRight(Max(0, 64 - n)), firstOffset);
    FirstBits(firstBits, n, firstOffset);
    ApplyWordRange(s, first, firstBits, v, firstOffset, Min(firstOffset + n, 64));
  }

  /** The last word's update, when it is not the first, sets the range from
      the start of that word. */
  lemma LastWordStep(s: seq<bool>, offset: int, n: int, v: bool)
    requires 0 <= offset && n >= 1 && offset + n <= |s| && |s| % 64 == 0
    requires (offset + n - 1) / 64 != offset / 64
    ensures var last := (offset + n - 1) / 64;
      last * 64 + 64 <= |s| &&
      ApplyWord(s, last, OnesShiftedRight(64 - (offset + n) % 64), v) == Assign(s, last * 64, offset + n, v)
  {
    var last := (offset + n - 1) / 64;
    var numLastBits := (offset + n) % 64;
    LastWordArith(offset + n, |s|);
    var lastBits := OnesShiftedRight(64 - numLastBits);
    LastBits(lastBits, numLastBits);
    ApplyWordRange(s, last, lastBits, v, 0, offset + n - last * 64);
  }

  /** The word holding slab e - 1 ends inside the zone and holds the last
      e % 64 slabs up to e (64 of them when e is a multiple of 64). */
  lemma LastWordArith(e: int, size: int)
    requires 1 <= e <= size && size % 64 == 0
    ensures var last := (e - 1) / 64;
      last * 64 + 64 <= size && e - last * 64 == (if e % 64 == 0 then 64 else e % 64)
  {
  }

  /** The word updates fillSlabs (v true) and clearSlabs (v false) share:
      the first word gets the bits from the offset on, the last word its low
      bits, and the words between become all ones (all zeros). */
  method WriteBits(s: seq<bool>, offset: int, n: int, v: bool) returns (r: seq<bool>)
    requires 0 <= offset && n >= 1 && offset + n <= |s| && |s| % 64 == 0
    ensures r == Assign(s, offset, offset + n, v)
  {
    var first, last := offset / 64, (offset + n - 1) / 64;
    GroupAgainstRange(offset, n, first);
    FirstWordStep(s, offset, n, v);
    hide Assign, ApplyWord, ShiftLeft, OnesShiftedRight;
    var firstOffset := offset % 64;
    var firstBits := ShiftLeft(OnesShiftedRight(Max(0, 64 - n)), firstOffset);
    r := ApplyWord(s, first, firstBits, v);
    ghost var r1 := r;
    if last != first {
      var numLastBits := (offset + n) % 64;
      var lastBits := OnesShiftedRight(64 - numLastBits);
      LastWordStep(r, offset, n, v);
      r := ApplyWord(r, last, lastBits, v);
    }
    ghost var r2 := r;
    r := WriteMiddle(r, first, last, v);
    if last != first {
      AssignPieces(s, offset, first * 64 + 64, last * 64, offset + n, v);
    }
  }

  /** The loop over the words strictly between the first and the last. */
  method WriteMiddle(s: seq<bool>, first: int, last: int, v: bool) returns (r: seq<bool>)
    requires 0 <= first && last * 64 <= |s|
    ensures r == if first < last then Assign(s, first * 64 + 64, last * 64, v) else s
  {
    r := s;
    var g := first + 1;
    AssignEmpty(s, g * 64, v);
    while g < last
      invariant first + 1 <= g <= Max(last, first + 1)
      invariant r == Assign(s, first * 64 + 64, g * 64, v)
    {
      AssignAdjacent(s, first * 64 + 64, g * 64, g * 64 + 64, v);
      r := SetWord(r, g, v);
      g := g + 1;
    }
  }
}
