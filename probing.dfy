// The probe sequence shared by HashMap and HashSet: starting at
// hash & (capacity - 1), the k-th step advances by k, so after t steps the
// slot is (hash + t(t+1)/2) mod capacity. For a power-of-two capacity this
// visits every slot within the first capacity steps (include/fwk/hash_map.h:42).
module Probing {
  predicate IsPowerOfTwo(n: nat)
    decreases n
  {
    n == 1 || (n >= 2 && n % 2 == 0 && IsPowerOfTwo(n / 2))
  }

  /** 1 + 2 + ... + t, the total advance after t probe steps. */
  function Triangle(t: nat): nat
  {
    if t == 0 then 0 else Triangle(t - 1) + t
  }

  /** The slot visited after t probe steps. */
  function ProbeIndex(hash: nat, t: nat, capacity: nat): (r: nat)
    requires capacity > 0
    ensures r < capacity
  {
    (hash + Triangle(t)) % capacity
  }

  lemma MulPositiveBound(k: int, m: int)
    requires m > 0
    ensures k >= 1 ==> k * m >= m
    ensures k <= -1 ==> k * m <= -m
  {
    if k >= 1 { assert k * m == (k - 1) * m + m; assert (k - 1) * m >= 0; }
    if k <= -1 { assert k * m == (k + 1) * m - m; assert (k + 1) * m <= 0; }
  }

  /** Quotient and remainder are unique. */
  lemma ModUnique(x: int, q: int, r: int, m: int)
    requires m > 0 && 0 <= r < m
    requires x == q * m + r
    ensures x % m == r && x / m == q
  {
    var q0 := x / m;
    var r0 := x % m;
    assert x == q0 * m + r0;
    assert (q0 - q) * m == r - r0;
    MulPositiveBound(q0 - q, m);
  }

  lemma ModAddLeft(a: nat, b: nat, m: nat)
    requires m > 0
    ensures (a % m + b) % m == (a + b) % m
  {
    var qa, ra := a / m, a % m;
    var q1, r1 := (ra + b) / m, (ra + b) % m;
    assert a + b == (qa + q1) * m + r1;
    ModUnique(a + b, qa + q1, r1, m);
  }

  /** One step of the probe loop, idx = (idx + num_probes++) & mask, moves
      from step t to step t + 1. */
  lemma ProbeStep(hash: nat, t: nat, capacity: nat)
    requires capacity > 0
    ensures (ProbeIndex(hash, t, capacity) + t + 1) % capacity == ProbeIndex(hash, t + 1, capacity)
  {
    var x := hash + Triangle(t);
    assert hash + Triangle(t + 1) == x + (t + 1);
    assert ProbeIndex(hash, t, capacity) + t + 1 == x % capacity + (t + 1);
    ModAddLeft(x, t + 1, capacity);
  }

  lemma {:induction false} TwiceTriangle(t: nat)
    ensures 2 * Triangle(t) == t * (t + 1)
  {
    if t > 0 {
      TwiceTriangle(t - 1);
      assert (t - 1) * t + 2 * t == t * (t + 1);
    }
  }

  /** Equal remainders mean the difference is a multiple. */
  lemma SameModDifference(x: nat, d: nat, m: nat) returns (w: int)
    requires m > 0
    requires x % m == (x + d) % m
    ensures d == m * w
  {
    var qx := x / m;
    var qd := (x + d) / m;
    assert x == qx * m + x % m;
    assert x + d == qd * m + x % m;
    w := qd - qx;
    assert d == qd * m - qx * m;
  }

  /** A power of two that divides m * x with m odd divides x. */
  lemma {:induction false} PowerOfTwoDividesOddMultiple(p: nat, m: int, x: int, k: int) returns (j: int)
    requires IsPowerOfTwo(p)
    requires m % 2 == 1
    requires m * x == p * k
    ensures x == p * j
    decreases p
  {
    if p == 1 {
      j := x;
    } else {
      var q := p / 2;
      assert p == 2 * q;
      var mh := m / 2;
      assert m == 2 * mh + 1;
      var xh := x / 2;
      var xb := x % 2;
      assert x == 2 * xh + xb;
      if xb == 1 {
        assert m * x == 2 * (2 * mh * xh + mh + xh) + 1 by {
          assert m * x == (2 * mh + 1) * (2 * xh + 1);
        }
        assert m * x == 2 * (q * k);
        ModUnique(m * x, 2 * mh * xh + mh + xh, 1, 2);
        ModUnique(m * x, q * k, 0, 2);
        assert false;
      }
      assert x == 2 * xh;
      HalveProduct(m, xh, q, k);
      var jh := PowerOfTwoDividesOddMultiple(q, m, xh, k);
      j := jh;
      assert x == 2 * (q * jh);
    }
  }

  lemma HalveProduct(m: int, xh: int, q: int, k: int)
    requires m * (2 * xh) == (2 * q) * k
    ensures m * xh == q * k
  {
    assert m * (2 * xh) == 2 * (m * xh);
    assert (2 * q) * k == 2 * (q * k);
  }

  lemma TriangleDifference(a: nat, b: nat)
    requires a < b
    ensures 2 * (Triangle(b) - Triangle(a)) == (b - a) * (a + b + 1)
  {
    TwiceTriangle(a);
    TwiceTriangle(b);
    assert (b - a) * (a + b + 1) == b * (b + 1) - a * (a + 1);
  }

  lemma TriangleMonotone(a: nat, b: nat)
    requires a <= b
    ensures Triangle(a) <= Triangle(b)
    decreases b - a
  {
    if a < b { TriangleMonotone(a, b - 1); }
  }

  /** Two steps that land on the same slot advance by a multiple of the
      capacity between them. */
  lemma CollisionIsMultiple(hash: nat, a: nat, b: nat, capacity: nat) returns (w: int)
    requires capacity > 0
    requires a < b
    requires ProbeIndex(hash, a, capacity) == ProbeIndex(hash, b, capacity)
    ensures (b - a) * (a + b + 1) == (2 * capacity) * w
  {
    TriangleMonotone(a, b);
    var diff: nat := Triangle(b) - Triangle(a);
    assert hash + Triangle(b) == (hash + Triangle(a)) + diff;
    w := SameModDifference(hash + Triangle(a), diff, capacity);
    TriangleDifference(a, b);
  }

  /** A positive number below a power of two p times an odd number is not a
      multiple of p. */
  lemma NoSmallOddMultiple(p: nat, odd: int, small: int, w: int)
    requires IsPowerOfTwo(p)
    requires odd % 2 == 1
    requires 0 < small < p
    ensures odd * small != p * w
  {
    if odd * small == p * w {
      var j := PowerOfTwoDividesOddMultiple(p, odd, small, w);
      MulPositiveBound(j, p);
      assert false;
    }
  }

  lemma OppositeParity(a: nat, b: nat)
    ensures (b - a) % 2 == 1 || (a + b + 1) % 2 == 1
  {
    var d := b - a;
    assert a + b + 1 == d + 2 * a + 1;
  }

  lemma DoubledPowerOfTwo(p: nat)
    requires IsPowerOfTwo(p)
    ensures IsPowerOfTwo(2 * p)
  {
    assert (2 * p) / 2 == p;
  }

  /** Distinct steps below capacity visit distinct slots. */
  lemma ProbeInjective(hash: nat, a: nat, b: nat, capacity: nat)
    requires IsPowerOfTwo(capacity)
    requires a < b < capacity
    ensures ProbeIndex(hash, a, capacity) != ProbeIndex(hash, b, capacity)
  {
    if ProbeIndex(hash, a, capacity) == ProbeIndex(hash, b, capacity) {
      var w := CollisionIsMultiple(hash, a, b, capacity);
      DoubledPowerOfTwo(capacity);
      OppositeParity(a, b);
      var d, s, p := b - a, a + b + 1, 2 * capacity;
      assert d * s == p * w;
      hide *;
      if d % 2 == 1 {
        NoSmallOddMultiple(p, d, s, w);
      } else {
        MulCommutes(d, s);
        NoSmallOddMultiple(p, s, d, w);
      }
      assert false;
    }
  }

  lemma MulCommutes(x: int, y: int)
    ensures x * y == y * x
  {
  }

  lemma {:induction false} PowerOfTwoPositive(p: nat)
    requires IsPowerOfTwo(p)
    ensures p >= 1
  {
  }

  /** The slots visited by the first n steps. */
  function Visited(hash: nat, n: nat, capacity: nat): set<nat>
    requires capacity > 0
  {
    set t | 0 <= t < n :: ProbeIndex(hash, t, capacity)
  }

  lemma {:induction false} VisitedSize(hash: nat, n: nat, capacity: nat)
    requires IsPowerOfTwo(capacity)
    requires n <= capacity
    ensures |Visited(hash, n, capacity)| == n
    decreases n
  {
    PowerOfTwoPositive(capacity);
    if n > 0 {
      VisitedSize(hash, n - 1, capacity);
      var last := ProbeIndex(hash, n - 1, capacity);
      assert Visited(hash, n, capacity) == Visited(hash, n - 1, capacity) + {last};
      if last in Visited(hash, n - 1, capacity) {
        var t :| 0 <= t < n - 1 && ProbeIndex(hash, t, capacity) == last;
        ProbeInjective(hash, t, n - 1, capacity);
      }
    }
  }

  /** The slot indices 0 .. capacity - 1. */
  function Slots(capacity: nat): (r: set<nat>)
    ensures |r| == capacity
    ensures forall i: nat :: i in r <==> i < capacity
  {
    if capacity == 0 then {} else Slots(capacity - 1) + {capacity - 1}
  }

  lemma {:induction false} SubsetOfEqualSize<T>(a: set<T>, b: set<T>)
    requires a <= b && |a| == |b|
    ensures a == b
    decreases |b|
  {
    if b != {} {
      var y :| y in b;
      if y in a {
        SubsetOfEqualSize(a - {y}, b - {y});
        assert a == (a - {y}) + {y};
        assert b == (b - {y}) + {y};
      } else {
        assert a <= b - {y};
        SubsetCard(a, b - {y});
        assert false;
      }
    }
  }

  lemma {:induction false} SubsetCard<T>(a: set<T>, b: set<T>)
    requires a <= b
    ensures |a| <= |b|
    decreases |b|
  {
    if a != {} {
      var y :| y in a;
      SubsetCard(a - {y}, b - {y});
    }
  }

  /** Probing from any hash reaches every slot within capacity steps. */
  lemma ProbeCoversAll(hash: nat, capacity: nat, slot: nat)
    requires IsPowerOfTwo(capacity)
    requires slot < capacity
    ensures exists t :: 0 <= t < capacity && ProbeIndex(hash, t, capacity) == slot
  {
    PowerOfTwoPositive(capacity);
    VisitedSize(hash, capacity, capacity);
    assert Visited(hash, capacity, capacity) <= Slots(capacity);
    SubsetOfEqualSize(Visited(hash, capacity, capacity), Slots(capacity));
    assert slot in Slots(capacity);
  }
}
