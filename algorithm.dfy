// The range algorithms of the container library over sequences of integers:
// the min/max and index queries, sorting with duplicate removal, the sorted
// set operations, in-place filtering and removal of equal elements.
module AlgorithmModel {
  predicate Sorted(s: seq<int>)
  {
    forall i, j :: 0 <= i < j < |s| ==> s[i] <= s[j]
  }

  predicate StrictlyIncreasing(s: seq<int>)
  {
    forall i, j :: 0 <= i < j < |s| ==> s[i] < s[j]
  }

  // ---------------------------------------------------------------------------
  // Queries

  /**
   * `minMax`: the smallest and the greatest element, both taken from the
   * range; an empty range gives the value-initialised pair.
   */
  method MinMax(s: seq<int>) returns (lo: int, hi: int)
    ensures |s| == 0 ==> lo == 0 && hi == 0
    ensures |s| > 0 ==> lo in s && hi in s
    ensures forall x :: x in s ==> lo <= x <= hi
  {
    if |s| == 0 {
      return 0, 0;
    }
    lo, hi := s[0], s[0];
    var i := 1;
    while i < |s|
      invariant 1 <= i <= |s|
      invariant lo in s[..i] && hi in s[..i]
      invariant forall k :: 0 <= k < i ==> lo <= s[k] <= hi
    {
      if s[i] < lo {
        lo := s[i];
      }
      if s[i] > hi {
        hi := s[i];
      }
      i := i + 1;
    }
    assert s[..i] == s;
  }

  /** `indexOf`: the first index holding `value`, or -1 when there is none. */
  method IndexOf(s: seq<int>, value: int) returns (index: int)
    ensures -1 <= index < |s|
    ensures index == -1 <==> value !in s
    ensures index >= 0 ==> s[index] == value && value !in s[..index]
  {
    var i := 0;
    while i < |s|
      invariant 0 <= i <= |s|
      invariant value !in s[..i]
    {
      if s[i] == value {
        return i;
      }
      assert s[..i + 1] == s[..i] + [s[i]];
      i := i + 1;
    }
    assert s[..i] == s;
    return -1;
  }

  // ---------------------------------------------------------------------------
  // Sorting and duplicate removal

  /** Inserts `x` into a sorted sequence. */
  function Insert(x: int, s: seq<int>): (r: seq<int>)
    requires Sorted(s)
    ensures Sorted(r) && multiset(r) == multiset(s) + multiset{x}
    ensures forall y :: y in r ==> y == x || y in s
  {
    if |s| == 0 then [x]
    else if x <= s[0] then [x] + s
    else
      assert s == [s[0]] + s[1..];
      var rest := Insert(x, s[1..]);
      PrependEither(s[0], s[1..], [x], rest);
      [s[0]] + rest
  }

  /** The ascending rearrangement that `std::sort` produces. */
  function Sort(s: seq<int>): (r: seq<int>)
    ensures Sorted(r) && multiset(r) == multiset(s)
  {
    if |s| == 0 then []
    else
      assert s == [s[0]] + s[1..];
      Insert(s[0], Sort(s[1..]))
  }

  /** `std::unique` followed by the erase: every run of equal neighbours shrinks to its first element. */
  function Unique(s: seq<int>): (r: seq<int>)
    ensures |r| <= |s|
  {
    if |s| <= 1 then s
    else if s[0] == s[1] then Unique(s[1..])
    else [s[0]] + Unique(s[1..])
  }

  /** On a sorted sequence `Unique` leaves each value once, in increasing order. */
  lemma {:induction false} UniqueSorted(s: seq<int>)
    requires Sorted(s)
    ensures StrictlyIncreasing(Unique(s))
    ensures forall x :: x in Unique(s) <==> x in s
    ensures |s| > 0 ==> |Unique(s)| > 0 && Unique(s)[0] == s[0]
  {
    if |s| > 1 {
      var t := s[1..];
      UniqueSorted(t);
      assert s == [s[0]] + t;
      if s[0] != s[1] {
        var u := Unique(t);
        assert forall x :: x in u ==> x in t;
        forall j | 0 < j < |[s[0]] + u|
          ensures s[0] < ([s[0]] + u)[j]
        {
          assert u[j - 1] in t;
        }
      }
    }
  }

  /**
   * `makeSortedUnique` and `sortedUnique`: sort, then drop the repeated
   * values. The result is strictly increasing and holds exactly the values of
   * the input.
   */
  function SortedUnique(s: seq<int>): (r: seq<int>)
    ensures StrictlyIncreasing(r)
    ensures forall x :: x in r <==> x in s
  {
    var sorted := Sort(s);
    UniqueSorted(sorted);
    assert forall x :: x in sorted <==> x in multiset(sorted);
    Unique(sorted)
  }

  /** A strictly increasing sequence is determined by its set of values. */
  lemma {:induction false} IncreasingDetermined(s: seq<int>, t: seq<int>)
    requires StrictlyIncreasing(s) && StrictlyIncreasing(t)
    requires forall x :: x in s <==> x in t
    ensures s == t
  {
    if |s| > 0 {
      assert s[0] in s;
    }
    if |t| > 0 {
      assert t[0] in t;
    }
    if |s| > 0 && |t| > 0 {
      assert s[0] == t[0] by {
        assert s[0] in t && t[0] in s;
      }
      forall x
        ensures x in s[1..] <==> x in t[1..]
      {
        TailMembers(s, x);
        TailMembers(t, x);
      }
      IncreasingDetermined(s[1..], t[1..]);
      assert s == [s[0]] + s[1..] && t == [t[0]] + t[1..];
    }
  }

  /** The tail of a strictly increasing sequence holds its values other than the head. */
  lemma TailMembers(s: seq<int>, x: int)
    requires StrictlyIncreasing(s) && |s| > 0
    ensures x in s[1..] <==> x in s && x != s[0]
  {
    assert s == [s[0]] + s[1..];
    if x in s[1..] {
      var k :| 0 <= k < |s| - 1 && s[1..][k] == x;
      assert s[k + 1] == x;
    }
  }

  /** The test's example, with integers in place of the strings: seven values, four distinct. */
  lemma SortedUniqueExample()
    ensures SortedUnique([3, 4, 5, 3, 1, 1, 5]) == [1, 3, 4, 5]
  {
    hide *;
    var s := [3, 4, 5, 3, 1, 1, 5];
    var expected := [1, 3, 4, 5];
    IncreasingExample();
    forall x
      ensures x in SortedUnique(s) <==> x in expected
    {
      assert x in s <==> x == 1 || x == 3 || x == 4 || x == 5;
    }
    IncreasingDetermined(SortedUnique(s), expected);
  }

  lemma IncreasingExample()
    ensures StrictlyIncreasing([1, 3, 4, 5])
  {
  }

  // ---------------------------------------------------------------------------
  // distinct

  /** No value occurs twice. */
  ghost predicate NoRepeats(s: seq<int>)
  {
    forall x :: multiset(s)[x] <= 1
  }

  /** `distinct`: sorting and dropping repeats keeps every element. */
  function Distinct(s: seq<int>): bool
  {
    |SortedUnique(s)| == |s|
  }

  /** `distinct` holds exactly when no value occurs twice. */
  lemma DistinctNoRepeats(s: seq<int>)
    ensures Distinct(s) <==> NoRepeats(s)
  {
    var t := Sort(s);
    UniqueLength(t);
    NoRepeatsSorted(t);
    assert NoRepeats(t) <==> NoRepeats(s) by {
      assert multiset(t) == multiset(s);
    }
  }

  /** `Unique` keeps the length exactly when no two neighbours are equal. */
  lemma {:induction false} UniqueLength(s: seq<int>)
    ensures |Unique(s)| == |s| <==> forall i :: 0 < i < |s| ==> s[i - 1] != s[i]
  {
    if |s| > 1 {
      UniqueLength(s[1..]);
      if s[0] == s[1] {
        assert |Unique(s)| < |s|;
      } else {
        forall i | 0 < i < |s| && s[i - 1] == s[i]
          ensures 1 < i
        {
        }
      }
    }
  }

  /** For a sorted sequence, no equal neighbours, strict increase and no repeats coincide. */
  lemma NoRepeatsSorted(s: seq<int>)
    requires Sorted(s)
    ensures (forall i :: 0 < i < |s| ==> s[i - 1] != s[i]) <==> NoRepeats(s)
  {
    if forall i :: 0 < i < |s| ==> s[i - 1] != s[i] {
      forall i, j | 0 <= i < j < |s|
        ensures s[i] < s[j]
      {
        assert s[i] <= s[j - 1] && s[j - 1] != s[j];
      }
      IncreasingNoRepeats(s);
    } else {
      var i :| 0 < i < |s| && s[i - 1] == s[i];
      assert s == s[..i - 1] + [s[i - 1], s[i]] + s[i + 1..];
      assert multiset(s)[s[i]] >= 2;
    }
  }

  lemma {:induction false} IncreasingNoRepeats(s: seq<int>)
    requires StrictlyIncreasing(s)
    ensures NoRepeats(s)
  {
    if |s| > 0 {
      var t := s[1..];
      IncreasingNoRepeats(t);
      assert s == [s[0]] + t;
      assert s[0] !in t;
      forall x
        ensures multiset(s)[x] <= 1
      {
        assert multiset(s)[x] == multiset{s[0]}[x] + multiset(t)[x];
      }
    }
  }

  // ---------------------------------------------------------------------------
  // Set operations on sorted ranges

  /** Every element of `s` is at least `lo`. */
  predicate AtLeast(s: seq<int>, lo: int)
  {
    forall k :: 0 <= k < |s| ==> lo <= s[k]
  }

  /** `std::set_difference` on sorted ranges. */
  function Difference(a: seq<int>, b: seq<int>): seq<int>
    requires Sorted(a) && Sorted(b)
    decreases |a| + |b|
  {
    if |a| == 0 then []
    else if |b| == 0 then a
    else if a[0] < b[0] then [a[0]] + Difference(a[1..], b)
    else if b[0] < a[0] then Difference(a, b[1..])
    else Difference(a[1..], b[1..])
  }

  /** `std::set_intersection` on sorted ranges. */
  function Intersection(a: seq<int>, b: seq<int>): seq<int>
    requires Sorted(a) && Sorted(b)
    decreases |a| + |b|
  {
    if |a| == 0 || |b| == 0 then []
    else if a[0] < b[0] then Intersection(a[1..], b)
    else if b[0] < a[0] then Intersection(a, b[1..])
    else [a[0]] + Intersection(a[1..], b[1..])
  }

  /** `std::set_union` on sorted ranges; of two equal heads the one from `a` is copied. */
  function Union(a: seq<int>, b: seq<int>): seq<int>
    requires Sorted(a) && Sorted(b)
    decreases |a| + |b|
  {
    if |a| == 0 then b
    else if |b| == 0 then a
    else if a[0] < b[0] then [a[0]] + Union(a[1..], b)
    else if b[0] < a[0] then [b[0]] + Union(a, b[1..])
    else [a[0]] + Union(a[1..], b[1..])
  }

  /** The merge yields a sorted sequence: each value as often as `a` has it beyond its count in `b`. */
  lemma {:induction false} DifferenceSpec(a: seq<int>, b: seq<int>)
    requires Sorted(a) && Sorted(b)
    ensures Sorted(Difference(a, b)) && multiset(Difference(a, b)) == multiset(a) - multiset(b)
    ensures forall x :: x in Difference(a, b) ==> x in a
    decreases |a| + |b|
  {
    hide *;
    DifferenceCases(a, b);
    if |a| > 0 && |b| > 0 {
      if a[0] < b[0] {
        DifferenceSpec(a[1..], b);
        DifferenceLeftStep(a, b);
      } else if b[0] < a[0] {
        DifferenceSpec(a, b[1..]);
        DifferenceRightStep(a, b);
      } else {
        DifferenceSpec(a[1..], b[1..]);
        DifferenceBothStep(a, b);
      }
    }
  }

  /** The step of `DifferenceSpec` that keeps the smaller head of `a`. */
  lemma DifferenceLeftStep(a: seq<int>, b: seq<int>)
    requires Sorted(a) && Sorted(b) && |a| > 0 && |b| > 0 && a[0] < b[0] && Sorted(a[1..])
    requires Sorted(Difference(a[1..], b)) && multiset(Difference(a[1..], b)) == multiset(a[1..]) - multiset(b)
    requires forall x :: x in Difference(a[1..], b) ==> x in a[1..]
    ensures Sorted(Difference(a, b)) && multiset(Difference(a, b)) == multiset(a) - multiset(b)
    ensures forall x :: x in Difference(a, b) ==> x in a
  {
    hide *;
    DifferenceCases(a, b);
    var a' := a[1..];
    assert a == [a[0]] + a';
    Prepend(a[0], a', Difference(a', b));
    NotBelowHead(b, a[0]);
    KeepHead(a[0], multiset(a'), multiset(b));
  }

  /** The step of `DifferenceSpec` that skips the smaller head of `b`. */
  lemma DifferenceRightStep(a: seq<int>, b: seq<int>)
    requires Sorted(a) && Sorted(b) && |a| > 0 && |b| > 0 && b[0] < a[0] && Sorted(b[1..])
    requires Sorted(Difference(a, b[1..])) && multiset(Difference(a, b[1..])) == multiset(a) - multiset(b[1..])
    requires forall x :: x in Difference(a, b[1..]) ==> x in a
    ensures Sorted(Difference(a, b)) && multiset(Difference(a, b)) == multiset(a) - multiset(b)
    ensures forall x :: x in Difference(a, b) ==> x in a
  {
    hide *;
    DifferenceCases(a, b);
    var b' := b[1..];
    assert b == [b[0]] + b';
    NotBelowHead(a, b[0]);
    SkipHead(b[0], multiset(a), multiset(b'));
  }

  /** The step of `DifferenceSpec` that drops two equal heads. */
  lemma DifferenceBothStep(a: seq<int>, b: seq<int>)
    requires Sorted(a) && Sorted(b) && |a| > 0 && |b| > 0 && a[0] == b[0] && Sorted(a[1..]) && Sorted(b[1..])
    requires Sorted(Difference(a[1..], b[1..]))
    requires multiset(Difference(a[1..], b[1..])) == multiset(a[1..]) - multiset(b[1..])
    requires forall x :: x in Difference(a[1..], b[1..]) ==> x in a[1..]
    ensures Sorted(Difference(a, b)) && multiset(Difference(a, b)) == multiset(a) - multiset(b)
    ensures forall x :: x in Difference(a, b) ==> x in a
  {
    hide *;
    DifferenceCases(a, b);
    var a', b' := a[1..], b[1..];
    assert a == [a[0]] + a' && b == [b[0]] + b';
    DropBoth(a[0], multiset(a'), multiset(b'));
  }

  /** The merge yields a sorted sequence: each value as often as it occurs in both. */
  lemma {:induction false} IntersectionSpec(a: seq<int>, b: seq<int>)
    requires Sorted(a) && Sorted(b)
    ensures Sorted(Intersection(a, b)) && multiset(Intersection(a, b)) == multiset(a) * multiset(b)
    ensures forall x :: x in Intersection(a, b) ==> x in a
    decreases |a| + |b|
  {
    hide *;
    IntersectionCases(a, b);
    if |a| > 0 && |b| > 0 {
      if a[0] < b[0] {
        IntersectionSpec(a[1..], b);
        IntersectionLeftStep(a, b);
      } else if b[0] < a[0] {
        IntersectionSpec(a, b[1..]);
        IntersectionRightStep(a, b);
      } else {
        IntersectionSpec(a[1..], b[1..]);
        IntersectionBothStep(a, b);
      }
    }
  }

  /** The step of `IntersectionSpec` that skips the smaller head of `a`. */
  lemma IntersectionLeftStep(a: seq<int>, b: seq<int>)
    requires Sorted(a) && Sorted(b) && |a| > 0 && |b| > 0 && a[0] < b[0] && Sorted(a[1..])
    requires Sorted(Intersection(a[1..], b)) && multiset(Intersection(a[1..], b)) == multiset(a[1..]) * multiset(b)
    requires forall x :: x in Intersection(a[1..], b) ==> x in a[1..]
    ensures Sorted(Intersection(a, b)) && multiset(Intersection(a, b)) == multiset(a) * multiset(b)
    ensures forall x :: x in Intersection(a, b) ==> x in a
  {
    hide *;
    IntersectionCases(a, b);
    var a' := a[1..];
    assert a == [a[0]] + a';
    NotBelowHead(b, a[0]);
    MeetSkip(a[0], multiset(b), multiset(a'));
  }

  /** The step of `IntersectionSpec` that skips the smaller head of `b`. */
  lemma IntersectionRightStep(a: seq<int>, b: seq<int>)
    requires Sorted(a) && Sorted(b) && |a| > 0 && |b| > 0 && b[0] < a[0] && Sorted(b[1..])
    requires Sorted(Intersection(a, b[1..])) && multiset(Intersection(a, b[1..])) == multiset(a) * multiset(b[1..])
    requires forall x :: x in Intersection(a, b[1..]) ==> x in a
    ensures Sorted(Intersection(a, b)) && multiset(Intersection(a, b)) == multiset(a) * multiset(b)
    ensures forall x :: x in Intersection(a, b) ==> x in a
  {
    hide *;
    IntersectionCases(a, b);
    var b' := b[1..];
    assert b == [b[0]] + b';
    NotBelowHead(a, b[0]);
    MeetSkip(b[0], multiset(a), multiset(b'));
  }

  /** The step of `IntersectionSpec` that keeps one of two equal heads. */
  lemma IntersectionBothStep(a: seq<int>, b: seq<int>)
    requires Sorted(a) && Sorted(b) && |a| > 0 && |b| > 0 && a[0] == b[0] && Sorted(a[1..]) && Sorted(b[1..])
    requires Sorted(Intersection(a[1..], b[1..]))
    requires multiset(Intersection(a[1..], b[1..])) == multiset(a[1..]) * multiset(b[1..])
    requires forall x :: x in Intersection(a[1..], b[1..]) ==> x in a[1..]
    ensures Sorted(Intersection(a, b)) && multiset(Intersection(a, b)) == multiset(a) * multiset(b)
    ensures forall x :: x in Intersection(a, b) ==> x in a
  {
    hide *;
    IntersectionCases(a, b);
    var a', b' := a[1..], b[1..];
    assert a == [a[0]] + a' && b == [b[0]] + b';
    Prepend(a[0], a', Intersection(a', b'));
    MeetBoth(a[0], multiset(a'), multiset(b'));
  }

  /**
   * The merge yields a sorted sequence: each value as often as its larger
   * count in the inputs (`multiset(a) + (multiset(b) - multiset(a))`).
   */
  lemma {:induction false} UnionSpec(a: seq<int>, b: seq<int>)
    requires Sorted(a) && Sorted(b)
    ensures Sorted(Union(a, b)) && multiset(Union(a, b)) == multiset(a) + (multiset(b) - multiset(a))
    ensures forall x :: x in Union(a, b) ==> x in a || x in b
    decreases |a| + |b|
  {
    hide *;
    UnionCases(a, b);
    if |a| == 0 {
      assert multiset(a) == multiset{};
    } else if |b| > 0 {
      if a[0] < b[0] {
        UnionSpec(a[1..], b);
        UnionLeftStep(a, b);
      } else if b[0] < a[0] {
        UnionSpec(a, b[1..]);
        UnionRightStep(a, b);
      } else {
        UnionSpec(a[1..], b[1..]);
        UnionBothStep(a, b);
      }
    }
  }

  /** The step of `UnionSpec` that copies the smaller head of `a`. */
  lemma UnionLeftStep(a: seq<int>, b: seq<int>)
    requires Sorted(a) && Sorted(b) && |a| > 0 && |b| > 0 && a[0] < b[0] && Sorted(a[1..])
    requires Sorted(Union(a[1..], b)) && multiset(Union(a[1..], b)) == multiset(a[1..]) + (multiset(b) - multiset(a[1..]))
    requires forall x :: x in Union(a[1..], b) ==> x in a[1..] || x in b
    ensures Sorted(Union(a, b)) && multiset(Union(a, b)) == multiset(a) + (multiset(b) - multiset(a))
    ensures forall x :: x in Union(a, b) ==> x in a || x in b
  {
    hide *;
    UnionCases(a, b);
    var a' := a[1..];
    assert a == [a[0]] + a';
    PrependEither(a[0], a', b, Union(a', b));
    NotBelowHead(b, a[0]);
    JoinLeft(a[0], multiset(a'), multiset(b));
  }

  /** The step of `UnionSpec` that copies the smaller head of `b`. */
  lemma UnionRightStep(a: seq<int>, b: seq<int>)
    requires Sorted(a) && Sorted(b) && |a| > 0 && |b| > 0 && b[0] < a[0] && Sorted(b[1..])
    requires Sorted(Union(a, b[1..])) && multiset(Union(a, b[1..])) == multiset(a) + (multiset(b[1..]) - multiset(a))
    requires forall x :: x in Union(a, b[1..]) ==> x in a || x in b[1..]
    ensures Sorted(Union(a, b)) && multiset(Union(a, b)) == multiset(a) + (multiset(b) - multiset(a))
    ensures forall x :: x in Union(a, b) ==> x in a || x in b
  {
    hide *;
    UnionCases(a, b);
    var b' := b[1..];
    assert b == [b[0]] + b';
    PrependEither(b[0], b', a, Union(a, b'));
    NotBelowHead(a, b[0]);
    JoinRight(b[0], multiset(a), multiset(b'));
  }

  /** The step of `UnionSpec` that copies one of two equal heads. */
  lemma UnionBothStep(a: seq<int>, b: seq<int>)
    requires Sorted(a) && Sorted(b) && |a| > 0 && |b| > 0 && a[0] == b[0] && Sorted(a[1..]) && Sorted(b[1..])
    requires Sorted(Union(a[1..], b[1..]))
    requires multiset(Union(a[1..], b[1..])) == multiset(a[1..]) + (multiset(b[1..]) - multiset(a[1..]))
    requires forall x :: x in Union(a[1..], b[1..]) ==> x in a[1..] || x in b[1..]
    ensures Sorted(Union(a, b)) && multiset(Union(a, b)) == multiset(a) + (multiset(b) - multiset(a))
    ensures forall x :: x in Union(a, b) ==> x in a || x in b
  {
    hide *;
    UnionCases(a, b);
    var a', b' := a[1..], b[1..];
    assert a == [a[0]] + a' && b == [b[0]] + b';
    PrependEither(a[0], a', b', Union(a', b'));
    JoinBoth(a[0], multiset(a'), multiset(b'));
  }

  lemma DifferenceCases(a: seq<int>, b: seq<int>)
    requires Sorted(a) && Sorted(b)
    ensures |a| == 0 ==> Difference(a, b) == []
    ensures |a| > 0 && |b| == 0 ==> Difference(a, b) == a
    ensures |a| > 0 && |b| > 0 ==>
      && Sorted(a[1..]) && Sorted(b[1..])
      && Difference(a, b) ==
        if a[0] < b[0] then [a[0]] + Difference(a[1..], b)
        else if b[0] < a[0] then Difference(a, b[1..])
        else Difference(a[1..], b[1..])
  {
  }

  lemma IntersectionCases(a: seq<int>, b: seq<int>)
    requires Sorted(a) && Sorted(b)
    ensures |a| == 0 || |b| == 0 ==> Intersection(a, b) == []
    ensures |a| > 0 && |b| > 0 ==>
      && Sorted(a[1..]) && Sorted(b[1..])
      && Intersection(a, b) ==
        if a[0] < b[0] then Intersection(a[1..], b)
        else if b[0] < a[0] then Intersection(a, b[1..])
        else [a[0]] + Intersection(a[1..], b[1..])
  {
  }

  lemma UnionCases(a: seq<int>, b: seq<int>)
    requires Sorted(a) && Sorted(b)
    ensures |a| == 0 ==> Union(a, b) == b
    ensures |a| > 0 && |b| == 0 ==> Union(a, b) == a
    ensures |a| > 0 && |b| > 0 ==>
      && Sorted(a[1..]) && Sorted(b[1..]) && (|b| > 1 ==> b[0] <= b[1])
      && Union(a, b) ==
        if a[0] < b[0] then [a[0]] + Union(a[1..], b)
        else if b[0] < a[0] then [b[0]] + Union(a, b[1..])
        else [a[0]] + Union(a[1..], b[1..])
  {
  }

  lemma KeepHead(x: int, A: multiset<int>, B: multiset<int>)
    requires x !in B
    ensures multiset{x} + (A - B) == (multiset{x} + A) - B
  {
  }

  lemma SkipHead(y: int, A: multiset<int>, B: multiset<int>)
    requires y !in A
    ensures A - (multiset{y} + B) == A - B
  {
  }

  lemma DropBoth(x: int, A: multiset<int>, B: multiset<int>)
    ensures (multiset{x} + A) - (multiset{x} + B) == A - B
  {
  }

  lemma MeetSkip(y: int, A: multiset<int>, B: multiset<int>)
    requires y !in A
    ensures (multiset{y} + B) * A == B * A && A * (multiset{y} + B) == A * B
  {
  }

  lemma MeetBoth(x: int, A: multiset<int>, B: multiset<int>)
    ensures (multiset{x} + A) * (multiset{x} + B) == multiset{x} + A * B
  {
  }

  lemma JoinLeft(x: int, A: multiset<int>, B: multiset<int>)
    requires x !in B
    ensures multiset{x} + (A + (B - A)) == (multiset{x} + A) + (B - (multiset{x} + A))
  {
  }

  lemma JoinRight(y: int, A: multiset<int>, B: multiset<int>)
    requires y !in A
    ensures multiset{y} + (A + (B - A)) == A + ((multiset{y} + B) - A)
  {
  }

  lemma JoinBoth(x: int, A: multiset<int>, B: multiset<int>)
    ensures multiset{x} + (A + (B - A)) == (multiset{x} + A) + ((multiset{x} + B) - (multiset{x} + A))
  {
  }

  /** A value below the head of a sorted sequence does not occur in it. */
  lemma NotBelowHead(s: seq<int>, x: int)
    requires Sorted(s) && |s| > 0 && x < s[0]
    ensures x !in multiset(s)
  {
    assert forall k :: 0 <= k < |s| ==> s[k] != x;
  }

  /** Putting the head of a sorted sequence before a sorted selection of its tail keeps order. */
  lemma Prepend(x: int, tail: seq<int>, rest: seq<int>)
    requires Sorted([x] + tail) && Sorted(rest)
    requires forall y :: y in rest ==> y in tail
    ensures Sorted([x] + rest)
  {
    forall j | 0 <= j < |rest|
      ensures x <= rest[j]
    {
      assert rest[j] in rest;
      var k :| 0 <= k < |tail| && tail[k] == rest[j];
      assert ([x] + tail)[0] <= ([x] + tail)[k + 1] == tail[k];
    }
  }

  /** The same, when the selection may also come from a sorted `other` whose values are not below `x`. */
  lemma PrependEither(x: int, tail: seq<int>, other: seq<int>, rest: seq<int>)
    requires Sorted([x] + tail) && Sorted(rest)
    requires |other| == 0 || x <= other[0]
    requires Sorted(other)
    requires forall y :: y in rest ==> y in tail || y in other
    ensures Sorted([x] + rest)
  {
    forall j | 0 <= j < |rest|
      ensures x <= rest[j]
    {
      assert rest[j] in rest;
      if rest[j] in tail {
        var k :| 0 <= k < |tail| && tail[k] == rest[j];
        assert ([x] + tail)[0] <= ([x] + tail)[k + 1] == tail[k];
      } else {
        var k :| 0 <= k < |other| && other[k] == rest[j];
        assert other[0] <= other[k];
      }
    }
  }

  /** `setDifference`: both inputs are sorted first, so the result is the sorted multiset difference. */
  function SetDifference(a: seq<int>, b: seq<int>): (r: seq<int>)
    ensures Sorted(r) && multiset(r) == multiset(a) - multiset(b)
  {
    DifferenceSpec(Sort(a), Sort(b));
    Difference(Sort(a), Sort(b))
  }

  /** `setIntersection`: the sorted multiset intersection. */
  function SetIntersection(a: seq<int>, b: seq<int>): (r: seq<int>)
    ensures Sorted(r) && multiset(r) == multiset(a) * multiset(b)
  {
    IntersectionSpec(Sort(a), Sort(b));
    Intersection(Sort(a), Sort(b))
  }

  /** `setUnion`: the sorted union, each value with its larger count. */
  function SetUnion(a: seq<int>, b: seq<int>): (r: seq<int>)
    ensures Sorted(r)
    ensures forall x :: multiset(r)[x] == if multiset(a)[x] >= multiset(b)[x] then multiset(a)[x] else multiset(b)[x]
  {
    var out := Union(Sort(a), Sort(b));
    UnionSpec(Sort(a), Sort(b));
    assert multiset(out) == multiset(a) + (multiset(b) - multiset(a));
    out
  }

  // ---------------------------------------------------------------------------
  // Filtering and removal

  /** The elements satisfying `p`, in their original order. */
  function Filter(s: seq<int>, p: int -> bool): (r: seq<int>)
    ensures |r| <= |s|
  {
    if |s| == 0 then []
    else Filter(s[..|s| - 1], p) + (if p(s[|s| - 1]) then [s[|s| - 1]] else [])
  }

  lemma FilterSnoc(s: seq<int>, k: int, p: int -> bool)
    requires 0 <= k < |s|
    ensures Filter(s[..k + 1], p) == Filter(s[..k], p) + (if p(s[k]) then [s[k]] else [])
  {
    assert s[..k + 1][..k] == s[..k];
  }

  /** An element is kept exactly when it occurs and satisfies `p`. */
  lemma {:induction false} FilterMembers(s: seq<int>, p: int -> bool)
    ensures forall x :: x in Filter(s, p) <==> x in s && p(x)
  {
    if |s| > 0 {
      var init := s[..|s| - 1];
      FilterMembers(init, p);
      assert s == init + [s[|s| - 1]];
    }
  }

  /** Each kept value keeps its count; the others vanish. */
  lemma {:induction false} FilterCounts(s: seq<int>, p: int -> bool)
    ensures forall x :: multiset(Filter(s, p))[x] == if p(x) then multiset(s)[x] else 0
  {
    if |s| > 0 {
      var init := s[..|s| - 1];
      FilterCounts(init, p);
      assert s == init + [s[|s| - 1]];
    }
  }

  /** Filtering a concatenation filters each part: the relative order is kept. */
  lemma {:induction false} FilterConcat(s: seq<int>, t: seq<int>, p: int -> bool)
    ensures Filter(s + t, p) == Filter(s, p) + Filter(t, p)
    decreases |t|
  {
    if |t| > 0 {
      var init := t[..|t| - 1];
      FilterConcat(s, init, p);
      assert (s + t)[..|s + t| - 1] == s + init;
    } else {
      assert s + t == s;
    }
  }

  /** Filtering twice changes nothing more. */
  lemma {:induction false} FilterIdempotent(s: seq<int>, p: int -> bool)
    ensures Filter(Filter(s, p), p) == Filter(s, p)
  {
    if |s| > 0 {
      var init := s[..|s| - 1];
      var last := s[|s| - 1];
      FilterIdempotent(init, p);
      FilterConcat(Filter(init, p), if p(last) then [last] else [], p);
      assert Filter([last], p) == (if p(last) then [last] else []) by {
        assert [last][..0] == [];
      }
      assert Filter([], p) == [];
    }
  }

  /** A sequence whose every element satisfies `p` is its own filtering. */
  lemma {:induction false} FilterAll(s: seq<int>, p: int -> bool)
    requires forall k :: 0 <= k < |s| ==> p(s[k])
    ensures Filter(s, p) == s
  {
    if |s| > 0 {
      FilterAll(s[..|s| - 1], p);
      assert s == s[..|s| - 1] + [s[|s| - 1]];
    }
  }

  /**
   * `makeFiltered`: skips the leading run of kept elements, then moves every
   * later kept element down over the rejected ones; the vector is cut to the
   * returned size.
   */
  method MakeFiltered(a: array<int>, p: int -> bool) returns (size: int)
    modifies a
    ensures 0 <= size <= a.Length
    ensures a[..size] == Filter(old(a[..]), p)
  {
    ghost var original := a[..];
    var first := 0;
    while first < a.Length && p(a[first])
      invariant 0 <= first <= a.Length
      invariant a[..] == original
      invariant Filter(original[..first], p) == original[..first]
    {
      FilterSnoc(original, first, p);
      assert original[..first + 1] == original[..first] + [original[first]];
      first := first + 1;
    }
    if first == a.Length {
      assert original[..first] == original;
      return first;
    }
    FilterSnoc(original, first, p);
    size := MoveKept(a, p, first, original);
  }

  /**
   * The second loop of `makeFiltered`: from the first rejected element at
   * `start` on, every kept element is moved down to the next free slot.
   */
  method MoveKept(a: array<int>, p: int -> bool, start: int, ghost original: seq<int>) returns (size: int)
    requires 0 <= start < a.Length && a[..] == original
    requires Filter(original[..start + 1], p) == original[..start]
    modifies a
    ensures 0 <= size <= a.Length
    ensures a[..size] == Filter(original, p)
  {
    var first, it := start, start;
    while it + 1 < a.Length
      invariant first <= it < a.Length
      invariant a[..first] == Filter(original[..it + 1], p)
      invariant a[it + 1..] == original[it + 1..]
    {
      it := it + 1;
      FilterSnoc(original, it, p);
      assert a[it] == original[it];
      if p(a[it]) {
        MoveDown(a, first, it);
        first := first + 1;
      }
    }
    assert original[..it + 1] == original;
    size := first;
  }

  /** `*first = std::move(*it)` for a slot `first` below `it`. */
  method MoveDown(a: array<int>, first: int, it: int)
    requires 0 <= first < it < a.Length
    modifies a
    ensures a[..first + 1] == old(a[..first]) + [old(a[it])]
    ensures a[it + 1..] == old(a[it + 1..])
  {
    a[first] := a[it];
  }

  /**
   * `removeEqual`: drops every element equal to `value` (`std::remove` and
   * the shrink) and returns the kept elements with the number removed, which
   * is the number of occurrences of `value`.
   */
  function RemoveEqual(s: seq<int>, value: int): (r: (seq<int>, int))
    ensures r.1 == |s| - |r.0| == multiset(s)[value]
    ensures value !in r.0
    ensures forall x :: x != value ==> multiset(r.0)[x] == multiset(s)[x]
  {
    var kept := Filter(s, x => x != value);
    FilterCounts(s, x => x != value);
    RemovedCount(s, value);
    assert value !in multiset(kept);
    (kept, |s| - |kept|)
  }

  lemma {:induction false} RemovedCount(s: seq<int>, value: int)
    ensures |s| - |Filter(s, x => x != value)| == multiset(s)[value]
  {
    if |s| > 0 {
      var init := s[..|s| - 1];
      RemovedCount(init, value);
      assert s == init + [s[|s| - 1]];
    }
  }

  /** `removeEqual` keeps the other elements in their order. */
  lemma RemoveEqualOrder(s: seq<int>, t: seq<int>, value: int)
    ensures RemoveEqual(s + t, value).0 == RemoveEqual(s, value).0 + RemoveEqual(t, value).0
  {
    FilterConcat(s, t, x => x != value);
  }
}
