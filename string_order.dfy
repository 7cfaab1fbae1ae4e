// Python's ordering of str values (code point by code point, a proper prefix
// first) and `sorted(set(xs))` over it.
module StringOrder {

  /** `a < b` on Python strings. */
  predicate StrLess(a: string, b: string)
  {
    if |a| == 0 then |b| > 0
    else if |b| == 0 then false
    else if a[0] != b[0] then a[0] < b[0]
    else StrLess(a[1..], b[1..])
  }

  lemma {:induction false} StrLessIrreflexive(a: string)
    ensures !StrLess(a, a)
  {
    if |a| > 0 {
      StrLessIrreflexive(a[1..]);
    }
  }

  lemma {:induction false} StrLessTransitive(a: string, b: string, c: string)
    requires StrLess(a, b) && StrLess(b, c)
    ensures StrLess(a, c)
  {
    if |a| > 0 && |b| > 0 && |c| > 0 && a[0] == b[0] && b[0] == c[0] {
      StrLessTransitive(a[1..], b[1..], c[1..]);
    }
  }

  lemma {:induction false} StrLessTotal(a: string, b: string)
    requires a != b
    ensures StrLess(a, b) || StrLess(b, a)
  {
    if |a| > 0 && |b| > 0 && a[0] == b[0] {
      assert a == [a[0]] + a[1..];
      assert b == [b[0]] + b[1..];
      StrLessTotal(a[1..], b[1..]);
    }
  }

  lemma StrLessAsymmetric(a: string, b: string)
    requires StrLess(a, b)
    ensures !StrLess(b, a)
  {
    if StrLess(b, a) {
      StrLessTransitive(a, b, a);
      StrLessIrreflexive(a);
    }
  }

  predicate StrictlySorted(s: seq<string>)
  {
    forall i, j :: 0 <= i < j < |s| ==> StrLess(s[i], s[j])
  }

  function Elems(s: seq<string>): set<string>
  {
    set y | y in s
  }

  /** Puts `x` into its place in a strictly sorted list, once. */
  function Insert(x: string, s: seq<string>): (r: seq<string>)
  {
    if |s| == 0 then [x]
    else if x == s[0] then s
    else if StrLess(x, s[0]) then [x] + s
    else [s[0]] + Insert(x, s[1..])
  }

  lemma {:induction false} InsertSorted(x: string, s: seq<string>)
    requires StrictlySorted(s)
    ensures StrictlySorted(Insert(x, s))
    ensures Elems(Insert(x, s)) == Elems(s) + {x}
  {
    if |s| == 0 {
    } else if x == s[0] {
      assert x in Elems(s);
    } else if StrLess(x, s[0]) {
      InsertFront(x, s);
    } else {
      StrLessTotal(x, s[0]);
      InsertSorted(x, s[1..]);
      InsertLater(x, s);
    }
  }

  lemma InsertFront(x: string, s: seq<string>)
    requires StrictlySorted(s) && |s| > 0 && StrLess(x, s[0])
    ensures StrictlySorted([x] + s)
    ensures Elems([x] + s) == Elems(s) + {x}
  {
    var r := [x] + s;
    forall i, j | 0 <= i < j < |r| ensures StrLess(r[i], r[j]) {
      if i == 0 && j > 1 {
        StrLessTransitive(x, s[0], s[j - 1]);
      }
    }
  }

  lemma InsertLater(x: string, s: seq<string>)
    requires StrictlySorted(s) && |s| > 0 && StrLess(s[0], x)
    requires StrictlySorted(Insert(x, s[1..]))
    requires Elems(Insert(x, s[1..])) == Elems(s[1..]) + {x}
    ensures StrictlySorted([s[0]] + Insert(x, s[1..]))
    ensures Elems([s[0]] + Insert(x, s[1..])) == Elems(s) + {x}
  {
    hide Insert;
    var tail := s[1..];
    var rest := Insert(x, tail);
    var r := [s[0]] + rest;
    forall k | 0 <= k < |rest| ensures StrLess(s[0], rest[k]) {
      assert rest[k] in Elems(rest);
      if rest[k] != x {
        assert rest[k] in Elems(tail);
        var m :| 0 <= m < |tail| && tail[m] == rest[k];
        assert s[m + 1] == rest[k];
      }
    }
    forall i, j | 0 <= i < j < |r| ensures StrLess(r[i], r[j]) {
      if i == 0 {
        assert r[j] == rest[j - 1];
      } else {
        assert r[i] == rest[i - 1] && r[j] == rest[j - 1];
      }
    }
    assert s == [s[0]] + tail;
    assert Elems(r) == {s[0]} + Elems(rest);
    assert Elems(s) == {s[0]} + Elems(tail);
  }

  /** `sorted(set(xs))` */
  function SortedSet(xs: seq<string>): (r: seq<string>)
    ensures StrictlySorted(r)
    ensures Elems(r) == Elems(xs)
  {
    if |xs| == 0 then []
    else
      var rest := SortedSet(xs[1..]);
      InsertSorted(xs[0], rest);
      assert xs == [xs[0]] + xs[1..];
      Insert(xs[0], rest)
  }

  lemma ElemsHead(s: seq<string>)
    requires |s| > 0
    ensures s[0] in Elems(s)
  {
  }

  /** A strictly sorted list is determined by its elements. */
  lemma {:induction false} SortedUnique(a: seq<string>, b: seq<string>)
    requires StrictlySorted(a) && StrictlySorted(b)
    requires Elems(a) == Elems(b)
    ensures a == b
  {
    if |a| > 0 { ElemsHead(a); }
    if |b| > 0 { ElemsHead(b); }
    if |a| > 0 && |b| > 0 {
      var i :| 0 <= i < |b| && b[i] == a[0];
      var j :| 0 <= j < |a| && a[j] == b[0];
      // the smallest element heads both lists
      if i > 0 && j > 0 {
        StrLessAsymmetric(b[0], a[0]);
      }
      assert a[0] == b[0] by {
        if i == 0 { } else if j == 0 { } else { }
      }
      forall y ensures y in Elems(a[1..]) <==> y in Elems(b[1..]) {
        if y in Elems(a[1..]) {
          var k :| 0 <= k < |a[1..]| && a[1..][k] == y;
          assert a[k + 1] == y;
          assert StrLess(a[0], y);
          assert y != a[0] by { StrLessIrreflexive(a[0]); }
          assert y in Elems(a);
          var m :| 0 <= m < |b| && b[m] == y;
          assert m > 0;
          assert b[1..][m - 1] == y;
        }
        if y in Elems(b[1..]) {
          var k :| 0 <= k < |b[1..]| && b[1..][k] == y;
          assert b[k + 1] == y;
          assert StrLess(b[0], y);
          assert y != b[0] by { StrLessIrreflexive(b[0]); }
          assert y in Elems(b);
          var m :| 0 <= m < |a| && a[m] == y;
          assert m > 0;
          assert a[1..][m - 1] == y;
        }
      }
      SortedUnique(a[1..], b[1..]);
      assert a == [a[0]] + a[1..];
      assert b == [b[0]] + b[1..];
    }
  }

  /** Python's order is not numeric: "9" sorts after "10". */
  lemma NineAfterTen()
    ensures StrLess("10", "9")
  {
  }
}
