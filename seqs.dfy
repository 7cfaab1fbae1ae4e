// Counting over flag sequences, shared by the vectors that keep a valid
// flag per slot (SparseVector, IndexedVector).
module Seqs {
  /** The number of true entries. */
  function CountTrue(s: seq<bool>): (r: nat)
    ensures r <= |s|
  {
    if s == [] then 0 else CountTrue(s[..|s| - 1]) + (if s[|s| - 1] then 1 else 0)
  }

  lemma CountTrueAppend(s: seq<bool>, b: bool)
    ensures CountTrue(s + [b]) == CountTrue(s) + (if b then 1 else 0)
  {
    assert (s + [b])[..|s|] == s;
  }

  /** Overwriting one flag changes the count by the difference. */
  lemma {:induction false} CountTrueUpdate(s: seq<bool>, i: nat, b: bool)
    requires i < |s|
    ensures CountTrue(s[i := b]) == CountTrue(s) - (if s[i] then 1 else 0) + (if b then 1 else 0)
  {
    var last := |s| - 1;
    if i == last {
      assert s[i := b][..last] == s[..last];
    } else {
      assert s[i := b][..last] == s[..last][i := b];
      CountTrueUpdate(s[..last], i, b);
    }
  }

  /** A positive count has a true entry. */
  lemma {:induction false} CountTruePositive(s: seq<bool>)
    requires CountTrue(s) > 0
    ensures exists i | 0 <= i < |s| :: s[i]
  {
    var last := |s| - 1;
    if !s[last] {
      CountTruePositive(s[..last]);
      var i :| 0 <= i < last && s[..last][i];
      assert s[i];
    }
  }

  /** All flags set: the count is the length. */
  lemma {:induction false} CountTrueAll(s: seq<bool>)
    requires forall i | 0 <= i < |s| :: s[i]
    ensures CountTrue(s) == |s|
  {
    if s != [] {
      CountTrueAll(s[..|s| - 1]);
    }
  }

  /** No flag set: the count is zero. */
  lemma {:induction false} CountTrueNone(s: seq<bool>)
    requires forall i | 0 <= i < |s| :: !s[i]
    ensures CountTrue(s) == 0
  {
    if s != [] {
      CountTrueNone(s[..|s| - 1]);
    }
  }

  /** The count of a concatenation is the sum of the counts. */
  lemma {:induction false} CountTrueConcat(x: seq<bool>, y: seq<bool>)
    ensures CountTrue(x + y) == CountTrue(x) + CountTrue(y)
  {
    if y == [] {
      assert x + y == x;
    } else {
      var y0 := y[..|y| - 1];
      assert (x + y)[..|x + y| - 1] == x + y0;
      CountTrueConcat(x, y0);
    }
  }

  /** A count below the length leaves a false entry. */
  lemma CountTrueBelow(s: seq<bool>)
    requires CountTrue(s) < |s|
    ensures exists i | 0 <= i < |s| :: !s[i]
  {
    if forall i | 0 <= i < |s| :: s[i] {
      CountTrueAll(s);
    }
  }

  function Max(a: int, b: int): int { if a >= b then a else b }
  function Min(a: int, b: int): int { if a <= b then a else b }
}
