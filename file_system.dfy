// FilePath of src/io/file_system.cpp: a path is split into elements (an
// optional root, then the names between separators), the elements are
// simplified ("." dropped, ".." cancelled against the name before it) and
// joined back with '/'. The POSIX root, the one this model takes, is a
// single leading '/'.
module FileSystem {
  import opened Wrappers

  type Elem = string

  predicate IsSep(c: char) { c == '/' || c == '\\' }

  /** Element::isDot. */
  predicate IsDot(e: Elem) { e == "." }

  /** Element::isDots. */
  predicate IsDots(e: Elem) { e == ".." }

  /** Element::isRoot: the element ends with a separator. */
  predicate IsRoot(e: Elem) { |e| > 0 && IsSep(e[|e| - 1]) }

  /** extractRoot on POSIX: the length of the root, one leading '/' or nothing. */
  function RootLength(s: string): (r: nat)
    ensures r <= |s| && (r > 0 <==> |s| > 0 && s[0] == '/')
  {
    if |s| > 0 && s[0] == '/' then 1 else 0
  }

  // ---------------------------------------------------------------------------
  // Dividing a path into elements

  /** The offset of the first separator, or |s|. */
  function FirstSep(s: string): (i: nat)
    ensures i <= |s| && forall k | 0 <= k < i :: !IsSep(s[k])
    ensures i < |s| ==> IsSep(s[i])
  {
    if s == [] then 0 else if IsSep(s[0]) then 0 else 1 + FirstSep(s[1..])
  }

  lemma {:induction false} FirstSepUnique(s: string, i: nat)
    requires i <= |s| && (forall k | 0 <= k < i :: !IsSep(s[k])) && (i < |s| ==> IsSep(s[i]))
    ensures FirstSep(s) == i
  {
  }

  /** The non-empty runs between separators, in order. */
  function Parts(s: string): seq<Elem>
    decreases |s|
  {
    if s == [] then []
    else
      var i := FirstSep(s);
      (if i == 0 then [] else [s[..i]]) + (if i == |s| then [] else Parts(s[i + 1..]))
  }

  /** What `divide` appends for a path: its root, then its parts. */
  function Divided(s: string): seq<Elem>
  {
    var r := RootLength(s);
    (if r > 0 then [s[..r]] else []) + Parts(s[r..])
  }

  /** A name element: not empty and free of separators. */
  predicate Plain(e: Elem)
  {
    e != [] && forall k | 0 <= k < |e| :: !IsSep(e[k])
  }

  /** Names everywhere, except that the first element may be the root "/". */
  predicate WellFormed(es: seq<Elem>)
  {
    forall i | 0 <= i < |es| :: Plain(es[i]) || (i == 0 && es[i] == "/")
  }

  /** Every element `divide` produces is a name. */
  lemma {:induction false} PartsPlain(s: string)
    ensures forall i | 0 <= i < |Parts(s)| :: Plain(Parts(s)[i])
    decreases |s|
  {
    if s != [] {
      var i := FirstSep(s);
      if i < |s| {
        PartsPlain(s[i + 1..]);
      }
    }
  }

  lemma {:induction false} DividedWellFormed(s: string)
    ensures WellFormed(Divided(s))
  {
    PartsPlain(s[RootLength(s)..]);
  }

  predicate NoSep(s: string, lo: nat, hi: nat)
    requires lo <= hi <= |s|
  {
    forall k | lo <= k < hi :: !IsSep(s[k])
  }

  /** The parts of `s[prev..]` when the first separator from `prev` on is at `ptr`. */
  lemma {:induction false} PartsAt(s: string, prev: nat, ptr: nat)
    requires prev <= ptr <= |s| && NoSep(s, prev, ptr) && (ptr < |s| ==> IsSep(s[ptr]))
    ensures Parts(s[prev..]) == (if ptr == prev then [] else [s[prev..ptr]]) + (if ptr == |s| then [] else Parts(s[ptr + 1..]))
  {
    var rest := s[prev..];
    FirstSepUnique(rest, ptr - prev);
    assert rest[..ptr - prev] == s[prev..ptr];
    if ptr < |s| {
      assert rest[ptr - prev + 1..] == s[ptr + 1..];
    }
  }

  /** One step of `divide`: the run from `prev` to the separator (or the end) at `ptr`. */
  method Push(s: string, prev: nat, ptr: nat, res: seq<Elem>) returns (res': seq<Elem>)
    requires prev <= ptr <= |s| && NoSep(s, prev, ptr) && (ptr < |s| ==> IsSep(s[ptr]))
    ensures res' + (if ptr == |s| then [] else Parts(s[ptr + 1..])) == res + Parts(s[prev..])
  {
    PartsAt(s, prev, ptr);
    res' := if ptr - prev > 0 then res + [s[prev..ptr]] else res;
  }

  /** One character of `divide`: a separator closes the run that began at `prev`. */
  method Scan(s: string, prev: nat, ptr: nat, res: seq<Elem>) returns (prev': nat, res': seq<Elem>)
    requires prev <= ptr < |s| && NoSep(s, prev, ptr)
    ensures prev <= prev' <= ptr + 1 && NoSep(s, prev', ptr + 1)
    ensures res' + Parts(s[prev'..]) == res + Parts(s[prev..])
  {
    if IsSep(s[ptr]) {
      res' := Push(s, prev, ptr, res);
      prev' := ptr + 1;
    } else {
      prev', res' := prev, res;
    }
  }

  /**
   * `FilePath::divide`: scans the text once, pushing each non-empty run
   * that a separator or the end closes.
   */
  method Divide(s: string, out: seq<Elem>) returns (res: seq<Elem>)
    ensures res == out + Divided(s)
  {
    assert Parts([]) == [];
    res := out;
    var ptr := 0;
    var root := RootLength(s);
    if root > 0 {
      res := res + [s[..root]];
      ptr := root;
    }
    var prev := ptr;
    ghost var target := out + Divided(s);
    assert res + Parts(s[prev..]) == target;
    hide Parts, FirstSep, Divided;
    while ptr < |s|
      invariant root <= prev <= ptr <= |s|
      invariant NoSep(s, prev, ptr)
      invariant res + Parts(s[prev..]) == target
    {
      prev, res := Scan(s, prev, ptr, res);
      ptr := ptr + 1;
    }
    res := Push(s, prev, ptr, res);
  }

  // ---------------------------------------------------------------------------
  // Simplifying the elements

  /**
   * One element of `simplify`, as written: "." is dropped, ".." removes the
   * element before it unless that is a ".." too (the root included, which
   * only a debug assertion refuses), anything else is appended.
   */
  function StepAsWritten(dst: seq<Elem>, e: Elem): seq<Elem>
  {
    if IsDot(e) then dst
    else if IsDots(e) && dst != [] && !IsDots(dst[|dst| - 1]) then dst[..|dst| - 1]
    else dst + [e]
  }

  /** One element of `simplify` with ".." at the root dropped: "/.." is "/". */
  function Step(dst: seq<Elem>, e: Elem): (r: seq<Elem>)
    ensures IsDot(e) ==> r == dst
    ensures !IsDot(e) && !IsDots(e) ==> r == dst + [e]
    ensures IsDots(e) && dst != [] && IsRoot(dst[|dst| - 1]) ==> r == dst
  {
    if IsDot(e) then dst
    else if IsDots(e) && dst != [] && !IsDots(dst[|dst| - 1]) then
      (if IsRoot(dst[|dst| - 1]) then dst else dst[..|dst| - 1])
    else dst + [e]
  }

  /** `simplify` continued from `dst` over `src`. */
  function SimplifyFrom(dst: seq<Elem>, src: seq<Elem>): seq<Elem>
    decreases |src|
  {
    if src == [] then dst else SimplifyFrom(Step(dst, src[0]), src[1..])
  }

  function Simplified(src: seq<Elem>): seq<Elem>
  {
    SimplifyFrom([], src)
  }

  function SimplifyFromAsWritten(dst: seq<Elem>, src: seq<Elem>): seq<Elem>
    decreases |src|
  {
    if src == [] then dst else SimplifyFromAsWritten(StepAsWritten(dst, src[0]), src[1..])
  }

  /**
   * `FilePath::simplify`: one pass over the elements, popping and pushing
   * the output.
   */
  method Simplify(src: seq<Elem>) returns (dst: seq<Elem>)
    ensures dst == Simplified(src)
  {
    dst := [];
    for n := 0 to |src|
      invariant SimplifyFrom(dst, src[n..]) == Simplified(src)
    {
      assert src[n..][1..] == src[n + 1..];
      if IsDot(src[n]) {
        continue;
      }
      if IsDots(src[n]) && dst != [] && !IsDots(dst[|dst| - 1]) {
        if !IsRoot(dst[|dst| - 1]) {
          dst := dst[..|dst| - 1];
        }
      } else {
        dst := dst + [src[n]];
      }
    }
    assert src[|src|..] == [];
  }

  /**
   * The simplified form: no "." and every ".." ahead of every other
   * element.
   */
  predicate Normal(es: seq<Elem>)
  {
    (forall i | 0 <= i < |es| :: !IsDot(es[i])) &&
    (forall i, j | 0 <= i < j < |es| && IsDots(es[j]) :: IsDots(es[i]))
  }

  lemma {:induction false} StepNormal(dst: seq<Elem>, e: Elem)
    requires Normal(dst)
    ensures Normal(Step(dst, e))
  {
    if !IsDot(e) && IsDots(e) && !(dst != [] && !IsDots(dst[|dst| - 1])) {
      var r := dst + [e];
      forall i, j | 0 <= i < j < |r| && IsDots(r[j])
        ensures IsDots(r[i])
      {
        if j == |dst| && i < |dst| - 1 {
          assert IsDots(dst[|dst| - 1]);
        }
      }
    }
  }

  /** Simplifying keeps a normal prefix normal. */
  lemma {:induction false} SimplifyFromNormal(dst: seq<Elem>, src: seq<Elem>)
    requires Normal(dst)
    ensures Normal(SimplifyFrom(dst, src))
    decreases |src|
  {
    if src != [] {
      StepNormal(dst, src[0]);
      SimplifyFromNormal(Step(dst, src[0]), src[1..]);
    }
  }

  /** Every simplified list is normal. */
  lemma {:induction false} SimplifiedNormal(src: seq<Elem>)
    ensures Normal(Simplified(src))
  {
    SimplifyFromNormal([], src);
  }

  /** A normal list is left as it is: simplifying is idempotent. */
  lemma {:induction false} SimplifyFromFixed(dst: seq<Elem>, src: seq<Elem>)
    requires Normal(dst + src)
    ensures SimplifyFrom(dst, src) == dst + src
    decreases |src|
  {
    if src != [] {
      var e := src[0];
      assert (dst + src)[|dst|] == e;
      if IsDots(e) && dst != [] {
        assert (dst + src)[|dst| - 1] == dst[|dst| - 1];
      }
      assert Step(dst, e) == dst + [e];
      assert dst + [e] + src[1..] == dst + src;
      SimplifyFromFixed(dst + [e], src[1..]);
    }
  }

  // ---------------------------------------------------------------------------
  // Joining the elements back into a path

  /** A root is written upper-cased and with '/' for '\\'. */
  function RootChar(c: char): char
  {
    if 'a' <= c <= 'z' then (c as int - 'a' as int + 'A' as int) as char
    else if c == '\\' then '/'
    else c
  }

  function RenderElem(e: Elem): (r: string)
    ensures |r| == |e|
  {
    if IsRoot(e) then seq(|e|, i requires 0 <= i < |e| => RootChar(e[i])) else e
  }

  /** Element `i` as `construct` writes it: a '/' follows it unless it is the last or a root. */
  function Piece(es: seq<Elem>, i: nat): string
    requires i < |es|
  {
    RenderElem(es[i]) + (if i + 1 < |es| && !IsRoot(es[i]) then "/" else "")
  }

  /** The text of the first `n` elements. */
  function JoinedUpTo(es: seq<Elem>, n: nat): string
    requires n <= |es|
  {
    if n == 0 then [] else JoinedUpTo(es, n - 1) + Piece(es, n - 1)
  }

  /** The path `construct` writes for simplified elements: "." when there are none. */
  function Render(es: seq<Elem>): string
  {
    if es == [] then "." else JoinedUpTo(es, |es|)
  }

  /** A root, if any, is the first element. */
  predicate RootFront(es: seq<Elem>)
  {
    forall i | 0 < i < |es| :: !IsRoot(es[i])
  }

  /** The total element length `construct` adds up first. */
  function SumLength(es: seq<Elem>): nat
  {
    if es == [] then 0 else SumLength(es[..|es| - 1]) + |es[|es| - 1]|
  }

  /** The separators among the first `n` elements. */
  function Separators(es: seq<Elem>, n: nat): int
    requires n <= |es|
  {
    if n == 0 then 0
    else (if n < |es| then n else n - 1) - (if |es| > 1 && IsRoot(es[0]) then 1 else 0)
  }

  lemma {:induction false} JoinedUpToLength(es: seq<Elem>, n: nat)
    requires n <= |es| && RootFront(es)
    ensures |JoinedUpTo(es, n)| == SumLength(es[..n]) + Separators(es, n)
  {
    if n > 0 {
      JoinedUpToLength(es, n - 1);
      assert es[..n][..n - 1] == es[..n - 1];
      assert SumLength(es[..n]) == SumLength(es[..n - 1]) + |es[n - 1]|;
      assert |JoinedUpTo(es, n)| == |JoinedUpTo(es, n - 1)| + |Piece(es, n - 1)|;
      assert |Piece(es, n - 1)| == |es[n - 1]| + Separators(es, n) - Separators(es, n - 1) by {
        if n > 1 {
          assert !IsRoot(es[n - 1]);
        }
      }
    }
  }

  lemma {:induction false} JoinedUpToMonotone(es: seq<Elem>, n: nat, m: nat)
    requires n <= m <= |es|
    ensures |JoinedUpTo(es, n)| <= |JoinedUpTo(es, m)|
    decreases m
  {
    if n < m {
      JoinedUpToMonotone(es, n, m - 1);
    }
  }

  /** The text of a list is its first piece followed by the text of the rest. */
  lemma {:induction false} JoinedUpToCons(es: seq<Elem>, n: nat)
    requires 0 < n <= |es|
    ensures JoinedUpTo(es, n) == Piece(es, 0) + JoinedUpTo(es[1..], n - 1)
  {
    if n > 1 {
      JoinedUpToCons(es, n - 1);
      assert Piece(es[1..], n - 2) == Piece(es, n - 1);
    }
  }

  /** Simplifying never moves a name in front of the root. */
  lemma {:induction false} SimplifyFromRootFront(dst: seq<Elem>, src: seq<Elem>)
    requires RootFront(dst) && forall i | 0 <= i < |src| :: !IsRoot(src[i])
    ensures RootFront(SimplifyFrom(dst, src))
    decreases |src|
  {
    if src != [] {
      var next := Step(dst, src[0]);
      assert RootFront(next);
      SimplifyFromRootFront(next, src[1..]);
    }
  }

  lemma {:induction false} SimplifiedRootFront(src: seq<Elem>)
    requires RootFront(src)
    ensures RootFront(Simplified(src))
  {
    if src != [] {
      assert RootFront(Step([], src[0]));
      SimplifyFromRootFront(Step([], src[0]), src[1..]);
    }
  }

  lemma {:induction false} WellFormedRootFront(es: seq<Elem>)
    requires WellFormed(es)
    ensures RootFront(es)
  {
    forall i | 0 < i < |es|
      ensures !IsRoot(es[i])
    {
      assert Plain(es[i]);
      assert es[i][|es[i]| - 1] in es[i];
    }
  }

  /** The path a text stands for: divided, simplified and joined again. */
  function Canon(s: string): string
  {
    Render(Simplified(Divided(s)))
  }

  /** A text that is its own path. */
  predicate Canonical(s: string)
  {
    Canon(s) == s
  }

  /**
   * The memcpy of one element into the new path, and for a root the
   * upper-casing and '\\'-to-'/' pass over the copied characters.
   */
  method WriteElem(a: array<char>, at: nat, e: Elem)
    requires at + |e| <= a.Length
    modifies a
    ensures a[..at] == old(a[..at]) && a[at..at + |e|] == RenderElem(e)
  {
    for i := 0 to |e|
      invariant forall k | 0 <= k < at :: a[k] == old(a[k])
      invariant forall k | 0 <= k < i :: a[at + k] == e[k]
    {
      a[at + i] := e[i];
    }
    if IsRoot(e) {
      for i := 0 to |e|
        invariant forall k | 0 <= k < at :: a[k] == old(a[k])
        invariant forall k | 0 <= k < i :: a[at + k] == RootChar(e[k])
        invariant forall k | i <= k < |e| :: a[at + k] == e[k]
      {
        var c := a[at + i];
        if 'a' <= c <= 'z' {
          c := (c as int - 'a' as int + 'A' as int) as char;
        }
        if c == '\\' {
          c := '/';
        }
        a[at + i] := c;
      }
    }
    assert a[..at] == old(a[..at]);
    assert a[at..at + |e|] == RenderElem(e);
  }

  lemma {:induction false} SliceSplit<T>(a: seq<T>, i: nat, j: nat)
    requires i <= j <= |a|
    ensures a[..j] == a[..i] + a[i..j]
  {
  }

  lemma {:induction false} JoinedUpToStep(es: seq<Elem>, n: nat)
    requires n < |es|
    ensures JoinedUpTo(es, n + 1) == JoinedUpTo(es, n) + Piece(es, n)
    ensures Piece(es, n) == RenderElem(es[n]) + (if n + 1 < |es| && !IsRoot(es[n]) then "/" else "")
  {
  }

  lemma {:induction false} Assoc3<T>(a: seq<T>, b: seq<T>, c: seq<T>)
    ensures (a + b) + c == a + (b + c) && a + [] == a
  {
  }

  /** The first loop of `construct`: the length of the text the elements make. */
  method RenderedLength(elements: seq<Elem>) returns (length: int)
    requires elements != [] && RootFront(elements)
    ensures length == |JoinedUpTo(elements, |elements|)|
  {
    length := 0;
    for n := 0 to |elements|
      invariant length == SumLength(elements[..n])
    {
      assert elements[..n + 1][..n] == elements[..n];
      length := length + |elements[n]|;
    }
    length := length + |elements| - 1;
    if |elements| > 1 && IsRoot(elements[0]) {
      length := length - 1;
    }
    JoinedUpToLength(elements, |elements|);
    assert elements[..|elements|] == elements;
  }

  /** One round of the second loop of `construct`: element `n` and the '/' after it. */
  method WritePiece(a: array<char>, at: nat, elements: seq<Elem>, n: nat) returns (next: nat)
    requires n < |elements| && a.Length == |JoinedUpTo(elements, |elements|)|
    requires at == |JoinedUpTo(elements, n)| <= a.Length && a[..at] == JoinedUpTo(elements, n)
    modifies a
    ensures next == |JoinedUpTo(elements, n + 1)| <= a.Length && a[..next] == JoinedUpTo(elements, n + 1)
  {
    JoinedUpToMonotone(elements, n + 1, |elements|);
    JoinedUpToStep(elements, n);
    hide JoinedUpTo, Piece, RenderElem;
    var elem := elements[n];
    ghost var prefix := a[..at];
    WriteElem(a, at, elem);
    SliceSplit(a[..], at, at + |elem|);
    ghost var written := a[..at + |elem|];
    assert written == prefix + RenderElem(elem);
    next := at + |elem|;
    if n + 1 < |elements| && !IsRoot(elem) {
      a[next] := '/';
      SliceSplit(a[..], next, next + 1);
      assert a[..next + 1] == written + "/";
      next := next + 1;
      Assoc3(prefix, RenderElem(elem), "/");
    } else {
      Assoc3(prefix, RenderElem(elem), "");
    }
  }

  /** The second loop of `construct`: fills a string of the computed length. */
  method WriteElements(elements: seq<Elem>, length: nat) returns (text: string)
    requires length == |JoinedUpTo(elements, |elements|)|
    ensures text == JoinedUpTo(elements, |elements|)
  {
    var newPath := new char[length](_ => ' ');
    var at := 0;
    JoinedUpToMonotone(elements, 0, |elements|);
    for n := 0 to |elements|
      invariant at == |JoinedUpTo(elements, n)| <= newPath.Length && newPath[..at] == JoinedUpTo(elements, n)
    {
      at := WritePiece(newPath, at, elements, n);
    }
    assert newPath[..] == newPath[..at];
    text := newPath[..];
  }

  // ---------------------------------------------------------------------------
  // Round trips between the text and the elements

  lemma {:induction false} PartsName(e: Elem)
    requires Plain(e)
    ensures Parts(e) == [e]
  {
    FirstSepUnique(e, |e|);
    assert e[..|e|] == e;
  }

  lemma {:induction false} PartsNameThen(e: Elem, rest: string)
    requires Plain(e)
    ensures Parts(e + "/" + rest) == [e] + Parts(rest)
  {
    var s := e + "/" + rest;
    assert forall k | 0 <= k < |e| :: s[k] == e[k];
    FirstSepUnique(s, |e|);
    assert s[..|e|] == e && s[|e| + 1..] == rest;
  }

  lemma {:induction false} RenderName(e: Elem)
    requires Plain(e)
    ensures !IsRoot(e) && RenderElem(e) == e
  {
    assert e[|e| - 1] in e;
  }

  /** The text of a list that starts with a name. */
  lemma {:induction false} JoinedName(es: seq<Elem>)
    requires es != [] && Plain(es[0])
    ensures JoinedUpTo(es, |es|) == es[0] + (if |es| > 1 then "/" else "") + JoinedUpTo(es[1..], |es| - 1)
  {
    JoinedUpToCons(es, |es|);
    RenderName(es[0]);
  }

  /** The text of a list that starts with the root. */
  lemma {:induction false} JoinedRoot(es: seq<Elem>)
    requires es != [] && es[0] == "/"
    ensures JoinedUpTo(es, |es|) == "/" + JoinedUpTo(es[1..], |es| - 1)
  {
    JoinedUpToCons(es, |es|);
    assert RenderElem(es[0]) == "/";
  }

  lemma {:induction false} TailPlain(es: seq<Elem>, from: nat)
    requires from <= |es| && forall i | from <= i < |es| :: Plain(es[i])
    ensures forall i | 0 <= i < |es[from..]| :: Plain(es[from..][i])
  {
    forall i | 0 <= i < |es[from..]|
      ensures Plain(es[from..][i])
    {
      assert es[from..][i] == es[from + i];
    }
  }

  lemma {:induction false} PartsJoinedEmpty(es: seq<Elem>)
    requires es == []
    ensures Parts(JoinedUpTo(es, |es|)) == es
  {
    assert JoinedUpTo(es, 0) == [];
  }

  lemma {:induction false} PartsJoinedOne(es: seq<Elem>)
    requires |es| == 1 && Plain(es[0])
    ensures Parts(JoinedUpTo(es, |es|)) == es
  {
    JoinedName(es);
    assert JoinedUpTo(es[1..], 0) == [];
    PartsName(es[0]);
    assert es[0] + "" + [] == es[0];
    assert es == [es[0]];
  }

  lemma {:induction false} PartsJoinedStep(es: seq<Elem>)
    requires |es| > 1 && Plain(es[0]) && Parts(JoinedUpTo(es[1..], |es| - 1)) == es[1..]
    ensures Parts(JoinedUpTo(es, |es|)) == es
  {
    JoinedName(es);
    hide *;
    PartsNameThen(es[0], JoinedUpTo(es[1..], |es| - 1));
    assert es == [es[0]] + es[1..];
  }

  /** Names joined with '/' divide back into the same names. */
  lemma {:induction false} PartsJoined(es: seq<Elem>)
    requires forall i | 0 <= i < |es| :: Plain(es[i])
    ensures Parts(JoinedUpTo(es, |es|)) == es
    decreases |es|
  {
    hide *;
    if es == [] {
      PartsJoinedEmpty(es);
    } else if |es| == 1 {
      PartsJoinedOne(es);
    } else {
      TailPlain(es, 1);
      PartsJoined(es[1..]);
      PartsJoinedStep(es);
    }
  }

  /** The text of names joined with '/' starts with the first name. */
  lemma {:induction false} JoinedStartsWithName(es: seq<Elem>)
    requires es != [] && Plain(es[0])
    ensures |JoinedUpTo(es, |es|)| > 0 && JoinedUpTo(es, |es|)[0] == es[0][0]
  {
    JoinedName(es);
  }

  lemma {:induction false} DividedRootRender(es: seq<Elem>)
    requires WellFormed(es) && es != [] && es[0] == "/"
    ensures Divided(Render(es)) == es
  {
    var rest := es[1..];
    TailPlain(es, 1);
    PartsJoined(rest);
    JoinedRoot(es);
    var t := JoinedUpTo(es, |es|);
    assert t[1..] == JoinedUpTo(rest, |rest|);
    assert t[..1] == "/";
    assert es == ["/"] + rest;
  }

  lemma {:induction false} DividedNameRender(es: seq<Elem>)
    requires WellFormed(es) && es != [] && Plain(es[0])
    ensures Divided(Render(es)) == es
  {
    TailPlain(es, 0);
    assert es[0..] == es;
    PartsJoined(es);
    JoinedStartsWithName(es);
    var t := JoinedUpTo(es, |es|);
    assert RootLength(t) == 0;
    assert t[0..] == t;
  }

  /** `divide` takes apart what `construct` writes. */
  lemma {:induction false} DividedRender(es: seq<Elem>)
    requires WellFormed(es) && es != []
    ensures Divided(Render(es)) == es
  {
    if es[0] == "/" {
      DividedRootRender(es);
    } else {
      DividedNameRender(es);
    }
  }

  /** Simplifying appends only names of the input and keeps a root in front. */
  lemma {:induction false} SimplifyFromWellFormed(dst: seq<Elem>, src: seq<Elem>)
    requires WellFormed(dst) && forall i | 0 <= i < |src| :: Plain(src[i])
    ensures WellFormed(SimplifyFrom(dst, src))
    decreases |src|
  {
    if src != [] {
      var next := Step(dst, src[0]);
      assert WellFormed(next);
      SimplifyFromWellFormed(next, src[1..]);
    }
  }

  lemma {:induction false} SimplifiedWellFormed(src: seq<Elem>)
    requires WellFormed(src)
    ensures WellFormed(Simplified(src))
  {
    if src != [] {
      assert WellFormed(Step([], src[0]));
      SimplifyFromWellFormed(Step([], src[0]), src[1..]);
    }
  }

  /** A normal list needs no simplifying. */
  lemma {:induction false} SimplifiedFixed(es: seq<Elem>)
    requires Normal(es)
    ensures Simplified(es) == es
  {
    assert [] + es == es;
    SimplifyFromFixed([], es);
  }

  /** What `construct` writes is a path of its own: constructing it again changes nothing. */
  lemma {:induction false} RenderCanonical(src: seq<Elem>)
    requires WellFormed(src)
    ensures Canonical(Render(Simplified(src)))
  {
    var n := Simplified(src);
    SimplifiedWellFormed(src);
    SimplifiedNormal(src);
    if n == [] {
      assert Divided(".") == ["."] by {
        PartsName(".");
        assert "."[0..] == ".";
      }
      assert Step([], ".") == [];
    } else {
      DividedRender(n);
      SimplifiedFixed(n);
    }
  }

  /** `FilePath(FilePath(s))` is `FilePath(s)`. */
  lemma {:induction false} CanonIdempotent(s: string)
    ensures Canonical(Canon(s))
    ensures Canon(Canon(s)) == Canon(s)
  {
    DividedWellFormed(s);
    RenderCanonical(Divided(s));
  }

  lemma {:induction false} SimplifyFromKeepsRoot(dst: seq<Elem>, src: seq<Elem>)
    requires dst != [] && dst[0] == "/"
    ensures var r := SimplifyFrom(dst, src); r != [] && r[0] == "/"
    decreases |src|
  {
    if src != [] {
      var next := Step(dst, src[0]);
      assert next != [] && next[0] == "/";
      SimplifyFromKeepsRoot(next, src[1..]);
    }
  }

  predicate AllPlain(es: seq<Elem>)
  {
    forall i | 0 <= i < |es| :: Plain(es[i])
  }

  lemma {:induction false} SimplifyFromPlain(dst: seq<Elem>, src: seq<Elem>)
    requires AllPlain(dst) && AllPlain(src)
    ensures AllPlain(SimplifyFrom(dst, src))
    decreases |src|
  {
    if src != [] {
      var next := Step(dst, src[0]);
      assert AllPlain(next);
      SimplifyFromPlain(next, src[1..]);
    }
  }

  /** A path is absolute exactly when the text it was made from is. */
  lemma {:induction false} CanonAbsolute(s: string)
    ensures RootLength(Canon(s)) > 0 <==> RootLength(s) > 0
  {
    var d := Divided(s);
    var n := Simplified(d);
    if RootLength(s) > 0 {
      assert d[0] == "/";
      assert Step([], d[0]) == ["/"];
      SimplifyFromKeepsRoot(["/"], d[1..]);
      JoinedRoot(n);
    } else {
      PartsPlain(s);
      assert s[0..] == s;
      assert AllPlain(d);
      SimplifyFromPlain([], d);
      if n != [] {
        JoinedStartsWithName(n);
      }
    }
  }

  // ---------------------------------------------------------------------------
  // Relative paths

  /** The number of leading elements two lists share. */
  function CommonPrefix(c: seq<Elem>, r: seq<Elem>): (n: nat)
    ensures n <= |c| && n <= |r| && c[..n] == r[..n]
    ensures n < |c| && n < |r| ==> c[n] != r[n]
  {
    if c == [] || r == [] || c[0] != r[0] then 0
    else
      var m := CommonPrefix(c[1..], r[1..]);
      assert c[..m + 1] == [c[0]] + c[1..][..m];
      assert r[..m + 1] == [r[0]] + r[1..][..m];
      1 + m
  }

  /** `k` times "..". */
  function Ups(k: nat): (r: seq<Elem>)
    ensures |r| == k && forall i | 0 <= i < k :: r[i] == ".."
  {
    seq(k, _ => "..")
  }

  /** What `relative` constructs: ".." for each element of `r` past the shared prefix, then the rest of `c`. */
  function RelativeElems(c: seq<Elem>, r: seq<Elem>): seq<Elem>
  {
    var n := CommonPrefix(c, r);
    Ups(|r| - n) + c[n..]
  }

  /** The path `a / b`. */
  function JoinPaths(a: string, b: string): string
  {
    Render(Simplified(Divided(a) + Divided(b)))
  }

  /** The path `c.relative(r)`. */
  function RelativePath(c: string, r: string): string
  {
    Render(Simplified(RelativeElems(Divided(c), Divided(r))))
  }

  /** The elements of an absolute path: the root, then names, none of them "." or "..". */
  predicate AbsoluteElems(es: seq<Elem>)
  {
    es != [] && es[0] == "/" && WellFormed(es) && Normal(es) &&
    forall i | 0 <= i < |es| :: !IsDots(es[i])
  }

  lemma {:induction false} CanonicalAbsolute(p: string)
    requires Canonical(p) && RootLength(p) > 0
    ensures AbsoluteElems(Divided(p)) && Render(Divided(p)) == p
  {
    var d := Divided(p);
    var n := Simplified(d);
    DividedWellFormed(p);
    SimplifiedWellFormed(d);
    SimplifiedNormal(d);
    assert n != [];
    DividedRender(n);
    assert Divided(p) == n;
    assert n[0] == "/";
    assert !IsDots(n[0]);
    forall i | 0 <= i < |n|
      ensures !IsDots(n[i])
    {
    }
  }

  /** Continuing over a concatenation is continuing over each part in turn. */
  lemma {:induction false} SimplifyFromConcat(dst: seq<Elem>, a: seq<Elem>, b: seq<Elem>)
    ensures SimplifyFrom(dst, a + b) == SimplifyFrom(SimplifyFrom(dst, a), b)
    decreases |a|
  {
    if a == [] {
      assert a + b == b;
    } else {
      assert (a + b)[0] == a[0] && (a + b)[1..] == a[1..] + b;
      SimplifyFromConcat(Step(dst, a[0]), a[1..], b);
    }
  }

  /** Each ".." removes one trailing name. */
  lemma {:induction false} SimplifyFromUps(dst: seq<Elem>, k: nat)
    requires k <= |dst| && forall i | |dst| - k <= i < |dst| :: !IsDots(dst[i]) && !IsRoot(dst[i])
    ensures SimplifyFrom(dst, Ups(k)) == dst[..|dst| - k]
    decreases k
  {
    if k == 0 {
      assert dst[..|dst|] == dst;
    } else {
      var next := dst[..|dst| - 1];
      assert Step(dst, "..") == next;
      assert Ups(k)[1..] == Ups(k - 1);
      SimplifyFromUps(next, k - 1);
      assert next[..|next| - (k - 1)] == dst[..|dst| - k];
    }
  }

  /** The relative elements of two absolute paths are normal names. */
  lemma {:induction false} RelativeElemsNormal(c: seq<Elem>, r: seq<Elem>)
    requires AbsoluteElems(c) && AbsoluteElems(r)
    ensures CommonPrefix(c, r) >= 1
    ensures AllPlain(RelativeElems(c, r)) && Normal(RelativeElems(c, r))
  {
    var n := CommonPrefix(c, r);
    assert c[0] == r[0];
    var o := RelativeElems(c, r);
    var k := |r| - n;
    forall i | 0 <= i < |o|
      ensures Plain(o[i]) && !IsDot(o[i])
    {
      if i >= k {
        assert o[i] == c[n + i - k];
      }
    }
    forall j | k <= j < |o|
      ensures !IsDots(o[j])
    {
      assert o[j] == c[n + j - k];
    }
  }

  /** The names after the shared prefix of an absolute path are neither ".." nor a root. */
  lemma {:induction false} NamesAfterPrefix(re: seq<Elem>, n: nat)
    requires AbsoluteElems(re) && 1 <= n <= |re|
    ensures forall i | n <= i < |re| :: !IsDots(re[i]) && !IsRoot(re[i])
  {
    forall i | n <= i < |re|
      ensures !IsDots(re[i]) && !IsRoot(re[i])
    {
      assert Plain(re[i]);
      RenderName(re[i]);
    }
  }

  /** The ".." elements of a relative path climb `r` back to the shared prefix. */
  lemma {:induction false} UpsToPrefix(ce: seq<Elem>, re: seq<Elem>)
    requires AbsoluteElems(ce) && AbsoluteElems(re)
    ensures CommonPrefix(ce, re) >= 1
    ensures SimplifyFrom(re, Ups(|re| - CommonPrefix(ce, re))) == ce[..CommonPrefix(ce, re)]
  {
    RelativeElemsNormal(ce, re);
    var n := CommonPrefix(ce, re);
    NamesAfterPrefix(re, n);
    SimplifyFromUps(re, |re| - n);
    assert re[..n] == ce[..n];
  }

  lemma {:induction false} PrefixThenRest(ce: seq<Elem>, n: nat)
    requires Normal(ce) && n <= |ce|
    ensures SimplifyFrom(ce[..n], ce[n..]) == ce
  {
    assert ce[..n] + ce[n..] == ce;
    SimplifyFromFixed(ce[..n], ce[n..]);
  }

  /** The path of `r` followed by the relative elements, simplified, is `c`'s elements. */
  lemma {:induction false} SimplifyRelative(ce: seq<Elem>, re: seq<Elem>)
    requires AbsoluteElems(ce) && AbsoluteElems(re)
    ensures Simplified(re + RelativeElems(ce, re)) == ce
  {
    UpsToPrefix(ce, re);
    SimplifiedFixed(re);
    var n := CommonPrefix(ce, re);
    var k := |re| - n;
    PrefixThenRest(ce, n);
    assert RelativeElems(ce, re) == Ups(k) + ce[n..];
    hide *;
    SimplifyFromConcat([], re, Ups(k) + ce[n..]);
    SimplifyFromConcat(re, Ups(k), ce[n..]);
  }

  lemma {:induction false} DividedDot()
    ensures Divided(".") == ["."]
  {
    PartsName(".");
    assert "."[0..] == ".";
  }

  /** `ref / path.relative(ref)` is `path` again, for absolute paths. */
  lemma {:induction false} RelativeJoin(c: string, r: string)
    requires Canonical(c) && Canonical(r) && RootLength(c) > 0 && RootLength(r) > 0
    ensures JoinPaths(r, RelativePath(c, r)) == c
  {
    CanonicalAbsolute(c);
    CanonicalAbsolute(r);
    var ce, re := Divided(c), Divided(r);
    RelativeElemsNormal(ce, re);
    var o := RelativeElems(ce, re);
    SimplifiedFixed(o);
    SimplifyRelative(ce, re);
    if o == [] {
      DividedDot();
      assert re + o == re;
      SimplifyFromConcat([], re, ["."]);
    } else {
      DividedRender(o);
    }
  }

  /** "." is a path of its own. */
  lemma {:induction false} DotCanonical()
    ensures Canonical(".")
  {
    DividedDot();
    assert Step([], ".") == [];
  }

  /** Appending a relative path gives a path of its own. */
  /** The elements of a path followed by those of a relative path are well formed. */
  lemma {:induction false} JoinedWellFormed(a: string, b: string)
    requires RootLength(b) == 0
    ensures WellFormed(Divided(a) + Divided(b)) && RootFront(Divided(a) + Divided(b))
  {
    DividedWellFormed(a);
    PartsPlain(b);
    assert b[0..] == b;
    var es := Divided(a) + Divided(b);
    assert WellFormed(es);
    WellFormedRootFront(es);
  }

  lemma {:induction false} JoinCanonical(a: string, b: string)
    requires RootLength(b) == 0
    ensures Canonical(JoinPaths(a, b))
  {
    JoinedWellFormed(a, b);
    RenderCanonical(Divided(a) + Divided(b));
  }

  /** A path written from a root starts with '/'. */
  lemma {:induction false} RenderRootFirst(n: seq<Elem>)
    ensures n != [] && n[0] == "/" ==> |Render(n)| > 0 && Render(n)[0] == '/'
  {
    if n != [] && n[0] == "/" {
      JoinedRoot(n);
    }
  }

  /** The text after "~/" in a path is not absolute. */
  lemma {:induction false} TildeRest(p: string)
    requires Canonical(p) && |p| >= 2 && p[0] == '~' && p[1] == '/'
    ensures RootLength(p[2..]) == 0
  {
    var n := Simplified(Divided(p));
    DividedWellFormed(p);
    SimplifiedWellFormed(Divided(p));
    if |p| > 2 {
      RenderRootFirst(n);
      assert n[0] != "/";
      assert Plain(n[0]);
      JoinedName(n);
      assert forall k | 0 <= k < |n[0]| :: p[k] == n[0][k];
      assert |n[0]| == 1;
      assert |n| > 1;
      var rest := n[1..];
      assert p == n[0] + "/" + JoinedUpTo(rest, |rest|);
      assert Plain(rest[0]) by { assert rest[0] == n[1]; }
      JoinedStartsWithName(rest);
      assert p[2] == rest[0][0];
    }
  }

  /** The last offset of `c` in `s`, or -1. */
  function LastIndex(s: string, c: char): (r: int)
    ensures -1 <= r < |s|
    ensures r >= 0 ==> s[r] == c
    ensures forall k | r < k < |s| :: s[k] != c
  {
    if s == [] then -1
    else if s[|s| - 1] == c then |s| - 1
    else LastIndex(s[..|s| - 1], c)
  }

  /** The last occurrence is the one with no occurrence after it. */
  lemma LastIndexIs(s: string, c: char, k: int)
    requires -1 <= k < |s| && (k >= 0 ==> s[k] == c)
    requires forall j | k < j < |s| :: s[j] != c
    ensures LastIndex(s, c) == k
  {
  }

  /** The shared prefix is where the two lists first differ. */
  lemma {:induction false} CommonPrefixUnique(c: seq<Elem>, r: seq<Elem>, n: nat)
    requires n <= |c| && n <= |r| && c[..n] == r[..n]
    requires n < |c| && n < |r| ==> c[n] != r[n]
    ensures CommonPrefix(c, r) == n
  {
    var m := CommonPrefix(c, r);
    assert forall k | 0 <= k < n :: c[k] == c[..n][k] && r[k] == r[..n][k];
    assert forall k | 0 <= k < m :: c[k] == c[..m][k] && r[k] == r[..m][k];
  }

  /** What `relative` constructs for an absolute reference has its root, if any, in front. */
  lemma {:induction false} RelativeRootFront(c: seq<Elem>, r: seq<Elem>)
    requires WellFormed(c) && r != [] && r[0] == "/"
    ensures RootFront(RelativeElems(c, r))
  {
    var n := CommonPrefix(c, r);
    var o := RelativeElems(c, r);
    var k := |r| - n;
    assert |c| > 0 && n == 0 ==> c[0] != r[0];
    forall i | 0 < i < |o|
      ensures !IsRoot(o[i])
    {
      if i >= k {
        var j := n + i - k;
        assert o[i] == c[j];
        assert Plain(c[j]);
        RenderName(c[j]);
      }
    }
  }

  /** The first loop of `relative`: the length of the shared prefix. */
  method SharedPrefix(celems: seq<Elem>, relems: seq<Elem>) returns (n: nat)
    ensures n == CommonPrefix(celems, relems)
  {
    n := 0;
    var count := if |celems| < |relems| then |celems| else |relems|;
    while n < count && celems[n] == relems[n]
      invariant n <= count && celems[..n] == relems[..n]
    {
      assert celems[..n + 1] == relems[..n + 1];
      n := n + 1;
    }
    CommonPrefixUnique(celems, relems, n);
  }

  /** The loops of `relative`: the shared prefix, then the ".."s, then the rest of `celems`. */
  method RelativeElements(celems: seq<Elem>, relems: seq<Elem>) returns (oelems: seq<Elem>)
    ensures oelems == RelativeElems(celems, relems)
  {
    var n := SharedPrefix(celems, relems);
    oelems := [];
    for i := n to |relems|
      invariant oelems == Ups(i - n)
    {
      assert Ups(i - n) + [".."] == Ups(i + 1 - n);
      oelems := oelems + [".."];
    }
    for i := n to |celems|
      invariant oelems == Ups(|relems| - n) + celems[n..i]
    {
      assert celems[n..i + 1] == celems[n..i] + [celems[i]];
      oelems := oelems + [celems[i]];
    }
    assert celems[n..|celems|] == celems[n..];
  }

  /** The loop of `isRelative`: do the two lists agree up to the shorter length? */
  method SharedPrefixLoop(celems: seq<Elem>, relems: seq<Elem>) returns (b: bool)
    ensures b <==> CommonPrefix(celems, relems) == if |celems| < |relems| then |celems| else |relems|
  {
    var count := if |celems| < |relems| then |celems| else |relems|;
    for n := 0 to count
      invariant celems[..n] == relems[..n]
    {
      if celems[n] != relems[n] {
        CommonPrefixUnique(celems, relems, n);
        return false;
      }
      assert celems[..n + 1] == relems[..n + 1];
    }
    CommonPrefixUnique(celems, relems, count);
    return true;
  }

  // ---------------------------------------------------------------------------
  // ".." at the root

  /**
   * As written, `simplify` lets ".." remove the root (a debug assertion
   * stops it), so "/.." becomes the relative path ".".
   */
  lemma {:induction false} RootParentAsWritten()
    ensures Divided("/..") == ["/", ".."]
    ensures Render(SimplifyFromAsWritten([], Divided("/.."))) == "."
  {
    PartsName("..");
    assert "/.."[..1] == "/" && "/.."[1..] == "..";
  }

  /** With ".." at the root dropped, "/.." is the root. */
  lemma {:induction false} RootParent()
    ensures Canon("/..") == "/"
  {
    RootParentAsWritten();
    assert Simplified(["/", ".."]) == ["/"];
    JoinedRoot(["/"]);
  }

  // ---------------------------------------------------------------------------
  // File names

  /** The text after the last '/'. */
  function AfterSlash(s: string): (r: string)
    ensures '/' !in r && |r| <= |s| && r == s[|s| - |r|..]
  {
    var slash := LastIndex(s, '/');
    if slash != -1 then s[slash + 1..] else s
  }

  /** `fileNameExtension`: the text after the last '.' of the file name, if it has one. */
  function FileNameExtension(s: string): (r: Option<string>)
    ensures r.None? <==> '.' !in AfterSlash(s)
    ensures r.Some? ==> '.' !in r.value && '/' !in r.value
  {
    var name := AfterSlash(s);
    var dot := LastIndex(name, '.');
    if dot == -1 then None else Some(name[dot + 1..])
  }

  /** `fileNameStem`: the file name up to its last '.'. */
  function FileNameStem(s: string): (r: string)
    ensures '/' !in r
  {
    var name := AfterSlash(s);
    var dot := LastIndex(name, '.');
    if dot == -1 then name else name[..dot]
  }

  /** The stem, a '.' and the extension make up the file name. */
  lemma {:induction false} StemAndExtension(s: string)
    ensures FileNameExtension(s).Some? ==> AfterSlash(s) == FileNameStem(s) + "." + FileNameExtension(s).value
    ensures FileNameExtension(s).None? ==> FileNameStem(s) == AfterSlash(s)
  {
    var name := AfterSlash(s);
    var dot := LastIndex(name, '.');
    if dot != -1 {
      assert name == name[..dot] + "." + name[dot + 1..];
    }
  }

  /** The examples of the file name tests. */
  lemma {:induction false} ExtensionExample()
    ensures FileNameExtension("foo.xx/name.bar.xx") == Some("xx")
  {
    var s := "foo.xx/name.bar.xx";
    LastIndexIs(s, '/', 6);
    assert s[7..] == "name.bar.xx";
    LastIndexIs("name.bar.xx", '.', 8);
  }

  lemma {:induction false} StemExample()
    ensures FileNameStem("foo.xx/name.bar.xx") == "name.bar"
  {
    var s := "foo.xx/name.bar.xx";
    LastIndexIs(s, '/', 6);
    assert s[7..] == "name.bar.xx";
    LastIndexIs("name.bar.xx", '.', 8);
  }

  lemma {:induction false} NoExtensionExample()
    ensures FileNameExtension("aaa") == None
  {
    LastIndexIs("aaa", '/', -1);
    LastIndexIs("aaa", '.', -1);
  }

  lemma {:induction false} StemAfterDirectoryExample()
    ensures FileNameStem("abc/aaa.xyz") == "aaa"
  {
    var t := "abc/aaa.xyz";
    LastIndexIs(t, '/', 3);
    assert t[4..] == "aaa.xyz";
    LastIndexIs("aaa.xyz", '.', 3);
  }

  /** `FilePath`: a path kept in its simplified text form. */
  class FilePath {
    var path: string

    predicate Valid()
      reads this
    {
      Canonical(path)
    }

    /** The default path, ".". */
    constructor Current()
      ensures path == "." && Valid()
    {
      path := ".";
      DotCanonical();
    }

    /** The copy constructor. */
    constructor Copy(other: FilePath)
      ensures path == other.path
    {
      path := other.path;
    }

    /** `FilePath(Str)`: divides the text and constructs the path from its elements. */
    constructor(s: string)
      ensures path == Canon(s) && Valid()
    {
      CanonIdempotent(s);
      new;
      var elements := Divide(s, []);
      assert elements == Divided(s);
      DividedWellFormed(s);
      WellFormedRootFront(elements);
      Construct(elements);
    }

    /**
     * `FilePath::construct`: simplifies the elements, adds up the length of
     * the text and fills a string of that length.
     */
    method Construct(input: seq<Elem>)
      requires RootFront(input)
      modifies this
      ensures path == Render(Simplified(input))
    {
      var elements := Simplify(input);
      SimplifiedRootFront(input);
      if elements == [] {
        path := ".";
        return;
      }
      var length := RenderedLength(elements);
      path := WriteElements(elements, length);
    }

    /** `isAbsolute`: the path has a root. */
    predicate IsAbsolute()
      reads this
    {
      RootLength(path) > 0
    }

    /** `isRoot`: the path ends with '/', which only the root "/" does. */
    predicate IsRootPath()
      reads this
    {
      path != [] && path[|path| - 1] == '/'
    }

    /** `hasTildePrefix`: the path starts with "~/". */
    predicate HasTildePrefix()
      reads this
    {
      |path| >= 2 && path[0] == '~' && path[1] == '/'
    }

    /** `fileName`: the text after the last '/', or the whole path when it has none or is "/". */
    function FileName(): (r: string)
      reads this
      ensures |r| <= |path| && r == path[|path| - |r|..]
      ensures r == path || (r == path[LastIndex(path, '/') + 1..] && '/' !in r)
    {
      var it := LastIndex(path, '/');
      if it == -1 || (it == 0 && |path| == 1) then path else path[it + 1..]
    }

    /** `operator/=`: the elements of both paths, constructed into one. */
    method Append(other: FilePath)
      requires !other.IsAbsolute()
      modifies this
      ensures path == JoinPaths(old(path), old(other.path)) && Valid()
    {
      var p, q := path, other.path;
      JoinCanonical(p, q);
      JoinedWellFormed(p, q);
      var elems := Divide(p, []);
      assert elems == Divided(p);
      elems := Divide(q, elems);
      Construct(elems);
    }

    /** `operator/`: a copy of this path with `other` appended. */
    method Join(other: FilePath) returns (out: FilePath)
      requires !other.IsAbsolute()
      ensures fresh(out) && out.path == JoinPaths(path, other.path) && out.Valid()
    {
      out := new FilePath.Copy(this);
      out.Append(other);
    }

    /** `parent`: this path followed by "..". */
    method Parent() returns (out: FilePath)
      ensures fresh(out) && out.path == JoinPaths(path, "..") && out.Valid()
    {
      var dots := new FilePath("..");
      assert dots.path == ".." by {
        PartsName("..");
        assert ".."[0..] == "..";
        assert Divided("..") == [".."];
        assert Simplified([".."]) == [".."];
        JoinedName([".."]);
      }
      out := Join(dots);
    }

    /** `absolute(current)`: this path if it is absolute, otherwise `current / this`. */
    method Absolute(current: FilePath) returns (out: FilePath)
      ensures fresh(out)
      ensures out.path == if IsAbsolute() then path else JoinPaths(current.path, path)
    {
      if IsAbsolute() {
        out := new FilePath.Copy(this);
      } else {
        out := current.Join(this);
      }
    }

    /** `replaceTildePrefix`: "~/x" becomes `home / x`; other paths are kept. */
    method ReplaceTildePrefix(home: FilePath) returns (out: FilePath)
      requires Valid()
      ensures fresh(out)
      ensures out.path == if HasTildePrefix() then JoinPaths(home.path, Canon(path[2..])) else path
    {
      if HasTildePrefix() {
        TildeRest(path);
        CanonAbsolute(path[2..]);
        var rest := new FilePath(path[2..]);
        out := home.Join(rest);
      } else {
        out := new FilePath.Copy(this);
      }
    }

    /**
     * `relative(ref)`: ".." for each element of `ref` past the elements
     * both paths start with, then the remaining elements of this path.
     */
    method Relative(ref: FilePath) returns (out: FilePath)
      requires ref.IsAbsolute()
      ensures fresh(out) && out.path == RelativePath(path, ref.path)
    {
      var celems := Divide(path, []);
      var relems := Divide(ref.path, []);
      assert celems == Divided(path) && relems == Divided(ref.path);
      DividedWellFormed(path);
      var oelems := RelativeElements(celems, relems);
      RelativeRootFront(celems, relems);
      out := new FilePath.Current();
      out.Construct(oelems);
    }

    /** `isRelative(ref)`: one of the two paths starts with all the elements of the other. */
    method IsRelative(ref: FilePath) returns (b: bool)
      requires ref.IsAbsolute() && IsAbsolute()
      ensures b <==> var c, r := Divided(path), Divided(ref.path);
        CommonPrefix(c, r) == if |c| < |r| then |c| else |r|
    {
      var celems := Divide(path, []);
      var relems := Divide(ref.path, []);
      assert celems == Divided(path) && relems == Divided(ref.path);
      b := SharedPrefixLoop(celems, relems);
    }
  }
}
