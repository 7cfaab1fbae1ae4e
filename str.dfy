// The string-view helpers of str.cpp: comparison, prefix and suffix tests,
// searching, hashing, size limiting, tokenizing, case mapping, escaping and
// prefix/suffix removal. A `Str` is the sequence of bytes it views.
module Strings {
  import opened Wrappers

  /** A `char` of the original: one byte, as a Dafny character below 256. */
  type Char = c: char | c as int < 0x100

  type U32 = x: int | 0 <= x < 0x1_0000_0000

  predicate NulFree(s: seq<Char>) { forall i | 0 <= i < |s| :: s[i] != '\0' }

  // ---------------------------------------------------------------------------
  // Comparison

  /** Three-way comparison of unsigned bytes. */
  function Sign(x: Char, y: Char): int
  {
    if x < y then -1 else if x == y then 0 else 1
  }

  /** `strncmp` on the first `n` bytes: stops at the first difference or at a NUL. */
  function Strncmp(a: seq<Char>, b: seq<Char>, n: nat): (r: int)
    requires n <= |a| && n <= |b|
    ensures -1 <= r <= 1
  {
    if n == 0 then 0
    else if a[0] != b[0] then Sign(a[0], b[0])
    else if a[0] == '\0' then 0
    else Strncmp(a[1..], b[1..], n - 1)
  }

  /** `memcmp` on the first `n` bytes: stops at the first difference only. */
  function Memcmp(a: seq<Char>, b: seq<Char>, n: nat): (r: int)
    requires n <= |a| && n <= |b|
    ensures -1 <= r <= 1
  {
    if n == 0 then 0
    else if a[0] != b[0] then Sign(a[0], b[0])
    else Memcmp(a[1..], b[1..], n - 1)
  }

  /** Ties on the common prefix are broken by size. */
  function BySize(ret: int, a: seq<Char>, b: seq<Char>): int
  {
    if ret != 0 then ret else if |a| < |b| then -1 else if |a| == |b| then 0 else 1
  }

  /** `Str::compare` as written: `strncmp` on the common length, then the sizes. */
  function CompareAsWritten(a: seq<Char>, b: seq<Char>): int
  {
    var n := if |a| <= |b| then |a| else |b|;
    BySize(Strncmp(a, b, n), a, b)
  }

  /** `Str::operator==` as written. */
  predicate EqualAsWritten(a: seq<Char>, b: seq<Char>)
  {
    |a| == |b| && CompareAsWritten(a, b) == 0
  }

  /** Two different views of the same size that agree up to a NUL compare equal. */
  lemma {:induction false} CompareAsWrittenStopsAtNul()
    ensures var a, b := "a\0b", "a\0c";
      a != b && EqualAsWritten(a, b)
  {
    var a: seq<Char>, b: seq<Char> := "a\0b", "a\0c";
    assert Strncmp(a, b, 3) == Strncmp(a[1..], b[1..], 2);
  }

  /** `Str::compare` comparing all bytes of the common length (`memcmp`). */
  function Compare(a: seq<Char>, b: seq<Char>): int
  {
    var n := if |a| <= |b| then |a| else |b|;
    BySize(Memcmp(a, b, n), a, b)
  }

  /** Reference order: lexicographic on unsigned bytes, a proper prefix first. */
  predicate LexLess(a: seq<Char>, b: seq<Char>)
  {
    if a == [] then b != []
    else if b == [] then false
    else a[0] < b[0] || (a[0] == b[0] && LexLess(a[1..], b[1..]))
  }

  lemma {:induction false} StrncmpMemcmp(a: seq<Char>, b: seq<Char>, n: nat)
    requires n <= |a| && n <= |b| && NulFree(a[..n])
    ensures Strncmp(a, b, n) == Memcmp(a, b, n)
  {
    if n > 0 && a[0] == b[0] {
      assert a[1..][..n - 1] == a[..n][1..];
      StrncmpMemcmp(a[1..], b[1..], n - 1);
    }
  }

  /** Without NUL bytes the original comparison and the corrected one agree. */
  lemma {:induction false} CompareAsWrittenNulFree(a: seq<Char>, b: seq<Char>)
    requires NulFree(a)
    ensures CompareAsWritten(a, b) == Compare(a, b)
  {
    var n := if |a| <= |b| then |a| else |b|;
    StrncmpMemcmp(a, b, n);
  }

  lemma {:induction false} MemcmpZero(a: seq<Char>, b: seq<Char>, n: nat)
    requires n <= |a| && n <= |b|
    ensures Memcmp(a, b, n) == 0 <==> a[..n] == b[..n]
  {
    if n > 0 {
      MemcmpZero(a[1..], b[1..], n - 1);
      assert a[..n] == [a[0]] + a[1..][..n - 1];
      assert b[..n] == [b[0]] + b[1..][..n - 1];
    }
  }

  lemma {:induction false} MemcmpAntisymmetric(a: seq<Char>, b: seq<Char>, n: nat)
    requires n <= |a| && n <= |b|
    ensures Memcmp(a, b, n) == -Memcmp(b, a, n)
  {
    if n > 0 && a[0] == b[0] {
      MemcmpAntisymmetric(a[1..], b[1..], n - 1);
    }
  }

  lemma {:induction false} CompareLexLess(a: seq<Char>, b: seq<Char>)
    ensures Compare(a, b) < 0 <==> LexLess(a, b)
    decreases |a|
  {
    if a != [] && b != [] && a[0] == b[0] {
      CompareLexLess(a[1..], b[1..]);
    }
  }

  /** The corrected comparison is a total order: equal exactly for equal strings. */
  lemma {:induction false} CompareOrder(a: seq<Char>, b: seq<Char>)
    ensures Compare(a, b) == -Compare(b, a)
    ensures Compare(a, b) == 0 <==> a == b
    ensures Compare(a, b) < 0 <==> LexLess(a, b)
  {
    var n := if |a| <= |b| then |a| else |b|;
    MemcmpAntisymmetric(a, b, n);
    MemcmpZero(a, b, n);
    CompareLexLess(a, b);
    if |a| == |b| {
      assert a[..n] == a && b[..n] == b;
    }
  }

  /** `Str::operator==` and `operator<` over the corrected comparison. */
  predicate Equal(a: seq<Char>, b: seq<Char>) { |a| == |b| && Compare(a, b) == 0 }
  predicate Less(a: seq<Char>, b: seq<Char>) { Compare(a, b) < 0 }

  lemma {:induction false} EqualIsEquality(a: seq<Char>, b: seq<Char>)
    ensures Equal(a, b) <==> a == b
  {
    CompareOrder(a, b);
  }

  /** `::tolower` / `::toupper` in the C locale. */
  function LowerChar(c: Char): Char
  {
    if 'A' <= c <= 'Z' then (c as int + 32) as char else c
  }

  function UpperChar(c: Char): Char
  {
    if 'a' <= c <= 'z' then (c as int - 32) as char else c
  }

  /** `strncasecmp`: `strncmp` on lower-cased bytes. */
  function Strncasecmp(a: seq<Char>, b: seq<Char>, n: nat): (r: int)
    requires n <= |a| && n <= |b|
    ensures -1 <= r <= 1
  {
    if n == 0 then 0
    else if LowerChar(a[0]) != LowerChar(b[0]) then Sign(LowerChar(a[0]), LowerChar(b[0]))
    else if a[0] == '\0' then 0
    else Strncasecmp(a[1..], b[1..], n - 1)
  }

  /** `Str::compareIgnoreCase`. */
  function CompareIgnoreCase(a: seq<Char>, b: seq<Char>): int
  {
    var n := if |a| <= |b| then |a| else |b|;
    BySize(Strncasecmp(a, b, n), a, b)
  }

  lemma {:induction false} StrncasecmpLowered(a: seq<Char>, b: seq<Char>, n: nat)
    requires n <= |a| && n <= |b|
    ensures Strncasecmp(a, b, n) == Strncmp(ToLower(a), ToLower(b), n)
  {
    if n > 0 {
      ToLowerCons(a);
      ToLowerCons(b);
      StrncasecmpLowered(a[1..], b[1..], n - 1);
    }
  }

  /** Case-insensitive comparison is the comparison of the lower-cased strings. */
  lemma {:induction false} CompareIgnoreCaseLowered(a: seq<Char>, b: seq<Char>)
    ensures CompareIgnoreCase(a, b) == CompareAsWritten(ToLower(a), ToLower(b))
  {
    var n := if |a| <= |b| then |a| else |b|;
    StrncasecmpLowered(a, b, n);
  }

  // ---------------------------------------------------------------------------
  // Prefixes and suffixes

  /** `Str::startsWith`. */
  predicate StartsWith(s: seq<Char>, p: seq<Char>)
  {
    |s| >= |p| && Memcmp(s, p, |p|) == 0
  }

  /** `Str::endsWith`. */
  predicate EndsWith(s: seq<Char>, p: seq<Char>)
  {
    |s| >= |p| && Memcmp(s[|s| - |p|..], p, |p|) == 0
  }

  lemma {:induction false} StartsWithIff(s: seq<Char>, p: seq<Char>)
    ensures StartsWith(s, p) <==> |p| <= |s| && s == p + s[|p|..]
  {
    if |p| <= |s| {
      MemcmpZero(s, p, |p|);
      assert p[..|p|] == p;
      assert s == s[..|p|] + s[|p|..];
    }
  }

  lemma {:induction false} EndsWithIff(s: seq<Char>, p: seq<Char>)
    ensures EndsWith(s, p) <==> |p| <= |s| && s == s[..|s| - |p|] + p
  {
    if |p| <= |s| {
      var tail := s[|s| - |p|..];
      MemcmpZero(tail, p, |p|);
      assert tail[..|p|] == tail && p[..|p|] == p;
      assert s == s[..|s| - |p|] + tail;
    }
  }

  /** `removePrefix`: strips `prefix` when the string starts with it. */
  method RemovePrefix(str: seq<Char>, prefix: seq<Char>) returns (removed: bool, result: seq<Char>)
    ensures removed == StartsWith(str, prefix)
    ensures removed ==> prefix + result == str
    ensures !removed ==> result == str
  {
    StartsWithIff(str, prefix);
    if StartsWith(str, prefix) {
      return true, str[|prefix|..];
    }
    return false, str;
  }

  /** `removeSuffix`: strips `suffix` when the string ends with it. */
  method RemoveSuffix(str: seq<Char>, suffix: seq<Char>) returns (removed: bool, result: seq<Char>)
    ensures removed == EndsWith(str, suffix)
    ensures removed ==> result + suffix == str
    ensures !removed ==> result == str
  {
    EndsWithIff(str, suffix);
    if EndsWith(str, suffix) {
      return true, str[..|str| - |suffix|];
    }
    return false, str;
  }

  // ---------------------------------------------------------------------------
  // Searching

  /** `Str::find(char)`: the first position of `c`, or -1. */
  method Find(s: seq<Char>, c: Char) returns (r: int)
    ensures r == -1 <==> c !in s
    ensures r != -1 ==> 0 <= r < |s| && s[r] == c && c !in s[..r]
  {
    for n := 0 to |s|
      invariant c !in s[..n]
    {
      if s[n] == c {
        assert s[n] in s;
        return n;
      }
      assert s[..n + 1] == s[..n] + [s[n]];
    }
    assert s[..|s|] == s;
    return -1;
  }

  /** `Str::rfind(char)`: the last position of `c`, or -1. */
  method RFind(s: seq<Char>, c: Char) returns (r: int)
    ensures r == -1 <==> c !in s
    ensures r != -1 ==> 0 <= r < |s| && s[r] == c && c !in s[r + 1..]
  {
    var n := |s| - 1;
    while n >= 0
      invariant -1 <= n < |s|
      invariant c !in s[n + 1..]
    {
      if s[n] == c {
        return n;
      }
      assert s[n..] == [s[n]] + s[n + 1..];
      n := n - 1;
    }
    assert s[0..] == s;
    return -1;
  }

  predicate OccursAt(hay: seq<Char>, needle: seq<Char>, n: int)
  {
    0 <= n && n + |needle| <= |hay| && hay[n..n + |needle|] == needle
  }

  /**
   * `Str::find(Str)` (`findBytesOffset`, in its portable loop form): the
   * first offset where `needle` occurs, or -1; an empty needle is found at 0.
   */
  method FindStr(hay: seq<Char>, needle: seq<Char>) returns (r: int)
    ensures r == -1 <==> forall n | 0 <= n <= |hay| :: !OccursAt(hay, needle, n)
    ensures r != -1 ==> OccursAt(hay, needle, r) && forall n | 0 <= n < r :: !OccursAt(hay, needle, n)
  {
    var n := 0;
    while n < |hay| - |needle| + 1
      invariant 0 <= n
      invariant forall k | 0 <= k < n :: !OccursAt(hay, needle, k)
    {
      if hay[n..n + |needle|] == needle {
        assert OccursAt(hay, needle, n);
        return n;
      }
      n := n + 1;
    }
    return -1;
  }

  // ---------------------------------------------------------------------------
  // Hashing (stb_hash)

  const Two32: int := 0x1_0000_0000

  /** `(out << 7) + (out >> 25)` on 32 bits: the two parts do not overlap. */
  function Rotl7(x: U32): U32 { (x % 0x200_0000) * 128 + x / 0x200_0000 }

  function Rotr7(x: U32): U32 { (x % 128) * 0x200_0000 + x / 128 }

  /** The mixing step is a rotation, hence loses no bits. */
  lemma {:induction false} RotateInverse(x: U32)
    ensures Rotr7(Rotl7(x)) == x
    ensures Rotl7(Rotr7(x)) == x
  {
    var lo, hi := x % 0x200_0000, x / 0x200_0000;
    assert Rotl7(x) % 128 == hi && Rotl7(x) / 128 == lo;
    var lo2, hi2 := x % 128, x / 128;
    assert Rotr7(x) % 0x200_0000 == hi2 && Rotr7(x) / 0x200_0000 == lo2;
  }

  /** A `char` added to an unsigned word: sign-extended (x86 `char` is signed). */
  function SignedChar(c: Char): int { if c as int >= 128 then c as int - 256 else c as int }

  function HashStep(out: U32, c: Char): U32 { (Rotl7(out) + SignedChar(c)) % Two32 }

  /** The hash state after the bytes of `s`. */
  function HashState(s: seq<Char>): U32
  {
    if s == [] then 0 else HashStep(HashState(s[..|s| - 1]), s[|s| - 1])
  }

  /** Continues a hash state over more bytes. */
  function HashFrom(h: U32, s: seq<Char>): U32
    decreases |s|
  {
    if s == [] then h else HashFrom(HashStep(h, s[0]), s[1..])
  }

  /** The hash of a concatenation continues the hash of its first part. */
  lemma {:induction false} HashStateConcat(a: seq<Char>, b: seq<Char>)
    ensures HashState(a + b) == HashFrom(HashState(a), b)
    decreases |b|
  {
    hide HashStep;
    if b == [] {
      assert a + b == a;
    } else {
      var a1 := a + [b[0]];
      assert a + b == a1 + b[1..];
      assert a1[..|a1| - 1] == a && a1[|a1| - 1] == b[0];
      assert HashState(a1) == HashStep(HashState(a), b[0]);
      HashStateConcat(a1, b[1..]);
    }
  }

  /** `Str::hash`: the state, with its high half folded into the low half. */
  method Hash(s: seq<Char>) returns (h: U32)
    ensures h == (HashState(s) + HashState(s) / 0x1_0000) % Two32
  {
    var out: U32 := 0;
    for n := 0 to |s|
      invariant out == HashState(s[..n])
    {
      assert s[..n + 1][..n] == s[..n];
      out := (Rotl7(out) + SignedChar(s[n])) % Two32;
    }
    assert s[..|s|] == s;
    h := (out + out / 0x1_0000) % Two32;
  }

  // ---------------------------------------------------------------------------
  // Size limiting

  /** What `limitSizeBack` returns: the end of a long string overwritten by `suffix`. */
  function LimitedBack(s: seq<Char>, maxSize: nat, suffix: seq<Char>): (r: seq<Char>)
    requires |suffix| <= maxSize
    ensures |s| <= maxSize ==> r == s
    ensures |s| > maxSize ==>
      |r| == maxSize && EndsWith(r, suffix) && r[..maxSize - |suffix|] == s[..maxSize - |suffix|]
  {
    if |s| <= maxSize then s
    else
      var r := s[..maxSize - |suffix|] + suffix;
      EndsWithIff(r, suffix);
      r
  }

  /** What `limitSizeFront` returns: the start of the tail overwritten by `prefix`. */
  function LimitedFront(s: seq<Char>, maxSize: nat, prefix: seq<Char>): (r: seq<Char>)
    requires |prefix| <= maxSize
    ensures |s| <= maxSize ==> r == s
    ensures |s| > maxSize ==>
      |r| == maxSize && StartsWith(r, prefix) && r[|prefix|..] == s[|s| - maxSize + |prefix|..]
  {
    if |s| <= maxSize then s
    else
      var r := prefix + s[|s| - maxSize + |prefix|..];
      StartsWithIff(r, prefix);
      r
  }

  /** `Str::limitSizeBack`: copies the first `maxSize` bytes, then writes the suffix over their end. */
  method LimitSizeBack(s: seq<Char>, maxSize: nat, suffix: seq<Char>) returns (out: seq<Char>)
    requires |suffix| <= maxSize
    ensures out == LimitedBack(s, maxSize, suffix)
  {
    if |s| <= maxSize {
      return s;
    }
    out := s[..maxSize];
    var spos := maxSize - |suffix|;
    for n := 0 to |suffix|
      invariant |out| == maxSize
      invariant out == s[..spos] + suffix[..n] + s[spos + n..maxSize]
    {
      out := out[spos + n := suffix[n]];
    }
    assert suffix[..|suffix|] == suffix;
  }

  /** `Str::limitSizeFront`: copies the last `maxSize` bytes, then writes the prefix over their start. */
  method LimitSizeFront(s: seq<Char>, maxSize: nat, prefix: seq<Char>) returns (out: seq<Char>)
    requires |prefix| <= maxSize
    ensures out == LimitedFront(s, maxSize, prefix)
  {
    if |s| <= maxSize {
      return s;
    }
    var start := |s| - maxSize;
    out := s[start..];
    for n := 0 to |prefix|
      invariant |out| == maxSize
      invariant out == prefix[..n] + s[start + n..]
    {
      out := out[n := prefix[n]];
    }
    assert prefix[..|prefix|] == prefix;
  }

  /** The examples of the string tests, with the default "..." marker. */
  lemma {:induction false} LimitSizeExamples()
    ensures LimitedFront("random text", 8, "...") == "... text"
    ensures LimitedBack("random text", 8, "...") == "rando..."
  {
  }

  // ---------------------------------------------------------------------------
  // Tokenizing

  /** Length of the longest prefix of `s` not holding `d`. */
  function FirstDelim<C(==)>(s: seq<C>, d: C): (i: nat)
    ensures i <= |s| && forall k | 0 <= k < i :: s[k] != d
    ensures i < |s| ==> s[i] == d
  {
    if s == [] then 0
    else if s[0] == d then 0
    else 1 + FirstDelim(s[1..], d)
  }

  /** The tokens `tokenize` returns: no trailing empty token, none for "". */
  function Tokens<C(==)>(s: seq<C>, d: C): seq<seq<C>>
    decreases |s|
  {
    if s == [] then []
    else
      var i := FirstDelim(s, d);
      [s[..i]] + (if i == |s| then [] else Tokens(s[i + 1..], d))
  }

  lemma {:induction false} TokensUnfold<C>(s: seq<C>, d: C)
    requires s != []
    ensures var i := FirstDelim(s, d);
      Tokens(s, d) == [s[..i]] + (if i == |s| then [] else Tokens(s[i + 1..], d))
  {
  }

  /** The tokens put back together with the delimiter between them. */
  function Join<C>(ts: seq<seq<C>>, d: C): seq<C>
  {
    if ts == [] then [] else if |ts| == 1 then ts[0] else ts[0] + [d] + Join(ts[1..], d)
  }

  /** One trailing delimiter, which `tokenize` does not turn into an empty token. */
  function TrailingDelim<C(==)>(s: seq<C>, d: C): seq<C>
  {
    if s != [] && s[|s| - 1] == d then [d] else []
  }

  lemma {:induction false} JoinCons<C>(t: seq<C>, ts: seq<seq<C>>, d: C)
    requires ts != []
    ensures Join([t] + ts, d) == t + [d] + Join(ts, d)
  {
    assert ([t] + ts)[1..] == ts;
  }

  lemma {:induction false} JoinStep<C>(s: seq<C>, d: C, t: seq<C>, rest: seq<C>, ts: seq<seq<C>>)
    requires rest != [] && s == t + [d] + rest && ts != []
    requires Join(ts, d) + TrailingDelim(rest, d) == rest
    ensures Join([t] + ts, d) + TrailingDelim(s, d) == s
  {
    JoinCons(t, ts, d);
    assert s[|s| - 1] == rest[|rest| - 1];
    assert TrailingDelim(s, d) == TrailingDelim(rest, d);
  }

  lemma {:induction false} TokensJoinLast<C>(s: seq<C>, d: C)
    requires s != [] && FirstDelim(s, d) >= |s| - 1
    ensures Join(Tokens(s, d), d) + TrailingDelim(s, d) == s
  {
    var i := FirstDelim(s, d);
    TokensUnfold(s, d);
    assert Tokens<C>([], d) == [];
    hide Tokens, FirstDelim;
    var t := s[..i];
    if i == |s| {
      assert t == s;
      assert Tokens(s, d) == [s];
      assert Join([s], d) == s;
      assert TrailingDelim(s, d) == [];
    } else {
      assert s[i + 1..] == [];
      assert s == t + [d];
      assert Tokens(s, d) == [t];
      assert Join([t], d) == t;
      assert TrailingDelim(s, d) == [d];
    }
  }

  /** Joining the tokens gives back the input, up to one trailing delimiter. */
  lemma {:induction false} TokensJoin<C>(s: seq<C>, d: C)
    ensures Join(Tokens(s, d), d) + TrailingDelim(s, d) == s
    decreases |s|
  {
    if s != [] {
      var i := FirstDelim(s, d);
      if i >= |s| - 1 {
        TokensJoinLast(s, d);
      } else {
        var t, rest := s[..i], s[i + 1..];
        assert s == t + [d] + rest;
        TokensUnfold(s, d);
        TokensUnfold(rest, d);
        hide *;
        TokensJoin(rest, d);
        JoinStep(s, d, t, rest, Tokens(rest, d));
      }
    }
  }

  /** No token holds the delimiter. */
  lemma {:induction false} TokensNoDelim<C>(s: seq<C>, d: C)
    ensures forall k | 0 <= k < |Tokens(s, d)| :: d !in Tokens(s, d)[k]
    decreases |s|
  {
    if s != [] {
      var i := FirstDelim(s, d);
      if i < |s| {
        TokensNoDelim(s[i + 1..], d);
      }
    }
  }

  /** `Tokenizer`: a cursor over a string that hands out one token per call. */
  class Tokenizer<C(==)> {
    const text: seq<C>
    const delim: C
    var pos: nat

    predicate Valid()
      reads this
    {
      pos <= |text|
    }

    /** The tokens still to come. */
    function Remaining(): seq<seq<C>>
      reads this
      requires Valid()
    {
      Tokens(text[pos..], delim)
    }

    constructor(str: seq<C>, d: C)
      ensures Valid() && text == str && delim == d && pos == 0
    {
      text, delim, pos := str, d, 0;
    }

    predicate Finished()
      reads this
    {
      pos == |text|
    }

    /** `Tokenizer::next`: the text up to the next delimiter, which is skipped. */
    method Next() returns (tok: seq<C>)
      requires Valid()
      modifies this
      ensures Valid()
      ensures var rest := old(text[pos..]);
        var i := FirstDelim(rest, delim);
        tok == rest[..i] && pos == old(pos) + i + (if i < |rest| then 1 else 0)
      ensures old(pos) < |text| ==> old(Remaining()) == [tok] + Remaining() && pos > old(pos)
    {
      ghost var rest := text[pos..];
      var start := pos;
      while pos != |text| && text[pos] != delim
        invariant start <= pos <= |text|
        invariant forall k | start <= k < pos :: text[k] != delim
      {
        pos := pos + 1;
      }
      var end := pos;
      if pos != |text| {
        pos := pos + 1;
      }
      tok := text[start..end];
      assert rest[..end - start] == tok;
      FirstDelimUnique(rest, delim, end - start);
      assert text[pos..] == rest[FirstDelim(rest, delim) + (if end < |text| then 1 else 0)..];
    }
  }

  lemma {:induction false} FirstDelimUnique<C>(s: seq<C>, d: C, i: nat)
    requires i <= |s| && (forall k | 0 <= k < i :: s[k] != d) && (i < |s| ==> s[i] == d)
    ensures FirstDelim(s, d) == i
  {
  }

  lemma {:induction false} AppendAssoc<T>(a: seq<T>, x: T, b: seq<T>)
    ensures a + ([x] + b) == (a + [x]) + b
  {
  }

  /** `tokenize`: runs a `Tokenizer` until it is finished. */
  method Tokenize<C(==)>(str: seq<C>, c: C) returns (result: seq<seq<C>>)
    ensures result == Tokens(str, c)
  {
    assert Tokens<C>([], c) == [];
    hide Tokens, FirstDelim;
    var tok := new Tokenizer(str, c);
    result := [];
    assert str[0..] == str;
    while !tok.Finished()
      invariant tok.Valid() && tok.text == str && tok.delim == c
      invariant result + tok.Remaining() == Tokens(str, c)
      decreases |str| - tok.pos
    {
      ghost var before := result;
      var t := tok.Next();
      result := result + [t];
      AppendAssoc(before, t, tok.Remaining());
    }
    assert str[tok.pos..] == [];
  }

  /** One line with a trailing carriage return removed. */
  function StripCR(line: seq<Char>): (r: seq<Char>)
    ensures line == r || line == r + ['\r']
  {
    if line != [] && line[|line| - 1] == '\r' then line[..|line| - 1] else line
  }

  /** What `splitLines` returns: the LF-separated lines, CRLF handled too. */
  function Lines(s: seq<Char>): seq<seq<Char>>
  {
    var ts := Tokens<Char>(s, '\n');
    seq(|ts|, k requires 0 <= k < |ts| => StripCR(ts[k]))
  }

  /** `splitLines`: tokenizes on LF, then drops one trailing CR from each line in place. */
  method SplitLines(str: seq<Char>) returns (lines: seq<seq<Char>>)
    ensures lines == Lines(str)
  {
    hide Tokens;
    lines := Tokenize<Char>(str, '\n');
    ghost var ts := lines;
    for k := 0 to |lines|
      invariant |lines| == |ts|
      invariant forall j | 0 <= j < k :: lines[j] == StripCR(ts[j])
      invariant forall j | k <= j < |ts| :: lines[j] == ts[j]
    {
      var line := lines[k];
      if line != [] && line[|line| - 1] == '\r' {
        lines := lines[k := line[..|line| - 1]];
      }
    }
  }

  /** One token cut off the front at the first delimiter, at `i`. */
  lemma {:induction false} TokensSplit<C>(s: seq<C>, d: C, i: nat)
    requires i < |s| && (forall k | 0 <= k < i :: s[k] != d) && s[i] == d
    ensures Tokens(s, d) == [s[..i]] + Tokens(s[i + 1..], d)
  {
    FirstDelimUnique(s, d, i);
  }

  /** A non-empty text without the delimiter is one token. */
  lemma {:induction false} TokensWhole<C>(s: seq<C>, d: C)
    requires s != [] && forall k | 0 <= k < |s| :: s[k] != d
    ensures Tokens(s, d) == [s]
  {
    FirstDelimUnique(s, d, |s|);
    assert s[..|s|] == s;
  }

  /** A token without the delimiter, then the delimiter, then the rest. */
  lemma {:induction false} TokensCut<C>(tok: seq<C>, d: C, rest: seq<C>)
    requires d !in tok
    ensures Tokens(tok + [d] + rest, d) == [tok] + Tokens(rest, d)
  {
    var s := tok + [d] + rest;
    assert forall k | 0 <= k < |tok| :: s[k] == tok[k];
    TokensSplit(s, d, |tok|);
    assert s[..|tok|] == tok && s[|tok| + 1..] == rest;
  }

  /** Four tokens, the last one non-empty. */
  lemma {:induction false} TokensFour<C>(t0: seq<C>, t1: seq<C>, t2: seq<C>, t3: seq<C>, d: C)
    requires d !in t0 && d !in t1 && d !in t2 && d !in t3 && t3 != []
    ensures Tokens(t0 + [d] + t1 + [d] + t2 + [d] + t3, d) == [t0, t1, t2, t3]
  {
    hide Tokens, FirstDelim;
    var r2 := t2 + [d] + t3;
    var r1 := t1 + [d] + r2;
    assert t0 + [d] + t1 + [d] + t2 + [d] + t3 == t0 + [d] + r1;
    TokensCut(t0, d, r1);
    TokensCut(t1, d, r2);
    TokensCut(t2, d, t3);
    TokensWhole(t3, d);
  }

  /** A lone delimiter ends one empty token. */
  lemma {:induction false} TokensDelimOnly<C>(d: C)
    ensures Tokens([d], d) == [[]]
  {
    assert FirstDelim([d], d) == 0;
    assert [d][1..] == [];
  }

  /** Three tokens and an empty fourth one, which a final delimiter does not add. */
  lemma {:induction false} TokensThreeEmpty<C>(t0: seq<C>, t1: seq<C>, t2: seq<C>, d: C)
    requires d !in t0 && d !in t1 && d !in t2
    ensures Tokens(t0 + [d] + t1 + [d] + t2 + [d] + [d], d) == [t0, t1, t2, []]
  {
    TokensDelimOnly(d);
    hide Tokens, FirstDelim;
    var r2 := t2 + [d] + [d];
    var r1 := t1 + [d] + r2;
    assert t0 + [d] + t1 + [d] + t2 + [d] + [d] == t0 + [d] + r1;
    TokensCut(t0, d, r1);
    TokensCut(t1, d, r2);
    TokensCut(t2, d, [d]);
  }

  /** The example of the tokenizer tests. */
  lemma {:induction false} TokenizeExample()
    ensures Tokens<Char>("foo bar bar foo", ' ') == ["foo", "bar", "bar", "foo"]
  {
    hide Tokens, FirstDelim;
    var foo: seq<Char>, bar: seq<Char> := "foo", "bar";
    assert foo + [' '] + bar + [' '] + bar + [' '] + foo == "foo bar bar foo";
    TokensFour<Char>(foo, bar, bar, foo, ' ');
  }

  /** The example of the line splitting tests: CRLF and LF, an empty last line. */
  lemma {:induction false} SplitLinesExample()
    ensures Lines("foo\r\nbar\nmeh\n\n") == ["foo", "bar", "meh", ""]
  {
    hide Tokens, FirstDelim;
    var foo: seq<Char>, bar: seq<Char>, meh: seq<Char> := "foo\r", "bar", "meh";
    assert foo + ['\n'] + bar + ['\n'] + meh + ['\n'] + ['\n'] == "foo\r\nbar\nmeh\n\n";
    TokensThreeEmpty<Char>(foo, bar, meh, '\n');
    var ts := Tokens<Char>("foo\r\nbar\nmeh\n\n", '\n');
    assert StripCR(ts[0]) == "foo";
  }

  // ---------------------------------------------------------------------------
  // Case mapping

  /** `toLower`. */
  function ToLower(s: seq<Char>): (r: seq<Char>)
    ensures |r| == |s| && forall i | 0 <= i < |s| :: r[i] == LowerChar(s[i])
  {
    seq(|s|, i requires 0 <= i < |s| => LowerChar(s[i]))
  }

  /** `toUpper`. */
  function ToUpper(s: seq<Char>): (r: seq<Char>)
    ensures |r| == |s| && forall i | 0 <= i < |s| :: r[i] == UpperChar(s[i])
  {
    seq(|s|, i requires 0 <= i < |s| => UpperChar(s[i]))
  }

  lemma {:induction false} ToLowerCons(s: seq<Char>)
    requires s != []
    ensures ToLower(s)[0] == LowerChar(s[0]) && ToLower(s)[1..] == ToLower(s[1..])
  {
  }

  /** Lower-casing leaves no upper-case letter, ignores earlier upper-casing and is idempotent. */
  lemma {:induction false} CaseMapping(s: seq<Char>)
    ensures forall i | 0 <= i < |s| :: !('A' <= ToLower(s)[i] <= 'Z')
    ensures ToLower(ToUpper(s)) == ToLower(s)
    ensures ToUpper(ToLower(s)) == ToUpper(s)
    ensures ToLower(ToLower(s)) == ToLower(s)
  {
  }

  // ---------------------------------------------------------------------------
  // Escaping

  function Digit(d: int): Char
    requires 0 <= d < 8
  {
    ('0' as int + d) as char
  }

  predicate Printable(c: Char) { 32 <= c as int < 127 }

  /** How `escapeString` renders one byte: `\\`, itself, or three octal digits. */
  function EscapeChar(c: Char): (r: seq<Char>)
    ensures forall i | 0 <= i < |r| :: Printable(r[i])
  {
    if c == '\\' then ['\\', '\\']
    else if Printable(c) then [c]
    else
      var code := c as int;
      ['\\', Digit(code / 64), Digit(code / 8 % 8), Digit(code % 8)]
  }

  /** What `escapeString` returns. */
  function Escaped(s: seq<Char>): (r: seq<Char>)
    ensures forall i | 0 <= i < |r| :: Printable(r[i])
  {
    if s == [] then []
    else
      var r := Escaped(s[..|s| - 1]) + EscapeChar(s[|s| - 1]);
      assert forall i | |r| - |EscapeChar(s[|s| - 1])| <= i < |r| ::
        r[i] == EscapeChar(s[|s| - 1])[i - (|r| - |EscapeChar(s[|s| - 1])|)];
      r
  }

  /** `escapeString`: appends the rendering of each byte. */
  method EscapeString(chars: seq<Char>) returns (out: seq<Char>)
    ensures out == Escaped(chars)
  {
    out := [];
    for i := 0 to |chars|
      invariant out == Escaped(chars[..i])
    {
      var c := chars[i];
      assert chars[..i + 1][..i] == chars[..i];
      if c == '\\' {
        out := out + ['\\'] + ['\\'];
      } else if c as int >= 32 && c as int < 127 {
        out := out + [c];
      } else {
        var code := c as int;
        var temp := ['\\', Digit(code / 64), Digit(code / 8 % 8), Digit(code % 8)];
        out := out + temp;
      }
    }
    assert chars[..|chars|] == chars;
  }

  predicate IsOctal(c: Char) { '0' <= c <= '7' }

  function OctalValue(c: Char): int
    requires IsOctal(c)
  {
    c as int - '0' as int
  }

  function PrependChar(c: Char, o: Option<seq<Char>>): Option<seq<Char>>
  {
    match o case None => None case Some(s) => Some([c] + s)
  }

  /** Reads an escaped string back; none when an escape is malformed. */
  function Unescape(t: seq<Char>): Option<seq<Char>>
    decreases |t|
  {
    if t == [] then Some([])
    else if t[0] != '\\' then PrependChar(t[0], Unescape(t[1..]))
    else if |t| >= 2 && t[1] == '\\' then PrependChar('\\', Unescape(t[2..]))
    else if |t| >= 4 && IsOctal(t[1]) && IsOctal(t[2]) && IsOctal(t[3]) &&
      OctalValue(t[1]) * 64 + OctalValue(t[2]) * 8 + OctalValue(t[3]) < 0x100
    then
      var code := OctalValue(t[1]) * 64 + OctalValue(t[2]) * 8 + OctalValue(t[3]);
      PrependChar(code as char, Unescape(t[4..]))
    else None
  }

  lemma {:induction false} EscapedConcat(a: seq<Char>, b: seq<Char>)
    ensures Escaped(a + b) == Escaped(a) + Escaped(b)
    decreases |b|
  {
    if b == [] {
      assert a + b == a;
    } else {
      var b0 := b[..|b| - 1];
      assert (a + b)[..|a + b| - 1] == a + b0;
      assert (a + b)[|a + b| - 1] == b[|b| - 1];
      EscapedConcat(a, b0);
    }
  }

  lemma {:induction false} UnescapeChar(c: Char, rest: seq<Char>)
    ensures Unescape(EscapeChar(c) + rest) == PrependChar(c, Unescape(rest))
  {
    var e := EscapeChar(c);
    var t := e + rest;
    if c == '\\' {
      assert t[2..] == rest;
    } else if Printable(c) {
      assert t[1..] == rest;
    } else {
      var code := c as int;
      assert t[4..] == rest;
      assert OctalValue(t[1]) * 64 + OctalValue(t[2]) * 8 + OctalValue(t[3]) == code;
    }
  }

  /** Escaping loses nothing: the escaped text reads back as the original. */
  lemma {:induction false} UnescapeEscaped(s: seq<Char>)
    ensures Unescape(Escaped(s)) == Some(s)
    decreases |s|
  {
    if s != [] {
      assert s == [s[0]] + s[1..];
      EscapedConcat([s[0]], s[1..]);
      assert Escaped([s[0]]) == EscapeChar(s[0]) by {
        assert [s[0]][..0] == [];
      }
      UnescapeChar(s[0], Escaped(s[1..]));
      UnescapeEscaped(s[1..]);
    }
  }
}
