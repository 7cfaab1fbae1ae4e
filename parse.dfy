// TextParser of src/parse.cpp: a cursor over a NUL-terminated text that
// hands out whitespace-separated elements and converts them to booleans and
// integers. The library reports errors by raising them and carrying on, so
// the parser keeps a flag for a raised error and every operation still
// returns a value.
module Parse {
  import Strings
  import Format
  import opened Wrappers

  type Char = Strings.Char

  /** `isspace` in the C locale. */
  predicate IsSpace(c: Char)
  {
    c == ' ' || c == '\t' || c == '\n' || c == '\r' || c as int == 0x0B || c as int == 0x0C
  }

  /** A character of an element: neither white space nor the terminating NUL. */
  predicate InElement(c: Char)
  {
    !IsSpace(c) && c != '\0'
  }

  /** The scans stop at the end of the text or at a NUL. */
  predicate AtEnd(s: seq<Char>, i: nat)
    requires i <= |s|
  {
    i == |s| || s[i] == '\0'
  }

  /** The first position at or after `i` that is not white space. */
  function SkipSpace(s: seq<Char>, i: nat): (j: nat)
    requires i <= |s|
    ensures i <= j <= |s| && (j < |s| ==> !IsSpace(s[j]))
    ensures forall k | i <= k < j :: IsSpace(s[k])
    decreases |s| - i
  {
    if i < |s| && IsSpace(s[i]) then SkipSpace(s, i + 1) else i
  }

  /** The end of the element starting at `i`. */
  function ElementEnd(s: seq<Char>, i: nat): (j: nat)
    requires i <= |s|
    ensures i <= j <= |s| && (j < |s| ==> !InElement(s[j]))
    ensures forall k | i <= k < j :: InElement(s[k])
    ensures i < |s| && InElement(s[i]) ==> j > i
    decreases |s| - i
  {
    if i < |s| && InElement(s[i]) then ElementEnd(s, i + 1) else i
  }

  /** The elements from position `i` on: maximal runs of element characters before the end. */
  function ElementsFrom(s: seq<Char>, i: nat): seq<seq<Char>>
    requires i <= |s|
    decreases |s| - i
  {
    var j := SkipSpace(s, i);
    if AtEnd(s, j) then [] else [s[j..ElementEnd(s, j)]] + ElementsFrom(s, ElementEnd(s, j))
  }

  /** The elements of a text. */
  function Elements(s: seq<Char>): seq<seq<Char>>
  {
    ElementsFrom(s, 0)
  }

  /** What `parseElement` returns and the text it leaves. */
  function Split(s: seq<Char>): (r: (seq<Char>, seq<Char>))
  {
    var j := SkipSpace(s, 0);
    var e := ElementEnd(s, j);
    (s[j..e], s[SkipSpace(s, e)..])
  }

  // ---------------------------------------------------------------------------
  // The scans

  /** `while(isspace(*ptr)) ptr++;` */
  method SkipSpaces(s: seq<Char>, i: nat) returns (j: nat)
    requires i <= |s|
    ensures j == SkipSpace(s, i)
  {
    j := i;
    while j < |s| && IsSpace(s[j])
      invariant i <= j <= |s| && SkipSpace(s, j) == SkipSpace(s, i)
    {
      j := j + 1;
    }
  }

  /** `while(*ptr && !isspace(*ptr)) ptr++;` */
  method ScanElement(s: seq<Char>, i: nat) returns (j: nat)
    requires i <= |s|
    ensures j == ElementEnd(s, i)
  {
    j := i;
    while j < |s| && s[j] != '\0' && !IsSpace(s[j])
      invariant i <= j <= |s| && ElementEnd(s, j) == ElementEnd(s, i)
    {
      j := j + 1;
    }
  }

  // ---------------------------------------------------------------------------
  // Facts about the elements

  lemma {:induction false} SkipSpaceIdempotent(s: seq<Char>, i: nat)
    requires i <= |s|
    ensures SkipSpace(s, SkipSpace(s, i)) == SkipSpace(s, i)
  {
  }

  /** White space before the elements changes nothing. */
  lemma {:induction false} ElementsSkip(s: seq<Char>, i: nat)
    requires i <= |s|
    ensures ElementsFrom(s, SkipSpace(s, i)) == ElementsFrom(s, i)
  {
    SkipSpaceIdempotent(s, i);
  }

  lemma {:induction false} SkipSpaceShift(p: seq<Char>, r: seq<Char>, i: nat)
    requires i <= |r|
    ensures SkipSpace(p + r, |p| + i) == |p| + SkipSpace(r, i)
    decreases |r| - i
  {
    if i < |r| {
      assert (p + r)[|p| + i] == r[i];
      SkipSpaceShift(p, r, i + 1);
    }
  }

  lemma {:induction false} ElementEndShift(p: seq<Char>, r: seq<Char>, i: nat)
    requires i <= |r|
    ensures ElementEnd(p + r, |p| + i) == |p| + ElementEnd(r, i)
    decreases |r| - i
  {
    if i < |r| {
      assert (p + r)[|p| + i] == r[i];
      ElementEndShift(p, r, i + 1);
    }
  }

  /** What comes before a position does not change the elements after it. */
  lemma {:induction false} ElementsShift(p: seq<Char>, r: seq<Char>, i: nat)
    requires i <= |r|
    ensures ElementsFrom(p + r, |p| + i) == ElementsFrom(r, i)
    decreases |r| - i
  {
    var j := SkipSpace(r, i);
    if AtEnd(r, j) {
      ShiftStep(p, r, i);
    } else {
      ElementsShift(p, r, ElementEnd(r, j));
      ShiftStep(p, r, i);
    }
  }

  /** One step of `ElementsShift`: the first element, given the rest. */
  lemma ShiftStep(p: seq<Char>, r: seq<Char>, i: nat)
    requires i <= |r|
    requires var j := SkipSpace(r, i);
      !AtEnd(r, j) ==> ElementsFrom(p + r, |p| + ElementEnd(r, j)) == ElementsFrom(r, ElementEnd(r, j))
    ensures ElementsFrom(p + r, |p| + i) == ElementsFrom(r, i)
  {
    hide *;
    var s := p + r;
    var j := SkipSpace(r, i);
    var e := ElementEnd(r, j);
    Unfold(r, i);
    Unfold(s, |p| + i);
    SkipSpaceShift(p, r, i);
    AtEndShift(p, r, j);
    ElementEndShift(p, r, j);
    if !AtEnd(r, j) {
      SliceShift(p, r, j, e);
    }
  }

  /** One step of the elements. */
  lemma Unfold(s: seq<Char>, i: nat)
    requires i <= |s|
    ensures var j := SkipSpace(s, i);
      ElementsFrom(s, i) == if AtEnd(s, j) then [] else [s[j..ElementEnd(s, j)]] + ElementsFrom(s, ElementEnd(s, j))
  {
  }

  lemma AtEndShift(p: seq<Char>, r: seq<Char>, j: nat)
    requires j <= |r|
    ensures AtEnd(p + r, |p| + j) == AtEnd(r, j)
  {
    if j < |r| {
      assert (p + r)[|p| + j] == r[j];
    }
  }

  lemma SliceShift(p: seq<Char>, r: seq<Char>, j: nat, e: nat)
    requires j <= e <= |r|
    ensures (p + r)[|p| + j..|p| + e] == r[j..e]
  {
    assert forall k | 0 <= k < e - j :: (p + r)[|p| + j..|p| + e][k] == r[j..e][k];
  }

  lemma {:induction false} ElementsSuffix(s: seq<Char>, k: nat)
    requires k <= |s|
    ensures Elements(s[k..]) == ElementsFrom(s, k)
  {
    assert s == s[..k] + s[k..];
    ElementsShift(s[..k], s[k..], 0);
  }

  /** Every element is non-empty, without white space and without NUL. */
  lemma {:induction false} ElementsAreElements(s: seq<Char>, i: nat)
    requires i <= |s|
    ensures forall w <- ElementsFrom(s, i) :: w != [] && forall c <- w :: InElement(c)
    decreases |s| - i
  {
    var j := SkipSpace(s, i);
    if !AtEnd(s, j) {
      ElementsAreElements(s, ElementEnd(s, j));
    }
  }

  /**
   * `parseElement`'s partner: the element it returns is the first one and
   * the text it leaves holds the others; it returns nothing only when no
   * element is left.
   */
  lemma {:induction false} SplitElements(s: seq<Char>)
    ensures var (w, rest) := Split(s);
      (w == [] <==> Elements(s) == []) &&
      (w != [] ==> Elements(s) == [w] + Elements(rest)) &&
      (w == [] ==> Elements(rest) == [])
  {
    var j := SkipSpace(s, 0);
    var e := ElementEnd(s, j);
    var k := SkipSpace(s, e);
    ElementsSuffix(s, k);
    ElementsSkip(s, e);
    if AtEnd(s, j) {
      assert e == j && k == j;
      SkipSpaceIdempotent(s, 0);
    }
  }

  /** Leading white space is not part of any element. */
  lemma {:induction false} SkipElements(s: seq<Char>)
    ensures Elements(s[SkipSpace(s, 0)..]) == Elements(s)
  {
    ElementsSuffix(s, SkipSpace(s, 0));
    ElementsSkip(s, 0);
  }

  // ---------------------------------------------------------------------------
  // The formatter's plain output parses back

  lemma {:induction false} ElementEndRun(s: seq<Char>, i: nat, e: nat)
    requires i <= e <= |s| && (forall k | i <= k < e :: InElement(s[k])) && (e < |s| ==> !InElement(s[e]))
    ensures ElementEnd(s, i) == e
    decreases e - i
  {
    if i < e {
      ElementEndRun(s, i + 1, e);
    }
  }

  const Space: Char := ' '

  predicate IsElement(w: seq<Char>)
  {
    w != [] && forall k | 0 <= k < |w| :: InElement(w[k])
  }

  lemma {:induction false} ElementAlone(w: seq<Char>)
    requires IsElement(w)
    ensures Elements(w) == [w]
  {
    assert SkipSpace(w, 0) == 0;
    ElementEndRun(w, 0, |w|);
    assert w[0..|w|] == w;
    assert ElementsFrom(w, |w|) == [];
  }

  lemma {:induction false} ElementThenSpace(w: seq<Char>, r: seq<Char>)
    requires IsElement(w)
    ensures Elements(w + " " + r) == [w] + Elements(r)
  {
    var s := w + " " + r;
    assert s[0] == w[0];
    ElementEndRun(s, 0, |w|);
    assert s[0..|w|] == w;
    assert SkipSpace(s, |w|) == SkipSpace(s, |w| + 1);
    ElementsSkip(s, |w|);
    ElementsSkip(s, |w| + 1);
    assert s == (w + " ") + r;
    ElementsShift(w + " ", r, 0);
  }

  /** Elements joined by single spaces are read back one by one. */
  lemma {:induction false} ElementsOfJoin(items: seq<seq<Char>>)
    requires forall k | 0 <= k < |items| :: IsElement(items[k])
    ensures Elements(Strings.Join(items, Space)) == items
  {
    if |items| == 1 {
      ElementAlone(items[0]);
    } else if |items| > 1 {
      ElementsOfJoin(items[1..]);
      ElementThenSpace(items[0], Strings.Join(items[1..], Space));
      assert [Space] == " ";
    }
  }

  lemma {:induction false} JoinSnoc<C>(xs: seq<seq<C>>, x: seq<C>, d: C)
    requires xs != []
    ensures Strings.Join(xs + [x], d) == Strings.Join(xs, d) + [d] + x
  {
    if |xs| > 1 {
      assert (xs + [x])[1..] == xs[1..] + [x];
      JoinSnoc(xs[1..], x, d);
    }
  }

  /** The first `n` items as `formatSpan` writes them, a separator following when more come. */
  lemma {:induction false} SpacedJoin(items: seq<seq<Char>>, d: Char, n: nat)
    requires 1 <= n <= |items|
    ensures Format.Spaced(items, [d], n) == Strings.Join(items[..n], d) + (if n < |items| then [d] else [])
  {
    if n == 1 {
      assert items[..1] == [items[0]];
    } else {
      SpacedJoin(items, d, n - 1);
      assert items[..n] == items[..n - 1] + [items[n - 1]];
      JoinSnoc(items[..n - 1], items[n - 1], d);
    }
  }

  /**
   * Text written by the formatter in plain mode can be parsed: the elements
   * of `formatSpan`'s output are the items written.
   */
  lemma {:induction false} PlainSpanParses(items: seq<seq<Char>>, o: Format.FormatOptions)
    requires o.mode == Format.Plain && forall k | 0 <= k < |items| :: IsElement(items[k])
    ensures Elements(Format.SpanText(items, o)) == items
  {
    if items == [] {
      assert Format.SpanText(items, o) == [];
    } else {
      SpacedJoin(items, Space, |items|);
      assert Format.Separator(o) == [Space];
      assert items[..|items|] == items;
      assert Format.SpanText(items, o) == Strings.Join(items, Space);
      ElementsOfJoin(items);
    }
  }

  // ---------------------------------------------------------------------------
  // Booleans

  /** The value an element denotes as a boolean, if any. */
  function BoolOf(w: seq<Char>): (r: Option<bool>)
  {
    if Strings.CompareIgnoreCase(w, "true") == 0 || w == "1" then Some(true)
    else if Strings.CompareIgnoreCase(w, "false") == 0 || w == "0" then Some(false)
    else None
  }

  lemma {:induction false} CompareIgnoreCaseZero(a: seq<Char>, b: seq<Char>)
    requires Strings.NulFree(a)
    ensures Strings.CompareIgnoreCase(a, b) == 0 <==> Strings.ToLower(a) == Strings.ToLower(b)
  {
    Strings.CompareIgnoreCaseLowered(a, b);
    Strings.CompareAsWrittenNulFree(Strings.ToLower(a), Strings.ToLower(b));
    Strings.CompareOrder(Strings.ToLower(a), Strings.ToLower(b));
  }

  /** `true` and `1` in any letter case are true, `false` and `0` false, all else nothing. */
  lemma {:induction false} BoolOfIff(w: seq<Char>)
    requires Strings.NulFree(w)
    ensures BoolOf(w) == Some(true) <==> Strings.ToLower(w) == "true" || w == "1"
    ensures BoolOf(w) == Some(false) <==> (Strings.ToLower(w) == "false" || w == "0") && !(Strings.ToLower(w) == "true" || w == "1")
  {
    CompareIgnoreCaseZero(w, "true");
    CompareIgnoreCaseZero(w, "false");
    assert Strings.ToLower("true") == "true";
    assert Strings.ToLower("false") == "false";
  }

  /** The formatter's `true` and `false` parse back. */
  lemma BoolRoundTrip(b: bool)
    ensures BoolOf(if b then "true" else "false") == Some(b)
  {
    BoolOfIff(if b then "true" else "false");
    assert Strings.ToLower("true") == "true";
    assert Strings.ToLower("false") == "false";
  }

  lemma BoolExample()
    ensures BoolOf("foobar") == None && BoolOf("TRUE") == Some(true)
  {
    BoolOfIff("foobar");
    BoolOfIff("TRUE");
    assert Strings.ToLower("TRUE") == "true";
    assert Strings.ToLower("foobar") == "foobar";
  }

  // ---------------------------------------------------------------------------
  // strtol and strtoul with base 0 (section 7.22.1.4 of ISO/IEC 9899:2011)

  const LongMin: int := -0x8000_0000_0000_0000
  const LongMax: int := 0x7fff_ffff_ffff_ffff
  const ULongMax: int := 0xffff_ffff_ffff_ffff

  /** The value of a digit or letter, 36 for anything else. */
  function DigitValue(c: Char): (v: nat)
    ensures v <= 36
  {
    if '0' <= c <= '9' then c as int - '0' as int
    else if 'a' <= c <= 'z' then c as int - 'a' as int + 10
    else if 'A' <= c <= 'Z' then c as int - 'A' as int + 10
    else 36
  }

  /** The end of the run of digits of `base` from `i`. */
  function DigitRun(s: seq<Char>, i: nat, base: nat): (j: nat)
    requires i <= |s|
    ensures i <= j <= |s| && (j < |s| ==> DigitValue(s[j]) >= base)
    ensures forall k | i <= k < j :: DigitValue(s[k]) < base
    decreases |s| - i
  {
    if i < |s| && DigitValue(s[i]) < base then DigitRun(s, i + 1, base) else i
  }

  /** The number the digits spell in `base`. */
  function DigitsValue(ds: seq<Char>, base: nat): nat
  {
    if ds == [] then 0 else DigitsValue(ds[..|ds| - 1], base) * base + DigitValue(ds[|ds| - 1])
  }

  /** The subject sequence: its sign, its base, and where its digits start. */
  datatype Subject = Subject(negative: bool, base: nat, start: nat)

  function SubjectOf(s: seq<Char>): (r: Subject)
    ensures r.start <= |s| && r.base in {8, 10, 16}
  {
    var negative := |s| > 0 && s[0] == '-';
    var i := if |s| > 0 && (s[0] == '-' || s[0] == '+') then 1 else 0;
    if i + 2 < |s| && s[i] == '0' && (s[i + 1] == 'x' || s[i + 1] == 'X') && DigitValue(s[i + 2]) < 16 then
      Subject(negative, 16, i + 2)
    else if i < |s| && s[i] == '0' then Subject(negative, 8, i)
    else Subject(negative, 10, i)
  }

  /** A conversion's value, how many characters it consumed, and whether it set `ERANGE`. */
  datatype Conversion = Conversion(value: int, consumed: nat, erange: bool)

  /** `strtol(s, &end, 0)` (and `strtoll`: `long long` is `long` on LP64). */
  function StrToL(s: seq<Char>): (r: Conversion)
    ensures r.consumed <= |s| && LongMin <= r.value <= LongMax
    ensures r.erange ==> r.value == LongMin || r.value == LongMax
  {
    var sub := SubjectOf(s);
    var end := DigitRun(s, sub.start, sub.base);
    if end == sub.start then Conversion(0, 0, false)
    else
      var m := DigitsValue(s[sub.start..end], sub.base);
      var v: int := if sub.negative then -(m as int) else m;
      if v > LongMax then Conversion(LongMax, end, true)
      else if v < LongMin then Conversion(LongMin, end, true)
      else Conversion(v, end, false)
  }

  /** `strtoul(s, &end, 0)` (and `strtoull`): a negative subject is negated modulo 2^64. */
  function StrToUL(s: seq<Char>): (r: Conversion)
    ensures r.consumed <= |s| && 0 <= r.value <= ULongMax
    ensures r.erange ==> r.value == ULongMax
  {
    var sub := SubjectOf(s);
    var end := DigitRun(s, sub.start, sub.base);
    if end == sub.start then Conversion(0, 0, false)
    else
      var m := DigitsValue(s[sub.start..end], sub.base);
      if m > ULongMax then Conversion(ULongMax, end, true)
      else Conversion(if sub.negative && m != 0 then ULongMax + 1 - m else m, end, false)
  }

  // ---------------------------------------------------------------------------
  // Ranged integers

  /** The integer types with a ranged `operator>>`, on LP64. */
  datatype IntType = Short | UShort | Int | UInt | Long | ULong | LongLong | ULongLong

  predicate Signed(t: IntType)
  {
    t == Short || t == Int || t == Long || t == LongLong
  }

  /** 2 to the width of the type. */
  function Modulus(t: IntType): (r: nat)
    ensures r >= 0x1_0000
  {
    match t
    case Short | UShort => 0x1_0000
    case Int | UInt => 0x1_0000_0000
    case _ => 0x1_0000_0000_0000_0000
  }

  function MinOf(t: IntType): int
  {
    if Signed(t) then -(Modulus(t) / 2) else 0
  }

  function MaxOf(t: IntType): int
  {
    if Signed(t) then Modulus(t) / 2 - 1 else Modulus(t) - 1
  }

  /**
   * The conversion each type parses with: `strtoul` for `unsigned int` and
   * `unsigned long`, `strtoull` for `unsigned long long`, `strtol` (or
   * `strtoll`) for the others, `unsigned short` included.
   */
  function Convert(t: IntType, s: seq<Char>): Conversion
  {
    if t == UInt || t == ULong || t == ULongLong then StrToUL(s) else StrToL(s)
  }

  /** The cast `T(value)`: the low bits, read as two's complement when `T` is signed. */
  function Truncate(t: IntType, v: int): (r: int)
    ensures MinOf(t) <= r <= MaxOf(t)
    ensures MinOf(t) <= v <= MaxOf(t) ==> r == v
  {
    var m := v % Modulus(t);
    if Signed(t) && m > MaxOf(t) then m - Modulus(t) else m
  }

  datatype RangedError = ParseError | OutOfRange

  /** What a ranged parse yields: the value returned and the error raised, if any. */
  datatype Ranged = Ranged(value: int, error: Option<RangedError>)

  /**
   * `parseSingleRanged` as written: an error when `ERANGE` is set or the
   * conversion stops before the end of the element, out of range when the
   * value does not fit the type; the value returned is always the cast.
   */
  function RangedAsWritten(t: IntType, element: seq<Char>): (r: Ranged)
    ensures MinOf(t) <= r.value <= MaxOf(t)
    ensures r.error == None ==> Convert(t, element).consumed == |element|
  {
    var c := Convert(t, element);
    var error :=
      if c.erange || c.consumed != |element| then Some(ParseError)
      else if c.value < MinOf(t) || c.value > MaxOf(t) then Some(OutOfRange)
      else None;
    Ranged(Truncate(t, c.value), error)
  }

  /** An empty element (nothing left to parse) passes as 0 with no error. */
  lemma EmptyElementAsWritten(t: IntType)
    ensures RangedAsWritten(t, []) == Ranged(0, None)
  {
  }

  /** `parseSingleRanged` also refusing a conversion that consumed nothing, as `parseSingle` does. */
  function ParseRanged(t: IntType, element: seq<Char>): (r: Ranged)
    ensures element != [] ==> r == RangedAsWritten(t, element)
    ensures MinOf(t) <= r.value <= MaxOf(t)
    ensures r.error == None ==>
      (element != [] && Convert(t, element).consumed == |element| &&
       r.value == Convert(t, element).value && !Convert(t, element).erange)
    ensures element == [] ==> r.error == Some(ParseError)
  {
    var c := Convert(t, element);
    var error :=
      if c.erange || c.consumed == 0 || c.consumed != |element| then Some(ParseError)
      else if c.value < MinOf(t) || c.value > MaxOf(t) then Some(OutOfRange)
      else None;
    Ranged(Truncate(t, c.value), error)
  }

  // ---------------------------------------------------------------------------
  // The formatter's integers parse back

  lemma {:induction false} DigitRunAll(s: seq<Char>, i: nat, base: nat)
    requires i <= |s| && forall k | i <= k < |s| :: DigitValue(s[k]) < base
    ensures DigitRun(s, i, base) == |s|
    decreases |s| - i
  {
    if i < |s| {
      DigitRunAll(s, i + 1, base);
    }
  }

  lemma {:induction false} DigitsValueDecimal(m: nat)
    ensures DigitsValue(Format.Digits(m), 10) == m
  {
    var ds := Format.Digits(m);
    if m >= 10 {
      DigitsValueDecimal(m / 10);
      assert ds[..|ds| - 1] == Format.Digits(m / 10);
    }
  }

  lemma {:induction false} DigitsLeading(m: nat)
    ensures (Format.Digits(m)[0] == '0') == (m == 0)
  {
    if m >= 10 {
      DigitsLeading(m / 10);
    }
  }

  /** The digits of `m`, after `p`, are read as the decimal `m` (a lone `0` as octal 0). */
  lemma {:induction false} ReadDigits(p: seq<Char>, m: nat, base: nat)
    requires base == (if m == 0 then 8 else 10)
    ensures var s := p + Format.Digits(m);
      DigitRun(s, |p|, base) == |s| && DigitsValue(s[|p|..|s|], base) == m
  {
    var ds := Format.Digits(m);
    var s := p + ds;
    assert s[|p|..|s|] == ds;
    DigitRunAll(s, |p|, base) by {
      forall k | |p| <= k < |s|
        ensures DigitValue(s[k]) < base
      {
        assert s[k] == ds[k - |p|];
        if m == 0 {
          assert ds == "0";
        }
      }
    }
    if m == 0 {
      assert ds == "0";
      assert DigitsValue(ds, base) == DigitsValue([], base) * base + 0;
    } else {
      DigitsValueDecimal(m);
    }
  }

  lemma {:induction false} SubjectOfDecimal(n: int)
    ensures SubjectOf(Format.DecimalText(n)) ==
      Subject(n < 0, if n == 0 then 8 else 10, if n < 0 then 1 else 0)
  {
    var m := if n < 0 then -n else n;
    DigitsLeading(m);
    var ds := Format.Digits(m);
    assert '0' <= ds[0] <= '9';
    if m == 0 {
      assert ds == "0";
    }
  }

  /** A text that is one whole run of digits after its sign and prefix converts to their value. */
  lemma StrToLWholeRun(s: seq<Char>, m: nat)
    requires var sub := SubjectOf(s);
      DigitRun(s, sub.start, sub.base) == |s| > sub.start && DigitsValue(s[sub.start..|s|], sub.base) == m
      && LongMin <= (if sub.negative then -(m as int) else m) <= LongMax
    ensures StrToL(s) == Conversion(if SubjectOf(s).negative then -(m as int) else m, |s|, false)
  {
    hide SubjectOf, DigitRun, DigitsValue;
  }

  /** The same for `strtoul`, on a text without a minus sign. */
  lemma StrToULWholeRun(s: seq<Char>, m: nat)
    requires var sub := SubjectOf(s);
      !sub.negative && DigitRun(s, sub.start, sub.base) == |s| > sub.start
      && DigitsValue(s[sub.start..|s|], sub.base) == m && m <= ULongMax
    ensures StrToUL(s) == Conversion(m, |s|, false)
  {
    hide SubjectOf, DigitRun, DigitsValue;
  }

  /** `strtol` reads every `long` the formatter writes back, consuming all of it. */
  lemma {:induction false} StrToLDecimal(n: int)
    requires LongMin <= n <= LongMax
    ensures StrToL(Format.DecimalText(n)) == Conversion(n, |Format.DecimalText(n)|, false)
  {
    var s := Format.DecimalText(n);
    var sub := SubjectOf(s);
    SubjectOfDecimal(n);
    var m := if n < 0 then -n else n;
    var p: seq<Char> := if n < 0 then "-" else [];
    ReadDigits(p, m, sub.base);
    assert s == p + Format.Digits(m);
    assert sub.start == |p|;
    StrToLWholeRun(s, m);
  }

  /** `strtoul` reads every `unsigned long` the formatter writes back. */
  lemma {:induction false} StrToULDecimal(n: int)
    requires 0 <= n <= ULongMax
    ensures StrToUL(Format.DecimalText(n)) == Conversion(n, |Format.DecimalText(n)|, false)
  {
    var s := Format.DecimalText(n);
    var sub := SubjectOf(s);
    SubjectOfDecimal(n);
    ReadDigits([], n, sub.base);
    assert s == [] + Format.Digits(n);
    assert sub.start == 0 && !sub.negative;
    StrToULWholeRun(s, n);
  }

  /** Every value of every integer type, written by the formatter, parses back without error. */
  lemma {:induction false} RangedRoundTrip(t: IntType, n: int)
    requires MinOf(t) <= n <= MaxOf(t)
    ensures ParseRanged(t, Format.DecimalText(n)) == Ranged(n, None)
  {
    var s := Format.DecimalText(n);
    if t == UInt || t == ULong || t == ULongLong {
      StrToULDecimal(n);
    } else {
      StrToLDecimal(n);
    }
    assert Convert(t, s) == Conversion(n, |s|, false);
    assert Truncate(t, n) == n;
    hide StrToL, StrToUL, Format.DecimalText, Truncate;
  }

  // ---------------------------------------------------------------------------
  // Examples

  lemma {:induction false} DigitsSnoc(m: nat, k: nat)
    requires m >= 1 && k < 10
    ensures Format.Digits(10 * m + k) == Format.Digits(m) + [('0' as int + k) as char]
  {
  }

  /**
   * A number the formatter writes that does not fit the type is out of
   * range, when it is read with `strtol` (every signed type and `unsigned short`).
   */
  lemma {:induction false} RangedOutOfRange(t: IntType, n: int)
    requires !(t == UInt || t == ULong || t == ULongLong)
    requires LongMin <= n <= LongMax && (n < MinOf(t) || n > MaxOf(t))
    ensures ParseRanged(t, Format.DecimalText(n)).error == Some(OutOfRange)
  {
    StrToLDecimal(n);
  }

  lemma FourZeros()
    ensures Format.Digits(10000) == "10000"
  {
    assert Format.Digits(1) == "1";
    hide *;
    DigitsSnoc(1, 0);
    DigitsSnoc(10, 0);
    DigitsSnoc(100, 0);
    DigitsSnoc(1000, 0);
  }

  lemma SevenZeros()
    ensures Format.Digits(10000000) == "10000000"
  {
    FourZeros();
    hide *;
    DigitsSnoc(10000, 0);
    DigitsSnoc(100000, 0);
    DigitsSnoc(1000000, 0);
  }

  lemma TenDigits()
    ensures Format.DecimalText(10000000000) == "10000000000"
  {
    SevenZeros();
    assert Format.DecimalText(10000000000) == Format.Digits(10000000000);
    hide *;
    DigitsSnoc(10000000, 0);
    DigitsSnoc(100000000, 0);
    DigitsSnoc(1000000000, 0);
  }

  lemma TwelveDigits()
    ensures Format.DecimalText(1000000000000) == "1000000000000"
  {
    TenDigits();
    hide Format.Digits;
    DigitsSnoc(10000000000, 0);
    DigitsSnoc(100000000000, 0);
  }

  lemma FiveDigits()
    ensures Format.DecimalText(32768) == "32768"
  {
    assert Format.Digits(3) == "3";
    hide Format.Digits;
    DigitsSnoc(3, 2);
    DigitsSnoc(32, 7);
    DigitsSnoc(327, 6);
    DigitsSnoc(3276, 8);
  }

  /** `int` from "10000000000" is out of range. */
  lemma IntOutOfRange()
    ensures ParseRanged(Int, "10000000000").error == Some(OutOfRange)
  {
    TenDigits();
    RangedOutOfRange(Int, 10000000000);
  }

  /** `short` from "32768" is out of range. */
  lemma ShortOutOfRange()
    ensures ParseRanged(Short, "32768").error == Some(OutOfRange)
  {
    FiveDigits();
    RangedOutOfRange(Short, 32768);
  }

  /** `unsigned short` from "-1" is out of range: it is read with `strtol`. */
  lemma UnsignedShortNegative()
    ensures ParseRanged(UShort, "-1").error == Some(OutOfRange)
  {
    assert Format.DecimalText(-1) == "-1";
    RangedOutOfRange(UShort, -1);
  }

  /** `long long` from "1000000000000". */
  lemma LongLongExample()
    ensures ParseRanged(LongLong, "1000000000000") == Ranged(1000000000000, None)
  {
    TwelveDigits();
    RangedRoundTrip(LongLong, 1000000000000);
  }

  /** Trailing characters after the digits: "2a" is not an `int`. */
  lemma TrailingCharacters()
    ensures ParseRanged(Int, "2a").error == Some(ParseError)
  {
    var s: seq<Char> := "2a";
    assert SubjectOf(s) == Subject(false, 10, 0);
    assert DigitRun(s, 1, 10) == 1;
    assert DigitRun(s, 0, 10) == 1;
  }

  /** Nothing left to parse: no element, and the corrected parse raises. */
  lemma EmptyElementRaises(t: IntType)
    ensures ParseRanged(t, []).error == Some(ParseError)
  {
  }

  /** Six elements separated by single spaces. */
  lemma {:induction false} SixElements(a: seq<Char>, b: seq<Char>, c: seq<Char>, d: seq<Char>, e: seq<Char>, f: seq<Char>)
    requires IsElement(a) && IsElement(b) && IsElement(c) && IsElement(d) && IsElement(e) && IsElement(f)
    ensures Elements(a + " " + (b + " " + (c + " " + (d + " " + (e + " " + f))))) == [a, b, c, d, e, f]
  {
    ElementAlone(f);
    ElementThenSpace(e, f);
    var t4 := e + " " + f;
    ElementThenSpace(d, t4);
    var t3 := d + " " + t4;
    ElementThenSpace(c, t3);
    var t2 := c + " " + t3;
    ElementThenSpace(b, t2);
    var t1 := b + " " + t2;
    ElementThenSpace(a, t1);
    assert Elements(a + " " + t1) == [a] + ([b] + ([c] + ([d] + ([e] + [f]))));
  }

  lemma CountText()
    ensures "1" + " " + ("2" + " " + ("aa" + " " + ("bb" + " " + ("cc" + " " + "4d")))) == "1 2 aa bb cc 4d"
  {
    assert "cc" + " " + "4d" == "cc 4d";
    assert "bb" + " " + "cc 4d" == "bb cc 4d";
    assert "aa" + " " + "bb cc 4d" == "aa bb cc 4d";
    assert "2" + " " + "aa bb cc 4d" == "2 aa bb cc 4d";
  }

  /** "1 2 aa bb cc 4d" holds six elements. */
  lemma CountExample()
    ensures Elements("1 2 aa bb cc 4d") == ["1", "2", "aa", "bb", "cc", "4d"]
  {
    assert IsElement("1") && IsElement("2") && IsElement("aa");
    assert IsElement("bb") && IsElement("cc") && IsElement("4d");
    SixElements("1", "2", "aa", "bb", "cc", "4d");
    CountText();
    hide *;
  }

  // ---------------------------------------------------------------------------
  // Several elements in a row (`parseNotEmpty`)

  /** `n` successive `parseElement` calls: what they return and the text they leave. */
  function TakeElements(s: seq<Char>, n: nat): (r: (seq<seq<Char>>, seq<Char>))
    ensures |r.0| == n
  {
    if n == 0 then ([], s)
    else
      var (w, rest) := Split(s);
      var (ws, left) := TakeElements(rest, n - 1);
      ([w] + ws, left)
  }

  lemma {:induction false} TakeElementsSnoc(s: seq<Char>, n: nat)
    ensures var (ws, left) := TakeElements(s, n);
      TakeElements(s, n + 1) == (ws + [Split(left).0], Split(left).1)
    decreases n
  {
    hide Split;
    if n > 0 {
      var (w, rest) := Split(s);
      var (ws, left) := TakeElements(rest, n - 1);
      TakeElementsSnoc(rest, n - 1);
      assert TakeElements(s, n) == ([w] + ws, left);
      assert TakeElements(s, n + 1) == ([w] + (ws + [Split(left).0]), Split(left).1);
      assert [w] + (ws + [Split(left).0]) == ([w] + ws) + [Split(left).0];
    } else {
      var (w, rest) := Split(s);
      assert TakeElements(s, 1) == ([w] + [], rest);
      assert [w] + [] == [] + [w];
    }
  }

  /**
   * `parseNotEmpty`'s partner: the first `n` elements come back in order,
   * an empty element for each one missing, and the text left holds the
   * elements after them.
   */
  lemma {:induction false} TakeElementsElements(s: seq<Char>, n: nat)
    ensures var (ws, left) := TakeElements(s, n);
      var e := Elements(s);
      var k := if n < |e| then n else |e|;
      ws[..k] == e[..k] && (forall i | k <= i < n :: ws[i] == []) && Elements(left) == e[k..]
    decreases n
  {
    if n > 0 {
      var (w, rest) := Split(s);
      var (ws, left) := TakeElements(rest, n - 1);
      assert TakeElements(s, n) == ([w] + ws, left);
      SplitElements(s);
      TakeElementsElements(rest, n - 1);
      TakeStep(w, ws, Elements(s), Elements(rest), Elements(left), n);
    }
  }

  lemma TakeStep(w: seq<Char>, ws: seq<seq<Char>>, e: seq<seq<Char>>, er: seq<seq<Char>>, el: seq<seq<Char>>, n: nat)
    requires n >= 1 && |ws| == n - 1
    requires w == [] <==> e == []
    requires w != [] ==> e == [w] + er
    requires w == [] ==> er == []
    requires var k := if n - 1 < |er| then n - 1 else |er|;
      ws[..k] == er[..k] && (forall i | k <= i < n - 1 :: ws[i] == []) && el == er[k..]
    ensures var k := if n < |e| then n else |e|;
      ([w] + ws)[..k] == e[..k] && (forall i | k <= i < n :: ([w] + ws)[i] == []) && el == e[k..]
  {
    var k := if n - 1 < |er| then n - 1 else |er|;
    if w != [] {
      assert ([w] + ws)[..k + 1] == [w] + ws[..k];
      assert e[..k + 1] == [w] + er[..k];
      assert e[k + 1..] == er[k..];
    } else {
      assert k == 0;
      assert forall i | 0 <= i < n :: ([w] + ws)[i] == [] by {
        forall i | 0 <= i < n
          ensures ([w] + ws)[i] == []
        {
          if i > 0 {
            assert ([w] + ws)[i] == ws[i - 1];
          }
        }
      }
    }
  }

  /** Some element is missing exactly when fewer than `n` are left. */
  lemma {:induction false} TakeElementsMissing(s: seq<Char>, n: nat)
    ensures (exists i | 0 <= i < n :: TakeElements(s, n).0[i] == []) <==> |Elements(s)| < n
  {
    var ws := TakeElements(s, n).0;
    var e := Elements(s);
    TakeElementsElements(s, n);
    ElementsAreElements(s, 0);
    if |e| < n {
      assert ws[|e|] == [];
    } else {
      forall i | 0 <= i < n
        ensures ws[i] != []
      {
        assert ws[i] == ws[..n][i] == e[..n][i] == e[i];
        assert e[i] in ElementsFrom(s, 0);
      }
    }
  }

  // ---------------------------------------------------------------------------
  // The parser

  /**
   * `TextParser`: the text still to parse, and whether an error has been
   * raised. A raised error does not stop the parse.
   */
  class TextParser {
    var current: seq<Char>
    var raised: bool

    constructor(text: seq<Char>)
      ensures current == text && !raised
    {
      current := text;
      raised := false;
    }

    /** `countElements`: the number of elements left; the text is not consumed. */
    method CountElements() returns (count: nat)
      ensures count == |Elements(current)|
    {
      var s := current;
      var ptr := 0;
      count := 0;
      while !AtEnd(s, ptr)
        invariant ptr <= |s| && count + |ElementsFrom(s, ptr)| == |Elements(s)|
        decreases |s| - ptr
      {
        var j := SkipSpaces(s, ptr);
        ElementsSkip(s, ptr);
        Unfold(s, j);
        SkipSpaceIdempotent(s, ptr);
        if !AtEnd(s, j) {
          count := count + 1;
          ptr := ScanElement(s, j);
        } else {
          ptr := j;
        }
      }
      assert ElementsFrom(s, ptr) == [];
    }

    /** `parseElement`: the next element, consuming the white space on both sides of it. */
    method ParseElement() returns (element: seq<Char>)
      modifies this
      ensures (element, current) == Split(old(current)) && raised == old(raised)
      ensures element == [] <==> Elements(old(current)) == []
      ensures element != [] ==> Elements(old(current)) == [element] + Elements(current)
    {
      var s := current;
      var ptr := SkipSpaces(s, 0);
      var start := ptr;
      ptr := ScanElement(s, ptr);
      element := s[start..ptr];
      ptr := SkipSpaces(s, ptr);
      current := s[ptr..];
      SplitElements(s);
    }

    /** `advanceWhitespace`: drops the leading white space, which holds no element. */
    method AdvanceWhitespace()
      modifies this
      ensures current == old(current)[SkipSpace(old(current), 0)..] && raised == old(raised)
      ensures Elements(current) == Elements(old(current))
    {
      var ptr := SkipSpaces(current, 0);
      SkipElements(current);
      current := current[ptr..];
    }

    /** `operator>>(bool&)`: true/false in any case, or 1/0; anything else raises and yields false. */
    method ParseBool() returns (value: bool)
      modifies this
      ensures var (w, rest) := Split(old(current));
        current == rest && value == (BoolOf(w) == Some(true)) &&
        raised == (old(raised) || BoolOf(w) == None)
    {
      var element := ParseElement();
      if Strings.CompareIgnoreCase(element, "true") == 0 || element == "1" {
        value := true;
      } else if Strings.CompareIgnoreCase(element, "false") == 0 || element == "0" {
        value := false;
      } else {
        raised := true;
        value := false;
      }
    }

    /** `operator>>` for the integer types: `parseSingleRanged` on the next element. */
    method ParseInteger(t: IntType) returns (value: int)
      modifies this
      ensures var (w, rest) := Split(old(current));
        current == rest && value == ParseRanged(t, w).value &&
        raised == (old(raised) || ParseRanged(t, w).error != None)
      ensures MinOf(t) <= value <= MaxOf(t)
    {
      var element := ParseElement();
      var r := ParseRanged(t, element);
      if r.error != None {
        raised := true;
      }
      value := r.value;
    }

    /** `parseNotEmpty`: fills `out` with the next elements, raising when one is empty. */
    method ParseNotEmpty(out: array<seq<Char>>)
      modifies this, out
      ensures (out[..], current) == TakeElements(old(current), out.Length)
      ensures raised == (old(raised) || |Elements(old(current))| < out.Length)
    {
      ghost var s := current;
      ghost var wasRaised := raised;
      var n := 0;
      while n < out.Length
        invariant n <= out.Length
        invariant (out[..n], current) == TakeElements(s, n)
        invariant raised == (wasRaised || exists i | 0 <= i < n :: out[i] == [])
      {
        TakeElementsSnoc(s, n);
        var element := ParseElement();
        out[n] := element;
        if element == [] {
          raised := true;
        }
        assert out[..n + 1] == out[..n] + [element];
        n := n + 1;
      }
      assert out[..] == out[..n];
      TakeElementsMissing(s, out.Length);
    }
  }
}
