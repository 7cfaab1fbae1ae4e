// TextFormatter of src/format.cpp: a growing character buffer that always
// holds a NUL after its text, the writers that append to it, and the `%`
// placeholder formatter. A `%` directly after a backslash is a literal
// percent sign; every other `%` is a placeholder for the next argument.
module Format {
  import Strings
  import BaseVector
  import opened Wrappers

  type Char = Strings.Char

  predicate NulFree(s: seq<Char>) { Strings.NulFree(s) }

  datatype FormatMode = Plain | Structured
  datatype FormatPrecision = Adaptive | Maximum
  datatype FormatOptions = FormatOptions(mode: FormatMode, precision: FormatPrecision)

  const DefaultOptions := FormatOptions(Plain, Adaptive)

  /**
   * An argument of `format`: a value, given by the text its append function
   * writes, or one of the option arguments, which change the formatter's
   * options and take no placeholder.
   */
  datatype Arg =
    | Value(text: seq<Char>)
    | SetOptions(options: FormatOptions)
    | SetMode(mode: FormatMode)
    | SetPrecision(precision: FormatPrecision)

  /** The texts of the value arguments, in order. */
  function Texts(args: seq<Arg>): (r: seq<seq<Char>>)
    ensures |r| <= |args|
  {
    if args == [] then []
    else (if args[0].Value? then [args[0].text] else []) + Texts(args[1..])
  }

  /** `FormatOptions::set` for an option argument; a value leaves the options alone. */
  function Apply(o: FormatOptions, a: Arg): FormatOptions
  {
    match a
    case Value(_) => o
    case SetOptions(options) => options
    case SetMode(mode) => o.(mode := mode)
    case SetPrecision(precision) => o.(precision := precision)
  }

  /** The options after all option arguments, in order. */
  function ApplyAll(o: FormatOptions, args: seq<Arg>): FormatOptions
    decreases |args|
  {
    if args == [] then o else ApplyAll(Apply(o, args[0]), args[1..])
  }

  // ---------------------------------------------------------------------------
  // Placeholders and literal percent signs

  /** A `%` not preceded by a backslash. */
  predicate Placeholder(s: seq<Char>, i: nat)
    requires i < |s|
  {
    s[i] == '%' && (i == 0 || s[i - 1] != '\\')
  }

  /** The number of placeholders. */
  function Percents(s: seq<Char>): nat
  {
    if s == [] then 0 else Percents(s[..|s| - 1]) + (if Placeholder(s, |s| - 1) then 1 else 0)
  }

  /** The first placeholder at or after `from`, or the length. */
  function FirstPlaceholder(s: seq<Char>, from: nat): (p: nat)
    requires from <= |s|
    ensures from <= p <= |s| && (p < |s| ==> Placeholder(s, p))
    ensures forall k | from <= k < p :: !Placeholder(s, k)
    decreases |s| - from
  {
    if from == |s| || Placeholder(s, from) then from else FirstPlaceholder(s, from + 1)
  }

  /** The text with the backslash of every `\%` removed. */
  function Unescaped(s: seq<Char>): seq<Char>
  {
    if s == [] then []
    else if |s| >= 2 && s[0] == '\\' && s[1] == '%' then Unescaped(s[1..])
    else [s[0]] + Unescaped(s[1..])
  }

  /** The literal pieces between the placeholders, unescaped. */
  function Pieces(s: seq<Char>): (ps: seq<seq<Char>>)
    ensures |ps| >= 1
    decreases |s|
  {
    var p := FirstPlaceholder(s, 0);
    if p == |s| then [Unescaped(s)] else [Unescaped(s[..p])] + Pieces(s[p + 1..])
  }

  /** The pieces with the arguments between them: `ps[0] + xs[0] + ps[1] + ...`. */
  function Interleave(ps: seq<seq<Char>>, xs: seq<seq<Char>>): seq<Char>
    requires |ps| >= 1
  {
    if xs == [] || |ps| == 1 then ps[0] else ps[0] + xs[0] + Interleave(ps[1..], xs[1..])
  }

  lemma {:induction false} PercentsSplit(s: seq<Char>, q: nat)
    requires q <= |s| && (q == 0 || s[q - 1] != '\\')
    ensures Percents(s) == Percents(s[..q]) + Percents(s[q..])
    decreases |s|
  {
    if q == |s| {
      assert s[..q] == s && s[q..] == [];
    } else {
      var s' := s[..|s| - 1];
      PercentsSplit(s', q);
      assert s'[..q] == s[..q];
      var u := s[q..];
      assert u[..|u| - 1] == s'[q..];
      assert Placeholder(s, |s| - 1) == Placeholder(u, |u| - 1);
    }
  }

  lemma {:induction false} PercentsNone(s: seq<Char>, n: nat)
    requires n <= |s| && forall k | 0 <= k < n :: !Placeholder(s, k)
    ensures Percents(s[..n]) == 0
  {
    if n > 0 {
      assert s[..n][..n - 1] == s[..n - 1];
      assert !Placeholder(s, n - 1);
      assert Placeholder(s[..n], n - 1) == Placeholder(s, n - 1);
      PercentsNone(s, n - 1);
    }
  }

  /** The first placeholder takes one from the count; none is left when there is none. */
  lemma {:induction false} PercentsFirst(s: seq<Char>)
    ensures var p := FirstPlaceholder(s, 0);
      (p < |s| ==> Percents(s) == 1 + Percents(s[p + 1..])) && (p == |s| ==> Percents(s) == 0)
  {
    var p := FirstPlaceholder(s, 0);
    PercentsNone(s, p);
    if p < |s| {
      PercentsSplit(s, p + 1);
      assert s[..p + 1][..p] == s[..p];
    } else {
      assert s[..p] == s;
    }
  }

  /** `countPercents` and the pieces agree: one more piece than placeholders. */
  lemma {:induction false} PiecesCount(s: seq<Char>)
    ensures |Pieces(s)| == Percents(s) + 1
    decreases |s|
  {
    PercentsFirst(s);
    var p := FirstPlaceholder(s, 0);
    if p < |s| {
      PiecesCount(s[p + 1..]);
    }
  }

  lemma {:induction false} UnescapedPlain(s: seq<Char>)
    requires forall k | 0 <= k < |s| :: s[k] != '%'
    ensures Unescaped(s) == s
  {
    if s != [] {
      UnescapedPlain(s[1..]);
    }
  }

  /** Unescaping distributes over a cut that does not split a `\%`. */
  lemma {:induction false} UnescapedConcat(x: seq<Char>, y: seq<Char>)
    requires x == [] || y == [] || !(x[|x| - 1] == '\\' && y[0] == '%')
    ensures Unescaped(x + y) == Unescaped(x) + Unescaped(y)
  {
    if x == [] {
      assert x + y == y;
    } else {
      assert (x + y)[1..] == x[1..] + y;
      if |x| >= 2 {
        UnescapedConcat(x[1..], y);
      } else {
        assert x[1..] == [];
        assert Unescaped(x[1..]) == [];
        assert x[1..] + y == y;
      }
    }
  }

  /** One character of the literal tail: a backslash before `%` is dropped. */
  lemma {:induction false} UnescapedStep(s: seq<Char>, i: nat)
    requires i < |s|
    ensures Unescaped(s[i..]) ==
      (if i + 1 < |s| && s[i] == '\\' && s[i + 1] == '%' then [] else [s[i]]) + Unescaped(s[i + 1..])
  {
    assert s[i..][1..] == s[i + 1..];
  }

  // ---------------------------------------------------------------------------
  // `nextElement` on its own: the text up to the next placeholder

  /** A `%` not preceded by a backslash ends the element there. */
  lemma {:induction false} ElementAtPlaceholder(t: seq<Char>, i: nat)
    requires i < |t| && t[i] == '%' && (forall k | 0 <= k < i :: t[k] != '%') && !(i > 0 && t[i - 1] == '\\')
    ensures FirstPlaceholder(t, 0) == i && Unescaped(t[..i]) == t[..i]
  {
    FirstPlaceholderSkip(t, 0, i);
    UnescapedPlain(t[..i]);
  }

  /** No `%` left: the element is the whole text. */
  lemma {:induction false} ElementAtEnd(t: seq<Char>)
    requires forall k | 0 <= k < |t| :: t[k] != '%'
    ensures FirstPlaceholder(t, 0) == |t| && Unescaped(t[..|t|]) == t
  {
    assert t[..|t|] == t;
    UnescapedPlain(t);
  }

  /** No placeholder in `[from, upto)`: the search goes on from `upto`. */
  lemma {:induction false} FirstPlaceholderSkip(t: seq<Char>, from: nat, upto: nat)
    requires from <= upto <= |t| && forall k | from <= k < upto :: !Placeholder(t, k)
    ensures FirstPlaceholder(t, from) == FirstPlaceholder(t, upto)
    decreases upto - from
  {
    if from < upto {
      FirstPlaceholderSkip(t, from + 1, upto);
    }
  }

  /** After a character that is not a backslash the search runs on the suffix. */
  lemma {:induction false} FirstPlaceholderShift(t: seq<Char>, j: nat, m: nat)
    requires 0 < j && j + m <= |t| && t[j - 1] != '\\'
    ensures FirstPlaceholder(t, j + m) == j + FirstPlaceholder(t[j..], m)
    decreases |t| - j - m
  {
    var u := t[j..];
    if j + m < |t| {
      assert t[j + m] == u[m];
      assert m > 0 ==> t[j + m - 1] == u[m - 1];
      assert Placeholder(t, j + m) == Placeholder(u, m);
      if !Placeholder(t, j + m) {
        FirstPlaceholderShift(t, j, m + 1);
      }
    }
  }

  /** `\%` unescapes to `%`. */
  lemma UnescapedPercent()
    ensures Unescaped("\\%") == "%"
  {
    assert "\\%"[1..] == "%";
    assert Unescaped("%") == "%" + Unescaped([]);
  }

  /** An escaped `%` at `i`: the element goes on after it, with the backslash removed. */
  lemma {:induction false} ElementEscaped(t: seq<Char>, i: nat)
    requires 0 < i < |t| && t[i] == '%' && t[i - 1] == '\\' && forall k | 0 <= k < i :: t[k] != '%'
    ensures var u := t[i + 1..]; var q := FirstPlaceholder(u, 0);
      FirstPlaceholder(t, 0) == i + 1 + q &&
      Unescaped(t[..i + 1 + q]) == t[..i - 1] + "%" + Unescaped(u[..q]) &&
      (q < |u| ==> t[i + 1 + q + 1..] == u[q + 1..])
  {
    var u := t[i + 1..];
    var q := FirstPlaceholder(u, 0);
    assert !Placeholder(t, i);
    FirstPlaceholderSkip(t, 0, i + 1);
    FirstPlaceholderShift(t, i + 1, 0);
    var a := t[..i - 1];
    assert t[..i + 1 + q] == a + "\\%" + u[..q];
    UnescapedPlain(a);
    UnescapedConcat(a, "\\%");
    UnescapedPercent();
    UnescapedConcat(a + "\\%", u[..q]);
  }

  // ---------------------------------------------------------------------------
  // Buffer helpers

  /** `memcpy` of `text` into `a` at `at`. */
  method CopyInto(a: array<Char>, at: nat, text: seq<Char>)
    requires at + |text| <= a.Length
    modifies a
    ensures a[..at + |text|] == old(a[..at]) + text
  {
    for i := 0 to |text|
      invariant a[..at + i] == old(a[..at]) + text[..i]
    {
      a[at + i] := text[i];
      assert text[..i + 1] == text[..i] + [text[i]];
    }
  }

  /** `vsnprintf` into the room from `at`: as much of `text` as fits, then a NUL. */
  method PrintInto(a: array<Char>, at: nat, text: seq<Char>)
    requires at < a.Length
    modifies a
    ensures a[..at] == old(a[..at])
    ensures at + |text| < a.Length ==> a[..at + |text|] == old(a[..at]) + text && a[at + |text|] == '\0'
  {
    var n := if at + |text| < a.Length then |text| else a.Length - at - 1;
    CopyInto(a, at, text[..n]);
    a[at + n] := '\0';
    assert a[..at] == a[..at + n][..at];
  }

  /** Trailing zeros removed. */
  function StripZeros(s: seq<Char>): (r: seq<Char>)
    ensures |r| <= |s| && r == s[..|r|] && (r != [] ==> r[|r| - 1] != '0')
  {
    if s != [] && s[|s| - 1] == '0' then StripZeros(s[..|s| - 1]) else s
  }

  /** The real number writers' clean-up: trailing zeros, then a trailing '.', removed. */
  function TrimZeros(s: seq<Char>): seq<Char>
  {
    var z := StripZeros(s);
    if z != [] && z[|z| - 1] == '.' then z[..|z| - 1] else z
  }

  /** The digits of a natural number. */
  function Digits(m: nat): (r: seq<Char>)
    ensures |r| >= 1 && forall k | 0 <= k < |r| :: '0' <= r[k] <= '9'
  {
    var d := ('0' as int + m % 10) as char;
    if m < 10 then [d] else Digits(m / 10) + [d]
  }

  /** `%d` and its unsigned and wider variants: decimal, with a '-' for negatives. */
  function DecimalText(n: int): (r: seq<Char>)
    ensures |r| >= 1
  {
    if n < 0 then "-" + Digits(-n) else Digits(n)
  }

  /** Items with a separator after each one but the last (`formatSpan`). */
  function Spaced(items: seq<seq<Char>>, separator: seq<Char>, n: nat): seq<Char>
    requires n <= |items|
  {
    if n == 0 then []
    else Spaced(items, separator, n - 1) + items[n - 1] + (if n == |items| then [] else separator)
  }

  function Separator(o: FormatOptions): seq<Char>
  {
    if o.mode == Structured then ", " else " "
  }

  /** The text `formatSpan` writes: the items, separated, in brackets when structured. */
  function SpanText(items: seq<seq<Char>>, o: FormatOptions): seq<Char>
  {
    (if o.mode == Structured then "[" else "") + Spaced(items, Separator(o), |items|) +
    (if o.mode == Structured then "]" else "")
  }

  // ---------------------------------------------------------------------------
  // The formatter

  class TextFormatter {
    /** `m_data`: its length is the capacity. */
    var data: array<Char>
    /** `m_offset`: the length of the text. */
    var offset: nat
    var options: FormatOptions

    /** The text is followed by a NUL inside the buffer. */
    predicate Valid()
      reads this, data
    {
      offset < data.Length && data[offset] == '\0'
    }

    /** `text()`. */
    function Text(): seq<Char>
      requires offset <= data.Length
      reads this, data
    {
      data[..offset]
    }

    /** `TextFormatter(capacity, options)`. */
    constructor(capacity: nat, options: FormatOptions)
      requires capacity > 0
      ensures Valid() && Text() == [] && this.options == options && data.Length == capacity
      ensures fresh(data)
    {
      data := new Char[capacity](_ => '\0');
      offset := 0;
      this.options := options;
    }

    /** `reserve`: grows the buffer to at least `capacity`, keeping its contents. */
    method Reserve(capacity: nat)
      requires offset < data.Length
      modifies this
      ensures offset == old(offset) && options == old(options)
      ensures data.Length == if capacity > old(data.Length) then BaseVector.InsertCapacity(old(data.Length), 1, capacity) else old(data.Length)
      ensures data[..old(data.Length)] == old(data[..])
      ensures data == old(data) || fresh(data)
    {
      if capacity > data.Length {
        var n := BaseVector.InsertCapacity(data.Length, 1, capacity);
        var grown := new Char[n](_ => '\0');
        forall i | 0 <= i < data.Length {
          grown[i] := data[i];
        }
        data := grown;
      }
    }

    /** `clear`. */
    method Clear()
      requires Valid()
      modifies this, data
      ensures Valid() && Text() == [] && options == old(options) && data == old(data)
    {
      data[0] := '\0';
      offset := 0;
    }

    /** `operator<<(Str)`: appends the text, growing the buffer when the text and its NUL do not fit. */
    method Write(text: seq<Char>)
      requires Valid()
      modifies this, data
      ensures Valid() && Text() == old(Text()) + text && options == old(options)
      ensures data == old(data) || fresh(data)
    {
      if |text| == 0 {
        return;
      }
      var newSize := offset + |text| + 1;
      if newSize > data.Length {
        Reserve(newSize);
      }
      CopyInto(data, offset, text);
      offset := offset + |text|;
      data[offset] := '\0';
    }

    /** `operator<<(char)`: one character; NUL writes nothing. */
    method WriteChar(c: Char)
      requires Valid()
      modifies this, data
      ensures Valid() && options == old(options)
      ensures Text() == old(Text()) + (if c == '\0' then [] else [c])
      ensures data == old(data) || fresh(data)
    {
      if c != '\0' {
        Write([c]);
      }
    }

    /** `operator<<(bool)`. */
    method WriteBool(value: bool)
      requires Valid()
      modifies this, data
      ensures Valid() && options == old(options)
      ensures Text() == old(Text()) + (if value then "true" else "false")
      ensures data == old(data) || fresh(data)
    {
      Write(if value then "true" else "false");
    }

    /**
     * `stdFormat`: `vsnprintf` writes `rendered` (the text of the C format
     * call) into the room left; while it did not fit, the buffer grows and
     * the call is repeated.
     */
    method StdFormat(rendered: seq<Char>)
      requires Valid()
      modifies this, data
      ensures Valid() && Text() == old(Text()) + rendered && options == old(options)
      ensures data == old(data) || fresh(data)
    {
      ghost var text := Text();
      PrintInto(data, offset, rendered);
      while offset + |rendered| + 1 > data.Length
        invariant offset < data.Length && data[..offset] == text && options == old(options)
        invariant offset + |rendered| < data.Length ==> data[..offset + |rendered|] == text + rendered && data[offset + |rendered|] == '\0'
        invariant data == old(data) || fresh(data)
        decreases offset + |rendered| + 1 - data.Length
      {
        Reserve(offset + |rendered| + 1);
        PrintInto(data, offset, rendered);
      }
      offset := offset + |rendered|;
    }

    /** The integer writers (`%d`, `%u`, `%ld`, `%lu`, `%lld`, `%llu`). */
    method WriteInteger(value: int)
      requires Valid()
      modifies this, data
      ensures Valid() && Text() == old(Text()) + DecimalText(value) && options == old(options)
      ensures data == old(data) || fresh(data)
    {
      StdFormat(DecimalText(value));
    }

    /**
     * `operator<<(double)` / `operator<<(float)`: `rendered` is the `%f`
     * (or `%.17f`, `%.9f`) text; trailing zeros and then a trailing '.' are
     * cut from the end of the whole buffer.
     */
    method WriteReal(rendered: seq<Char>)
      requires Valid()
      modifies this, data
      ensures Valid() && Text() == TrimZeros(old(Text()) + rendered) && options == old(options)
      ensures data == old(data) || fresh(data)
    {
      StdFormat(rendered);
      ghost var whole := Text();
      var pos := offset as int - 1;
      while pos >= 0 && data[pos] == '0'
        invariant -1 <= pos < offset && StripZeros(data[..pos + 1]) == StripZeros(whole)
        invariant data[..offset] == whole
      {
        assert data[..pos + 1] == data[..pos] + [data[pos]];
        assert data[..pos + 1][..pos] == data[..pos];
        pos := pos - 1;
      }
      assert StripZeros(data[..pos + 1]) == data[..pos + 1];
      if pos >= 0 && data[pos] == '.' {
        assert data[..pos + 1][..pos] == data[..pos];
        pos := pos - 1;
      }
      offset := pos + 1;
      data[offset] := '\0';
    }

    /** `trim`: the last `count` characters removed (all of them when there are fewer). */
    method Trim(count: nat)
      requires Valid()
      modifies this, data
      ensures Valid() && options == old(options) && data == old(data)
      ensures Text() == old(Text())[..if count <= old(offset) then old(offset) - count else 0]
    {
      offset := if count <= offset then offset - count else 0;
      data[offset] := '\0';
    }

    /** The literal tail of `append_`: every character but the backslash of a `\%`. */
    method WriteTail(s: seq<Char>)
      requires Valid() && NulFree(s)
      modifies this, data
      ensures Valid() && Text() == old(Text()) + Unescaped(s) && options == old(options)
      ensures data == old(data) || fresh(data)
    {
      for i := 0 to |s|
        invariant Valid() && Text() + Unescaped(s[i..]) == old(Text()) + Unescaped(s)
        invariant options == old(options) && (data == old(data) || fresh(data))
      {
        UnescapedStep(s, i);
        if !(i + 1 < |s| && s[i] == '\\' && s[i + 1] == '%') {
          WriteChar(s[i]);
        }
      }
      assert s[|s|..] == [];
    }

    /**
     * `nextElement`: writes the text up to the next placeholder, turning
     * each `\%` into `%`, and returns what follows the placeholder. With no
     * placeholder left the source steps past the terminating NUL: `None`.
     */
    method NextElement(t: seq<Char>) returns (rest: Option<seq<Char>>)
      requires Valid() && NulFree(t)
      modifies this, data
      ensures Valid() && options == old(options)
      ensures var p := FirstPlaceholder(t, 0);
        Text() == old(Text()) + Unescaped(t[..p]) &&
        rest == if p < |t| then Some(t[p + 1..]) else None
      ensures data == old(data) || fresh(data)
      decreases |t|, 1
    {
      var i := 0;
      while i < |t| && t[i] != '%'
        invariant i <= |t| && forall k | 0 <= k < i :: t[k] != '%'
      {
        i := i + 1;
      }
      if i < |t| && i > 0 && t[i - 1] == '\\' {
        rest := WriteEscaped(t, i);
      } else {
        rest := WriteElement(t, i);
      }
    }

    /** `nextElement` once the scan stopped at an escaped `%`: `%` is written and the search goes on. */
    method WriteEscaped(t: seq<Char>, i: nat) returns (rest: Option<seq<Char>>)
      requires Valid() && NulFree(t)
      requires 0 < i < |t| && t[i] == '%' && t[i - 1] == '\\' && forall k | 0 <= k < i :: t[k] != '%'
      modifies this, data
      ensures Valid() && options == old(options)
      ensures var p := FirstPlaceholder(t, 0);
        Text() == old(Text()) + Unescaped(t[..p]) &&
        rest == if p < |t| then Some(t[p + 1..]) else None
      ensures data == old(data) || fresh(data)
      decreases |t|, 0
    {
      ghost var before := Text();
      var u := t[i + 1..];
      ghost var q := FirstPlaceholder(u, 0);
      ghost var p := FirstPlaceholder(t, 0);
      ElementEscaped(t, i);
      Write(t[..i - 1]);
      WriteChar('%');
      ghost var mid := Text();
      assert mid == before + t[..i - 1] + "%";
      rest := NextElement(u);
      assert rest == if p < |t| then Some(t[p + 1..]) else None;
      ghost var now := Text();
      assert now == mid + Unescaped(u[..q]);
      assert Unescaped(t[..p]) == t[..i - 1] + "%" + Unescaped(u[..q]);
      hide *;
      Concat3(now, mid, before, t[..i - 1], "%", Unescaped(u[..q]), Unescaped(t[..p]));
    }

    /** `nextElement` once the scan stopped at a placeholder or at the end. */
    method WriteElement(t: seq<Char>, i: nat) returns (rest: Option<seq<Char>>)
      requires Valid() && i <= |t| && forall k | 0 <= k < i :: t[k] != '%'
      requires i < |t| ==> t[i] == '%' && !(i > 0 && t[i - 1] == '\\')
      modifies this, data
      ensures Valid() && options == old(options)
      ensures var p := FirstPlaceholder(t, 0);
        Text() == old(Text()) + Unescaped(t[..p]) &&
        rest == if p < |t| then Some(t[p + 1..]) else None
      ensures data == old(data) || fresh(data)
    {
      if i < |t| {
        ElementAtPlaceholder(t, i);
        Write(t[..i]);
        rest := Some(t[i + 1..]);
      } else {
        ElementAtEnd(t);
        Write(t);
        rest := None;
      }
    }

    /** A value argument of `append_`: the element up to its placeholder, then the value. */
    method WriteValue(rest: seq<Char>, x: seq<Char>, ghost more: seq<seq<Char>>) returns (rest': seq<Char>)
      requires Valid() && NulFree(rest) && Percents(rest) == 1 + |more|
      modifies this, data
      ensures Valid() && options == old(options)
      ensures NulFree(rest') && Percents(rest') == |more|
      ensures Text() + Interleave(Pieces(rest'), more) == old(Text()) + Interleave(Pieces(rest), [x] + more)
      ensures data == old(data) || fresh(data)
    {
      ghost var before := Text();
      PercentsFirst(rest);
      ghost var p := FirstPlaceholder(rest, 0);
      var next := NextElement(rest);
      ghost var element := Unescaped(rest[..p]);
      assert Text() == before + element;
      InterleaveFirst(rest, x, more);
      rest' := next.value;
      Write(x);
      assert Text() == before + element + x;
      ghost var tail := Interleave(Pieces(rest'), more);
      assert Interleave(Pieces(rest), [x] + more) == element + x + tail;
      assert NulFree(rest') && Percents(rest') == |more| && rest' == rest[p + 1..];
      hide *;
    }

    /** One argument of `append_`: a value is written after the element before it; an option is applied. */
    method WriteArgument(rest: seq<Char>, arg: Arg, ghost more: seq<seq<Char>>) returns (rest': seq<Char>)
      requires Valid() && NulFree(rest) && Percents(rest) == |ArgTexts(arg) + more|
      modifies this, data
      ensures Valid() && options == Apply(old(options), arg)
      ensures NulFree(rest') && Percents(rest') == |more|
      ensures Text() + Interleave(Pieces(rest'), more) == old(Text()) + Interleave(Pieces(rest), ArgTexts(arg) + more)
      ensures data == old(data) || fresh(data)
    {
      if arg.Value? {
        rest' := WriteValue(rest, arg.text, more);
      } else {
        options := Apply(options, arg);
        rest' := rest;
        assert ArgTexts(arg) + more == more;
      }
    }

    /**
     * `append_`: every value argument is written after the text up to its
     * placeholder, every option argument changes the options, and the text
     * after the last placeholder follows. The source stops with a fatal error
     * (in debug builds) unless the placeholders match the value arguments.
     */
    method Format(format: seq<Char>, args: seq<Arg>)
      requires Valid() && NulFree(format) && Percents(format) == |Texts(args)|
      modifies this, data
      ensures Valid() && options == ApplyAll(old(options), args)
      ensures Text() == old(Text()) + Interleave(Pieces(format), Texts(args))
      ensures data == old(data) || fresh(data)
    {
      ghost var target := old(Text()) + Interleave(Pieces(format), Texts(args));
      var rest := format;
      for n := 0 to |args|
        invariant Valid() && NulFree(rest) && Percents(rest) == |Texts(args[n..])|
        invariant ApplyAll(options, args[n..]) == ApplyAll(old(options), args)
        invariant Text() + Interleave(Pieces(rest), Texts(args[n..])) == target
        invariant data == old(data) || fresh(data)
      {
        TextsCons(args, n, options);
        rest := WriteArgument(rest, args[n], Texts(args[n + 1..]));
      }
      PercentsFirst(rest);
      assert Pieces(rest) == [Unescaped(rest)] by {
        assert rest[..|rest|] == rest;
      }
      WriteTail(rest);
    }

    /** One item of `formatSpan`, and the separator unless it is the last. */
    method WriteItem(item: seq<Char>, separator: seq<Char>, last: bool)
      requires Valid()
      modifies this, data
      ensures Valid() && options == old(options)
      ensures Text() == old(Text()) + item + (if last then [] else separator)
      ensures data == old(data) || fresh(data)
    {
      Write(item);
      if !last {
        Write(separator);
      }
    }

    /** The loop of `formatSpan`. */
    method WriteSpaced(items: seq<seq<Char>>, separator: seq<Char>)
      requires Valid()
      modifies this, data
      ensures Valid() && options == old(options)
      ensures Text() == old(Text()) + Spaced(items, separator, |items|)
      ensures data == old(data) || fresh(data)
    {
      ghost var open := Text();
      for n := 0 to |items|
        invariant Valid() && options == old(options)
        invariant Text() == open + Spaced(items, separator, n)
        invariant data == old(data) || fresh(data)
      {
        ghost var done := Text();
        WriteItem(items[n], separator, n + 1 == |items|);
        ghost var sep: seq<Char> := if n + 1 == |items| then [] else separator;
        ghost var now := Text();
        assert now == done + items[n] + sep;
        assert Spaced(items, separator, n + 1) == Spaced(items, separator, n) + items[n] + sep;
        SpanStep(now, done, open, Spaced(items, separator, n), items[n], sep, Spaced(items, separator, n + 1));
      }
    }

    /**
     * `formatSpan`: the items, each followed by the separator but the last,
     * in brackets when the options are structured.
     */
    method FormatSpan(items: seq<seq<Char>>)
      requires Valid()
      modifies this, data
      ensures Valid() && options == old(options)
      ensures Text() == old(Text()) + SpanText(items, options)
      ensures data == old(data) || fresh(data)
    {
      var separator := Separator(options);
      ghost var start := Text();
      if options.mode == Structured {
        WriteChar('[');
      }
      ghost var open := Text();
      ghost var left: seq<Char> := if options.mode == Structured then "[" else "";
      ghost var right: seq<Char> := if options.mode == Structured then "]" else "";
      assert open == start + left;
      WriteSpaced(items, separator);
      ghost var body := Spaced(items, separator, |items|);
      assert Text() == start + left + body;
      if options.mode == Structured {
        WriteChar(']');
      }
      assert Text() == start + left + body + right;
      assert SpanText(items, options) == left + body + right;
      hide *;
    }
  }

  lemma SpanStep<T>(now: seq<T>, done: seq<T>, open: seq<T>, sp: seq<T>, item: seq<T>, sep: seq<T>, sp': seq<T>)
    requires now == done + item + sep && done == open + sp && sp' == sp + item + sep
    ensures now == open + sp'
  {
  }

  lemma Concat3<T>(now: seq<T>, mid: seq<T>, before: seq<T>, a: seq<T>, b: seq<T>, c: seq<T>, whole: seq<T>)
    requires now == mid + c && mid == before + a + b && whole == a + b + c
    ensures now == before + whole
  {
  }

  /** The texts of one argument: its own for a value, none for an option. */
  function ArgTexts(a: Arg): (r: seq<seq<Char>>)
    ensures |r| == if a.Value? then 1 else 0
  {
    if a.Value? then [a.text] else []
  }

  lemma TextsCons(args: seq<Arg>, n: nat, o: FormatOptions)
    requires n < |args|
    ensures Texts(args[n..]) == ArgTexts(args[n]) + Texts(args[n + 1..])
    ensures ApplyAll(Apply(o, args[n]), args[n + 1..]) == ApplyAll(o, args[n..])
  {
    assert args[n..][1..] == args[n + 1..];
  }

  /** The text ahead of the first placeholder is the first piece; the argument follows it. */
  lemma InterleaveFirst(s: seq<Char>, x: seq<Char>, xs: seq<seq<Char>>)
    requires FirstPlaceholder(s, 0) < |s|
    ensures var p := FirstPlaceholder(s, 0);
      Interleave(Pieces(s), [x] + xs) == Unescaped(s[..p]) + x + Interleave(Pieces(s[p + 1..]), xs)
  {
    var p := FirstPlaceholder(s, 0);
    var first, tail := Unescaped(s[..p]), Pieces(s[p + 1..]);
    assert Pieces(s) == [first] + tail;
    hide *;
    InterleaveCons(first, tail, x, xs);
  }

  lemma InterleaveCons(first: seq<Char>, tail: seq<seq<Char>>, x: seq<Char>, xs: seq<seq<Char>>)
    requires |tail| >= 1
    ensures Interleave([first] + tail, [x] + xs) == first + x + Interleave(tail, xs)
  {
    assert ([first] + tail)[1..] == tail;
    assert ([x] + xs)[1..] == xs;
  }

  /** `strFormat`: a fresh formatter of the default capacity and options, formatted once. */
  method StrFormat(format: seq<Char>, args: seq<Arg>) returns (r: seq<Char>)
    requires NulFree(format) && Percents(format) == |Texts(args)|
    ensures r == Interleave(Pieces(format), Texts(args))
  {
    var out := new TextFormatter(256, DefaultOptions);
    out.Format(format, args);
    r := out.Text();
  }

  /** `countPercents`: the placeholders, counted in one pass that remembers the previous character. */
  method CountPercents(s: seq<Char>) returns (n: nat)
    ensures n == Percents(s)
  {
    n := 0;
    var prev: Char := '\0';
    for i := 0 to |s|
      invariant n == Percents(s[..i])
      invariant i > 0 ==> prev == s[i - 1]
      invariant i == 0 ==> prev == '\0'
    {
      assert s[..i + 1][..i] == s[..i];
      assert Placeholder(s[..i + 1], i) == (s[i] == '%' && prev != '\\');
      if s[i] == '%' && prev != '\\' {
        n := n + 1;
      }
      prev := s[i];
    }
    assert s[..|s|] == s;
  }

  // ---------------------------------------------------------------------------
  // Escaping a literal text (`autoPrintFormat`'s `append_elem`)

  /** Every `%` written as `\%`. */
  function Escape(x: seq<Char>): (r: seq<Char>)
    ensures |r| >= |x|
  {
    if x == [] then [] else (if x[0] == '%' then "\\%" else [x[0]]) + Escape(x[1..])
  }

  /** An escaped text never starts with `%`, and every `%` in it follows a backslash. */
  lemma {:induction false} EscapePercents(x: seq<Char>)
    ensures Escape(x) != [] ==> Escape(x)[0] != '%'
    ensures forall k | 0 <= k < |Escape(x)| :: !Placeholder(Escape(x), k)
  {
    if x != [] {
      var h: seq<Char> := if x[0] == '%' then "\\%" else [x[0]];
      var e', e := Escape(x[1..]), Escape(x);
      EscapePercents(x[1..]);
      assert e == h + e';
      forall k | 0 <= k < |e|
        ensures !Placeholder(e, k)
      {
        if k >= |h| {
          assert e[k] == e'[k - |h|];
          if k > |h| {
            assert e[k - 1] == e'[k - |h| - 1];
            assert !Placeholder(e', k - |h|);
          }
        }
      }
    }
  }

  /** Unescaping undoes escaping. */
  lemma {:induction false} UnescapeEscape(x: seq<Char>)
    ensures Unescaped(Escape(x)) == x
  {
    if x != [] {
      var e' := Escape(x[1..]);
      UnescapeEscape(x[1..]);
      EscapePercents(x[1..]);
      if x[0] == '%' {
        var e := "\\%" + e';
        assert e[1..] == "%" + e';
        assert ("%" + e')[1..] == e';
        assert Unescaped("%" + e') == "%" + Unescaped(e');
      } else {
        var e := [x[0]] + e';
        assert e[1..] == e';
      }
    }
  }

  /** An escaped text has no placeholder and formats back to itself. */
  lemma {:induction false} EscapedIsLiteral(x: seq<Char>)
    ensures Percents(Escape(x)) == 0 && Pieces(Escape(x)) == [x]
    ensures Interleave(Pieces(Escape(x)), []) == x
  {
    var e := Escape(x);
    EscapePercents(x);
    FirstPlaceholderSkip(e, 0, |e|);
    PercentsNone(e, |e|);
    assert e[..|e|] == e;
    UnescapeEscape(x);
  }

  // ---------------------------------------------------------------------------
  // Trimming a real number's text

  lemma {:induction false} StripZerosAppend(x: seq<Char>, y: seq<Char>)
    ensures StripZeros(y) != [] ==> StripZeros(x + y) == x + StripZeros(y)
    ensures StripZeros(y) == [] ==> StripZeros(x + y) == StripZeros(x)
  {
    if y == [] {
      assert x + y == x;
    } else if y[|y| - 1] == '0' {
      assert (x + y)[..|x + y| - 1] == x + y[..|y| - 1];
      StripZerosAppend(x, y[..|y| - 1]);
    }
  }

  lemma {:induction false} StripAllZeros(y: seq<Char>)
    requires forall k | 0 <= k < |y| :: y[k] == '0'
    ensures StripZeros(y) == []
  {
    if y != [] {
      StripAllZeros(y[..|y| - 1]);
    }
  }

  /** The point ends the zeros to strip. */
  lemma StripZerosPoint(p: seq<Char>)
    ensures StripZeros(p + ".") == p + "."
  {
  }

  /**
   * A `%f` text `p.f`: trailing zeros of the fraction go, and so does the
   * point when nothing of the fraction is left; `p` is kept whole.
   */
  lemma {:induction false} TrimFixed(p: seq<Char>, f: seq<Char>)
    requires forall k | 0 <= k < |f| :: f[k] != '.'
    ensures TrimZeros(p + "." + f) == p + (if StripZeros(f) == [] then [] else "." + StripZeros(f))
  {
    StripZerosAppend(p + ".", f);
    StripZerosPoint(p);
    var z := StripZeros(f);
    assert p + "." + f == (p + ".") + f;
    hide StripZeros;
    if z != [] {
      assert z[|z| - 1] == f[|z| - 1];
      assert (p + "." + z)[|p + "." + z| - 1] == z[|z| - 1];
    } else {
      assert (p + ".")[..|p + "."| - 1] == p;
    }
  }

  lemma RealExample()
    ensures TrimZeros("12.500000") == "12.5"
  {
    assert StripZeros("5") == "5";
    StripAllZeros("00000");
    StripZerosAppend("5", "00000");
    assert "5" + "00000" == "500000";
    assert StripZeros("500000") == "5";
    TrimFixed("12", "500000");
    assert "12" + "." + "500000" == "12.500000";
    hide StripZeros, TrimZeros;
    assert "12" + "." + "5" == "12.5";
  }

  lemma RealExampleWhole()
    ensures TrimZeros("100.000000") == "100"
  {
    TrimFixed("100", "000000");
    assert "100" + "." + "000000" == "100.000000";
    StripAllZeros("000000");
  }

  // ---------------------------------------------------------------------------
  // The escaped example of `format`

  lemma ExamplePieces()
    ensures Pieces("\\%%\\%%\\%") == ["%", "%", "%"]
  {
    var s: seq<Char> := "\\%%\\%%\\%";
    var s1: seq<Char> := "\\%%\\%";
    var s2: seq<Char> := "\\%";
    assert !Placeholder(s, 0) && !Placeholder(s, 1) && Placeholder(s, 2);
    assert FirstPlaceholder(s, 0) == 2;
    assert s[..2] == s2 && s[3..] == s1;
    assert !Placeholder(s1, 0) && !Placeholder(s1, 1) && Placeholder(s1, 2);
    assert FirstPlaceholder(s1, 0) == 2;
    assert s1[..2] == s2 && s1[3..] == s2;
    assert !Placeholder(s2, 0) && !Placeholder(s2, 1);
    assert FirstPlaceholder(s2, 0) == 2;
    assert s2[..2] == s2;
    UnescapedPercent();
  }

  /** `format("\\%%\\%%\\%", "foo", "bar")` is `%foo%bar%`. */
  lemma FormatExample()
    ensures Interleave(Pieces("\\%%\\%%\\%"), ["foo", "bar"]) == "%foo%bar%"
  {
    ExamplePieces();
    hide Pieces;
    var ps: seq<seq<Char>> := ["%", "%", "%"];
    assert ps[1..] == ["%", "%"] && ps[1..][1..] == ["%"];
    var xs: seq<seq<Char>> := ["foo", "bar"];
    assert xs[1..] == ["bar"] && xs[1..][1..] == [];
  }
}
