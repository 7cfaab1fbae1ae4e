// UTF-32 <-> UTF-8 transcoding of the string helpers (str.cpp, a port of the
// libc++ codecvt converters). Code points are unsigned 32-bit words, UTF-8
// units unsigned bytes; the bit masks and shifts of the converters are written
// as the equivalent range tests, divisions and remainders.
module Utf {
  import opened Wrappers

  type Byte = x: int | 0 <= x < 0x100
  type U32 = x: int | 0 <= x < 0x1_0000_0000

  const MaxCode: int := 0x10FFFF

  /** Outcome of a converter: `ok`, `partial` and `error` of the original. */
  datatype Conversion = Success | Partial | Failure

  // ---------------------------------------------------------------------------
  // Encoding

  /** `(wc & 0xFFFFF800) == 0xD800`: the UTF-16 surrogate block. */
  predicate IsSurrogate(wc: int) { 0xD800 <= wc < 0xE000 }

  /** A code point the encoder accepts. */
  predicate Encodable(wc: U32) { !IsSurrogate(wc) && wc <= MaxCode }

  predicate AllEncodable(s: seq<U32>) { forall i | 0 <= i < |s| :: Encodable(s[i]) }

  /** `(c & 0xC0) == 0x80`: a continuation byte. */
  predicate IsCont(c: Byte) { 0x80 <= c < 0xC0 }

  /** `c & 0x3F`: the payload bits of a continuation byte. */
  function Low6(c: Byte): int { c % 64 }

  /** Number of UTF-8 bytes of one code point, by range. */
  function EncodedLength(wc: U32): nat
  {
    if wc < 0x80 then 1 else if wc < 0x800 then 2 else if wc < 0x10000 then 3 else 4
  }

  /** The UTF-8 bytes of one code point. */
  function EncodeCodePoint(wc: U32): (r: seq<Byte>)
    requires wc <= MaxCode
    ensures |r| == EncodedLength(wc)
    ensures 1 <= |r| <= 4
    ensures (|r| == 1) == (r[0] < 0x80)
    ensures (|r| == 2) == (0xC2 <= r[0] < 0xE0)
    ensures (|r| == 3) == (0xE0 <= r[0] < 0xF0)
    ensures (|r| == 4) == (0xF0 <= r[0] < 0xF5)
    ensures forall i | 1 <= i < |r| :: IsCont(r[i])
  {
    if wc < 0x80 then [wc]
    else if wc < 0x800 then [0xC0 + wc / 64, 0x80 + wc % 64]
    else if wc < 0x10000 then [0xE0 + wc / 4096, 0x80 + wc / 64 % 64, 0x80 + wc % 64]
    else [0xF0 + wc / 262144, 0x80 + wc / 4096 % 64, 0x80 + wc / 64 % 64, 0x80 + wc % 64]
  }

  /** The encoding of a sequence of accepted code points. */
  function EncodeAll(s: seq<U32>): seq<Byte>
    requires AllEncodable(s)
  {
    if s == [] then [] else EncodeAll(s[..|s| - 1]) + EncodeCodePoint(s[|s| - 1])
  }

  /** What `toUTF8` returns: none exactly when a code point is rejected. */
  function Encode(s: seq<U32>): (r: Option<seq<Byte>>)
    ensures r.None? <==> exists i | 0 <= i < |s| :: IsSurrogate(s[i]) || s[i] > MaxCode
  {
    if AllEncodable(s) then Some(EncodeAll(s)) else None
  }

  lemma {:induction false} EncodeAllConcat(a: seq<U32>, b: seq<U32>)
    requires AllEncodable(a) && AllEncodable(b)
    ensures AllEncodable(a + b)
    ensures EncodeAll(a + b) == EncodeAll(a) + EncodeAll(b)
  {
    if b == [] {
      assert a + b == a;
    } else {
      var b0 := b[..|b| - 1];
      assert (a + b)[..|a + b| - 1] == a + b0;
      assert (a + b)[|a + b| - 1] == b[|b| - 1];
      EncodeAllConcat(a, b0);
    }
  }

  lemma {:induction false} EncodeAllCons(wc: U32, s: seq<U32>)
    requires Encodable(wc) && AllEncodable(s)
    ensures AllEncodable([wc] + s)
    ensures EncodeAll([wc] + s) == EncodeCodePoint(wc) + EncodeAll(s)
  {
    assert EncodeAll([wc]) == EncodeCodePoint(wc) by {
      assert [wc][..0] == [];
    }
    EncodeAllConcat([wc], s);
  }

  /**
   * `ucs4_to_utf8_length` / `utf8Length`: the exact size of the encoding, or
   * 0 when some code point is rejected.
   */
  method Utf8Length(s: seq<U32>) returns (length: int)
    ensures length == (if AllEncodable(s) then |EncodeAll(s)| else 0)
  {
    length := 0;
    var i := 0;
    while i < |s|
      invariant 0 <= i <= |s|
      invariant AllEncodable(s[..i]) && length == |EncodeAll(s[..i])|
    {
      var wc := s[i];
      if IsSurrogate(wc) || wc > MaxCode {
        return 0;
      }
      if wc < 0x80 {
        length := length + 1;
      } else if wc < 0x800 {
        length := length + 2;
      } else if wc < 0x10000 {
        length := length + 3;
      } else {
        length := length + 4;
      }
      assert s[..i + 1][..i] == s[..i];
      i := i + 1;
    }
    assert s[..i] == s;
  }

  /**
   * `ucs4_to_utf8`: encodes `s` into `to` until a code point is rejected or
   * the next one does not fit. Returns how many code points were consumed and
   * how many bytes were written; the written bytes encode the consumed prefix.
   */
  method Ucs4ToUtf8(s: seq<U32>, to: array<Byte>) returns (res: Conversion, consumed: nat, written: nat)
    modifies to
    ensures consumed <= |s| && written <= to.Length
    ensures AllEncodable(s[..consumed]) && to[..written] == EncodeAll(s[..consumed])
    ensures forall k | written <= k < to.Length :: to[k] == old(to[k])
    ensures res.Success? <==> consumed == |s|
    ensures res.Failure? ==> consumed < |s| && !Encodable(s[consumed])
    ensures res.Partial? ==>
      consumed < |s| && Encodable(s[consumed]) && written + EncodedLength(s[consumed]) > to.Length
  {
    hide EncodeCodePoint, EncodedLength;
    consumed, written := 0, 0;
    while consumed < |s|
      invariant consumed <= |s| && written <= to.Length
      invariant AllEncodable(s[..consumed]) && to[..written] == EncodeAll(s[..consumed])
      invariant forall k | written <= k < to.Length :: to[k] == old(to[k])
    {
      var wc := s[consumed];
      if IsSurrogate(wc) || wc > MaxCode {
        return Failure, consumed, written;
      }
      var bytes := EncodeCodePoint(wc);
      if to.Length - written < |bytes| {
        return Partial, consumed, written;
      }
      WriteBytes(to, written, bytes);
      assert to[..written + |bytes|] == to[..written] + bytes;
      assert s[..consumed + 1][..consumed] == s[..consumed];
      consumed, written := consumed + 1, written + |bytes|;
    }
    assert s[..consumed] == s;
    res := Success;
  }

  /** `*to++ = b` for each byte of one encoded code point. */
  method WriteBytes(to: array<Byte>, at: nat, bytes: seq<Byte>)
    requires at + |bytes| <= to.Length
    modifies to
    ensures forall k | 0 <= k < to.Length :: to[k] == if at <= k < at + |bytes| then bytes[k - at] else old(to[k])
    ensures to[at..at + |bytes|] == bytes && to[..at] == old(to[..at])
  {
    for j := 0 to |bytes|
      invariant forall k | 0 <= k < to.Length :: to[k] == if at <= k < at + j then bytes[k - at] else old(to[k])
    {
      to[at + j] := bytes[j];
    }
    assert forall k | 0 <= k < |bytes| :: to[at..at + |bytes|][k] == bytes[k];
  }

  /** `toUTF8`: sizes a buffer with `Utf8Length`, then encodes into it. */
  method ToUtf8(text: seq<U32>) returns (r: Option<seq<Byte>>)
    ensures r == Encode(text)
  {
    var len := Utf8Length(text);
    var buffer := new Byte[len](_ => 0);
    var res, consumed, written := Ucs4ToUtf8(text, buffer);
    if res != Success {
      if AllEncodable(text) {
        assert res.Partial?;
        var k := consumed;
        assert text[..k + 1][..k] == text[..k];
        assert text[..k + 1] + text[k + 1..] == text;
        EncodeAllConcat(text[..k + 1], text[k + 1..]);
        assert false;
      }
      return None;
    }
    assert text[..consumed] == text;
    assert written == buffer.Length;
    assert buffer[..] == buffer[..written];
    return Some(buffer[..]);
  }

  // ---------------------------------------------------------------------------
  // Decoding

  /** One decoding step: a code point and its byte length, or why it stopped. */
  datatype Step = Decoded(cp: U32, len: nat) | Truncated | Invalid

  /** The sequence length announced by a lead byte, as the decoders read it. */
  function LeadLength(c: Byte): Option<nat>
  {
    if c < 0x80 then Some(1)
    else if c < 0xC2 then None
    else if c < 0xE0 then Some(2)
    else if c < 0xF0 then Some(3)
    else if c < 0xF5 then Some(4)
    else None
  }

  /** The second byte of a three-byte sequence (the `switch(c1)` of the decoder). */
  predicate SecondOfThree(c1: Byte, c2: Byte)
  {
    if c1 == 0xE0 then 0xA0 <= c2 < 0xC0        // (c2 & 0xE0) == 0xA0
    else if c1 == 0xED then 0x80 <= c2 < 0xA0   // (c2 & 0xE0) == 0x80
    else IsCont(c2)
  }

  /** The second byte of a four-byte sequence. */
  predicate SecondOfFour(c1: Byte, c2: Byte)
  {
    if c1 == 0xF0 then 0x90 <= c2 <= 0xBF
    else if c1 == 0xF4 then 0x80 <= c2 < 0x90  // (c2 & 0xF0) == 0x80
    else IsCont(c2)
  }

  /** A two-byte sequence `c1 c2` whose lead is 0xC2..0xDF. */
  function DecodeTwo(c1: Byte, c2: Byte): (r: Step)
    requires 0xC2 <= c1 < 0xE0
    ensures r.Decoded? || r.Invalid?
    ensures r.Decoded? ==> r.len == 2
  {
    if !IsCont(c2) then Invalid
    else
      var t := (c1 % 32) * 64 + Low6(c2);
      if t > MaxCode then Invalid else Decoded(t, 2)
  }

  /** A three-byte sequence whose lead is 0xE0..0xEF. */
  function DecodeThree(c1: Byte, c2: Byte, c3: Byte): (r: Step)
    requires 0xE0 <= c1 < 0xF0
    ensures r.Decoded? || r.Invalid?
    ensures r.Decoded? ==> r.len == 3
  {
    if !SecondOfThree(c1, c2) || !IsCont(c3) then Invalid
    else
      var t := (c1 % 16) * 4096 + Low6(c2) * 64 + Low6(c3);
      if t > MaxCode then Invalid else Decoded(t, 3)
  }

  /** A four-byte sequence whose lead is 0xF0..0xF4. */
  function DecodeFour(c1: Byte, c2: Byte, c3: Byte, c4: Byte): (r: Step)
    requires 0xF0 <= c1 < 0xF5
    ensures r.Decoded? || r.Invalid?
    ensures r.Decoded? ==> r.len == 4
  {
    if !SecondOfFour(c1, c2) || !IsCont(c3) || !IsCont(c4) then Invalid
    else
      var t := (c1 % 8) * 262144 + Low6(c2) * 4096 + Low6(c3) * 64 + Low6(c4);
      if t > MaxCode then Invalid else Decoded(t, 4)
  }

  /**
   * One iteration of `utf8_to_ucs4` on the remaining input `s`. A sequence
   * cut short by the end of the input is `Truncated` (before its later bytes
   * are looked at); a bad lead, continuation or second byte is `Invalid`.
   */
  function DecodeStep(s: seq<Byte>): (r: Step)
    requires |s| > 0
    ensures r.Truncated? <==> LeadLength(s[0]).Some? && |s| < LeadLength(s[0]).value
    ensures r.Decoded? ==> LeadLength(s[0]) == Some(r.len) && 1 <= r.len <= |s|
  {
    var c1 := s[0];
    if c1 < 0x80 then Decoded(c1, 1)
    else if c1 < 0xC2 then Invalid
    else if c1 < 0xE0 then (if |s| < 2 then Truncated else DecodeTwo(c1, s[1]))
    else if c1 < 0xF0 then (if |s| < 3 then Truncated else DecodeThree(c1, s[1], s[2]))
    else if c1 < 0xF5 then (if |s| < 4 then Truncated else DecodeFour(c1, s[1], s[2], s[3]))
    else Invalid
  }

  function Prepend(prefix: seq<U32>, o: Option<seq<U32>>): Option<seq<U32>>
  {
    match o
    case None => None
    case Some(rest) => Some(prefix + rest)
  }

  lemma {:induction false} PrependEmpty(o: Option<seq<U32>>)
    ensures Prepend([], o) == o
  {
    if o.Some? {
      assert [] + o.value == o.value;
    }
  }

  lemma {:induction false} PrependAssoc(a: seq<U32>, b: seq<U32>, o: Option<seq<U32>>)
    ensures Prepend(a, Prepend(b, o)) == Prepend(a + b, o)
  {
    if o.Some? {
      assert a + (b + o.value) == (a + b) + o.value;
    }
  }

  /** What `toUTF32` returns: the code points of well-formed UTF-8, or none. */
  function Decode(s: seq<Byte>): Option<seq<U32>>
    decreases |s|
  {
    if s == [] then Some([])
    else
      match DecodeStep(s)
      case Decoded(cp, len) => Prepend([cp], Decode(s[len..]))
      case _ => None
  }

  /** Number of sequences counted by lead bytes alone, none when the count fails. */
  function LeadCount(s: seq<Byte>): Option<nat>
    decreases |s|
  {
    if s == [] then Some(0)
    else
      match LeadLength(s[0])
      case None => None
      case Some(l) =>
        if l > |s| then None
        else match LeadCount(s[l..]) case None => None case Some(n) => Some(n + 1)
  }

  /**
   * `utf8_to_ucs4_length` / `utf32Length`: the lead-byte count, or 0 when a
   * lead byte is rejected or the last sequence runs past the end.
   */
  method Utf32Length(s: seq<Byte>) returns (length: int)
    ensures length == (match LeadCount(s) case None => 0 case Some(n) => n)
  {
    length := 0;
    var pos := 0;
    while pos < |s|
      invariant pos <= |s| ==> LeadCount(s) == Count(length, LeadCount(s[pos..]))
      invariant pos > |s| ==> LeadCount(s) == None
      decreases |s| - pos
    {
      var c1 := s[pos];
      if c1 < 0x80 {
        pos := pos + 1;
      } else if c1 < 0xC2 {
        return 0;
      } else if c1 < 0xE0 {
        pos := pos + 2;
      } else if c1 < 0xF0 {
        pos := pos + 3;
      } else if c1 < 0xF5 {
        pos := pos + 4;
      } else {
        return 0;
      }
      length := length + 1;
    }
    if pos != |s| {
      return 0;
    }
    assert s[pos..] == [];
  }

  function Count(done: int, o: Option<nat>): Option<nat>
    requires done >= 0
  {
    match o case None => None case Some(n) => Some(done + n)
  }

  /**
   * `utf8_to_ucs4`: decodes `s` into `to` until the input or the buffer runs
   * out, or a step fails. Whatever follows, the decoding of the whole input is
   * the code points written followed by the decoding of what was not consumed.
   */
  method Utf8ToUcs4(s: seq<Byte>, to: array<U32>) returns (res: Conversion, consumed: nat, written: nat)
    modifies to
    ensures consumed <= |s| && written <= to.Length
    ensures Decode(s) == Prepend(to[..written], Decode(s[consumed..]))
    ensures res.Success? <==> consumed == |s|
    ensures res.Failure? ==> consumed < |s| && DecodeStep(s[consumed..]).Invalid?
    ensures res.Partial? ==>
      consumed < |s| && (written == to.Length || DecodeStep(s[consumed..]).Truncated?)
  {
    consumed, written := 0, 0;
    assert s[0..] == s && to[..0] == [];
    PrependEmpty(Decode(s));
    while consumed < |s| && written < to.Length
      invariant consumed <= |s| && written <= to.Length
      invariant Decode(s) == Prepend(to[..written], Decode(s[consumed..]))
    {
      var step := DecodeStep(s[consumed..]);
      match step {
        case Decoded(cp, len) =>
          ghost var rest := Decode(s[consumed + len..]);
          assert s[consumed..][len..] == s[consumed + len..];
          assert Decode(s[consumed..]) == Prepend([cp], rest);
          to[written] := cp;
          assert to[..written + 1] == to[..written] + [cp];
          PrependAssoc(to[..written], [cp], rest);
          consumed, written := consumed + len, written + 1;
        case Truncated =>
          return Partial, consumed, written;
        case Invalid =>
          return Failure, consumed, written;
      }
    }
    res := if consumed < |s| then Partial else Success;
  }

  lemma {:induction false} DecodeCountsLeads(s: seq<Byte>, x: seq<U32>)
    requires Decode(s) == Some(x)
    ensures LeadCount(s) == Some(|x|)
    decreases |s|
  {
    if s != [] {
      var step := DecodeStep(s);
      var rest := Decode(s[step.len..]).value;
      DecodeCountsLeads(s[step.len..], rest);
    }
  }

  /** `toUTF32`: sizes a buffer with `Utf32Length`, then decodes into it. */
  method ToUtf32(text: seq<Byte>) returns (r: Option<seq<U32>>)
    ensures r == Decode(text)
  {
    var len := Utf32Length(text);
    var buffer := new U32[len](_ => 0);
    var res, consumed, written := Utf8ToUcs4(text, buffer);
    if res != Success {
      if Decode(text).Some? {
        DecodeCountsLeads(text, Decode(text).value);
      }
      return None;
    }
    assert text[consumed..] == [];
    assert buffer[..written] + [] == buffer[..written];
    DecodeCountsLeads(text, buffer[..written]);
    assert buffer[..] == buffer[..written];
    return Some(buffer[..]);
  }

  // ---------------------------------------------------------------------------
  // Round trips

  // The byte sequences of each length, written as lead payload `a` and
  // continuation payloads `b`, `c`, `d` (six bits each).

  lemma {:induction false} BytesTwo(a: int, b: int)
    requires 2 <= a < 32 && 0 <= b < 64
    ensures var t := a * 64 + b;
      0x80 <= t < 0x800 && EncodeCodePoint(t) == [0xC0 + a, 0x80 + b] &&
      DecodeTwo(0xC0 + a, 0x80 + b) == Decoded(t, 2)
  {
    Digits2(a, b);
  }

  lemma {:induction false} BytesThree(a: int, b: int, c: int)
    requires 0 <= a < 16 && 0 <= b < 64 && 0 <= c < 64
    requires a == 0 ==> b >= 32
    requires a == 13 ==> b < 32
    ensures var t := a * 4096 + b * 64 + c;
      0x800 <= t < 0x10000 && !IsSurrogate(t) &&
      EncodeCodePoint(t) == [0xE0 + a, 0x80 + b, 0x80 + c] &&
      DecodeThree(0xE0 + a, 0x80 + b, 0x80 + c) == Decoded(t, 3)
  {
    Digits3(a, b, c);
  }

  lemma {:induction false} BytesFour(a: int, b: int, c: int, d: int)
    requires 0 <= a < 5 && 0 <= b < 64 && 0 <= c < 64 && 0 <= d < 64
    requires a == 0 ==> b >= 16
    requires a == 4 ==> b < 16
    ensures var t := a * 262144 + b * 4096 + c * 64 + d;
      0x10000 <= t <= MaxCode &&
      EncodeCodePoint(t) == [0xF0 + a, 0x80 + b, 0x80 + c, 0x80 + d] &&
      DecodeFour(0xF0 + a, 0x80 + b, 0x80 + c, 0x80 + d) == Decoded(t, 4)
  {
    var t := a * 262144 + b * 4096 + c * 64 + d;
    assert 0x10000 <= t <= MaxCode;
    Digits4(a, b, c, d);
    assert EncodeCodePoint(t) == [0xF0 + a, 0x80 + b, 0x80 + c, 0x80 + d];
    assert (0xF0 + a) % 8 == a;
    hide EncodeCodePoint;
    assert Low6(0x80 + b) == b && Low6(0x80 + c) == c && Low6(0x80 + d) == d;
  }

  /** The decoder reads an encoded code point back, whatever follows it. */
  lemma {:induction false} DecodeStepEncoded(wc: U32, tail: seq<Byte>)
    requires Encodable(wc)
    ensures DecodeStep(EncodeCodePoint(wc) + tail) == Decoded(wc, EncodedLength(wc))
  {
    var e := EncodeCodePoint(wc);
    var s := e + tail;
    assert s[..|e|] == e;
    var q := wc / 64;
    var q2 := q / 64;
    if wc < 0x80 {
    } else if wc < 0x800 {
      assert wc == q * 64 + wc % 64;
      BytesTwo(q, wc % 64);
    } else if wc < 0x10000 {
      assert wc == q2 * 4096 + q % 64 * 64 + wc % 64;
      BytesThree(q2, q % 64, wc % 64);
    } else {
      assert wc == q2 / 64 * 262144 + q2 % 64 * 4096 + q % 64 * 64 + wc % 64;
      BytesFour(q2 / 64, q2 % 64, q % 64, wc % 64);
    }
  }

  /** Decoding the encoding of accepted code points gives them back. */
  lemma {:induction false} DecodeEncode(s: seq<U32>)
    requires AllEncodable(s)
    ensures Decode(EncodeAll(s)) == Some(s)
    decreases |s|
  {
    if s != [] {
      var head, rest := s[0], s[1..];
      assert s == [head] + rest;
      EncodeAllCons(head, rest);
      var e := EncodeCodePoint(head);
      DecodeStepEncoded(head, EncodeAll(rest));
      assert (e + EncodeAll(rest))[|e|..] == EncodeAll(rest);
      DecodeEncode(rest);
    }
  }

  lemma {:induction false} Digits2(a: int, b: int)
    requires 0 <= b < 64
    ensures (a * 64 + b) / 64 == a && (a * 64 + b) % 64 == b
  {
  }

  lemma {:induction false} Digits3(a: int, b: int, c: int)
    requires 0 <= b < 64 && 0 <= c < 64
    ensures var t := a * 4096 + b * 64 + c;
      t / 4096 == a && t / 64 % 64 == b && t % 64 == c
  {
    Digits2(a * 64 + b, c);
    Digits2(a, b);
  }

  lemma {:induction false} Digits4(a: int, b: int, c: int, d: int)
    requires 0 <= b < 64 && 0 <= c < 64 && 0 <= d < 64
    ensures var t := a * 262144 + b * 4096 + c * 64 + d;
      t / 262144 == a && t / 4096 % 64 == b && t / 64 % 64 == c && t % 64 == d
  {
    Digits2(a * 4096 + b * 64 + c, d);
    Digits3(a, b, c);
  }

  /**
   * A decoded sequence is exactly the encoding of its code point: no
   * surrogate, nothing above 0x10FFFF and no overlong form gets through.
   */
  lemma {:induction false} EncodeStepDecoded(s: seq<Byte>)
    requires |s| > 0 && DecodeStep(s).Decoded?
    ensures Encodable(DecodeStep(s).cp)
    ensures EncodedLength(DecodeStep(s).cp) == DecodeStep(s).len
    ensures EncodeCodePoint(DecodeStep(s).cp) == s[..DecodeStep(s).len]
  {
    var len := DecodeStep(s).len;
    if len == 2 {
      assert s[..2] == [s[0], s[1]];
      BytesTwo(s[0] - 0xC0, s[1] - 0x80);
    } else if len == 3 {
      assert s[..3] == [s[0], s[1], s[2]];
      BytesThree(s[0] - 0xE0, s[1] - 0x80, s[2] - 0x80);
    } else if len == 4 {
      assert s[..4] == [s[0], s[1], s[2], s[3]];
      BytesFour(s[0] - 0xF0, s[1] - 0x80, s[2] - 0x80, s[3] - 0x80);
    }
  }

  /** Well-formed UTF-8 survives the trip to UTF-32 and back. */
  lemma {:induction false} EncodeDecode(s: seq<Byte>)
    requires Decode(s).Some?
    ensures Encode(Decode(s).value) == Some(s)
    decreases |s|
  {
    if s != [] {
      var step := DecodeStep(s);
      EncodeStepDecoded(s);
      var cp, len := step.cp, step.len;
      var rest := s[len..];
      assert Decode(s) == Prepend([cp], Decode(rest));
      assert s == s[..len] + rest;
      hide DecodeStep, EncodeCodePoint;
      EncodeDecode(rest);
      var x := Decode(rest).value;
      assert Decode(s).value == [cp] + x;
      assert AllEncodable(x) && EncodeAll(x) == rest;
      EncodeAllCons(cp, x);
      assert Encode([cp] + x) == Some(s);
      hide *;
    }
  }

  // ---------------------------------------------------------------------------
  // utf8CodePointLength

  /** `utf8CodePointLength` as written: the lead-byte test lets 0x80 through. */
  function CodePointLengthAsWritten(c: Byte): Option<nat>
  {
    if c == 0 || (c < 0xC2 && c > 0x80) then None
    else Some(if c < 0x80 then 1 else if c < 0xE0 then 2 else if c < 0xF0 then 3 else if c < 0xF5 then 4 else 5)
  }

  /** The continuation byte 0x80 is reported as the lead of a two-byte sequence. */
  lemma {:induction false} CodePointLengthOfContinuation()
    ensures IsCont(0x80) && LeadLength(0x80).None?
    ensures CodePointLengthAsWritten(0x80) == Some(2)
    ensures CodePointLengthAsWritten(0x81).None?
  {
  }

  /** `utf8CodePointLength` with every byte 0x80..0xC1 rejected. */
  function CodePointLength(c: Byte): (r: Option<nat>)
    ensures 0 < c < 0xF5 ==> r == LeadLength(c)
    ensures IsCont(c) ==> r.None?
  {
    if c == 0 || (c < 0xC2 && c >= 0x80) then None
    else Some(if c < 0x80 then 1 else if c < 0xE0 then 2 else if c < 0xF0 then 3 else if c < 0xF5 then 4 else 5)
  }

  /** The two versions differ on the single byte 0x80. */
  lemma {:induction false} CodePointLengthFix(c: Byte)
    ensures CodePointLengthAsWritten(c) != CodePointLength(c) <==> c == 0x80
  {
  }
}
