// Bit encodings of include/fwk/perf_base.h: the 64-bit Sample word and
// the GPU query identifiers.
module PerfBase {
  // The SampleType enumeration; its ordinal is what gets encoded.
  newtype u16 = x: int | 0 <= x < 0x1_0000

  /** PointId identifies a point in code; ExecId a stack of scopes. Both wrap
      an unsigned short and convert to bool as value != 0. */
  datatype PointId = PointId(value: u16)
  {
    predicate IsSet() { value != 0 }
  }
  datatype ExecId = ExecId(value: u16)
  {
    predicate IsSet() { value != 0 }
  }

  /** operator< of PointId and ExecId as written: it compares for equality. */
  predicate PointIdLessAsWritten(a: PointId, b: PointId) { a.value == b.value }
  predicate ExecIdLessAsWritten(a: ExecId, b: ExecId) { a.value == b.value }

  /** As written, every id is less than itself, so the ordering that sorted
      containers and std::map require is not a strict weak ordering. */
  lemma IdLessAsWrittenIsReflexive(p: PointId, e: ExecId)
    ensures PointIdLessAsWritten(p, p) && ExecIdLessAsWritten(e, e)
    ensures !PointIdLessAsWritten(PointId(1), PointId(2)) && !PointIdLessAsWritten(PointId(2), PointId(1))
  {
  }

  /** operator< as intended: compares the wrapped values. */
  predicate PointIdLess(a: PointId, b: PointId) { a.value < b.value }
  predicate ExecIdLess(a: ExecId, b: ExecId) { a.value < b.value }

  /** The corrected comparison is a strict total order consistent with ==. */
  lemma PointIdLessIsStrictTotalOrder(a: PointId, b: PointId, c: PointId)
    ensures !PointIdLess(a, a)
    ensures PointIdLess(a, b) && PointIdLess(b, c) ==> PointIdLess(a, c)
    ensures PointIdLess(a, b) || PointIdLess(b, a) || a == b
    ensures PointIdLess(a, b) ==> !PointIdLess(b, a)
  {
  }

  lemma ExecIdLessIsStrictTotalOrder(a: ExecId, b: ExecId, c: ExecId)
    ensures !ExecIdLess(a, a)
    ensures ExecIdLess(a, b) && ExecIdLess(b, c) ==> ExecIdLess(a, c)
    ensures ExecIdLess(a, b) || ExecIdLess(b, a) || a == b
    ensures ExecIdLess(a, b) ==> !ExecIdLess(b, a)
  {
  }

  datatype SampleType = ScopeBegin | ScopeEnd | GpuTime | Counter

  function SampleTypeOrdinal(t: SampleType): (r: bv64)
    ensures r < 4
  {
    match t
    case ScopeBegin => 0
    case ScopeEnd => 1
    case GpuTime => 2
    case Counter => 3
  }

  /** Sample<Id>::value_mask: the low 45 bits. */
  const ValueMask: bv64 := 0x1FFF_FFFF_FFFF

  lemma ValueMaskIsTwoToThe45MinusOne()
    ensures ValueMask == (1 << 45) - 1
    ensures ValueMask as int + 1 == 0x2000_0000_0000
  {
  }

  /** A performance sample: 45 value bits, 3 type bits, 16 id bits. */
  datatype Sample = Sample(encoded: bv64)
  {
    /** Sample::value(): the low 45 bits. */
    function Value(): bv64 { encoded & ValueMask }
    /** Sample::type(): bits 45..47, as the raw enumeration ordinal. */
    function TypeOrdinal(): bv64 { (encoded >> 45) & 0x7 }
    /** Sample::id(): the top 16 bits. */
    function Id(): bv16 { (encoded >> 48) as bv16 }

    /** Sample::setValue: replace the value bits, keep the rest. */
    function SetValue(value: bv64): (r: Sample)
      ensures r.Value() == value & ValueMask
    {
      Sample((encoded & !ValueMask) | (value & ValueMask))
    }
  }

  /** setValue keeps the type bits and the id bits. */
  lemma SetValueKeepsType(s: Sample, value: bv64)
    ensures s.SetValue(value).TypeOrdinal() == s.TypeOrdinal()
  {
  }

  lemma SetValueKeepsId(s: Sample, value: bv64)
    ensures s.SetValue(value).Id() == s.Id()
  {
  }

  /** The Sample(type, id, value) constructor. */
  function MakeSample(t: SampleType, id: bv16, value: bv64): (r: Sample)
    ensures r.Value() == value & ValueMask
    ensures r.TypeOrdinal() == SampleTypeOrdinal(t)
    ensures r.Id() == id
  {
    Sample((value & ValueMask) | (SampleTypeOrdinal(t) << 45) | ((id as bv64) << 48))
  }

  /** A value that fits in 45 bits survives the encoding unchanged. */
  lemma SmallValueRoundTrip(t: SampleType, id: bv16, value: bv64)
    requires value < 0x2000_0000_0000
    ensures MakeSample(t, id, value).Value() == value
  {
  }

  // ---- GpuScope sample identifiers (32-bit unsigned arithmetic) ----

  datatype ScopeType = Enter | Exit | Sibling

  function ScopeTypeOrdinal(t: ScopeType): (r: nat)
    ensures r < 3
  {
    match t
    case Enter => 0
    case Exit => 1
    case Sibling => 2
  }

  const U32Limit: int := 0x1_0000_0000
  newtype u32 = x: int | 0 <= x < 0x1_0000_0000

  /** GpuScope::encodeSampleId: sample_id * 4 + type, wrapping at 2^32. */
  function EncodeSampleId(sampleId: u32, t: ScopeType): (r: u32)
    ensures r as int % 4 == ScopeTypeOrdinal(t)
  {
    ((sampleId as int * 4 + ScopeTypeOrdinal(t)) % U32Limit) as u32
  }

  /** GpuScope::decodeSampleId: (encoded >> 2, encoded & 3). */
  function DecodeSampleId(encoded: u32): (r: (u32, nat))
    ensures r.0 as int * 4 + r.1 == encoded as int && r.1 < 4
  {
    ((encoded as int / 4) as u32, encoded as int % 4)
  }

  /** Decoding an encoded id gives back the id and scope type, provided the
      id is below 2^30 so that multiplying by 4 does not wrap. */
  lemma SampleIdRoundTrip(sampleId: u32, t: ScopeType)
    requires sampleId as int < 0x4000_0000
    ensures DecodeSampleId(EncodeSampleId(sampleId, t)) == (sampleId, ScopeTypeOrdinal(t))
  {
  }

  /** An id of 2^30 or more loses its top bits: the round trip fails. */
  lemma SampleIdWrapsAboveTwoToThe30(sampleId: u32, t: ScopeType)
    requires sampleId as int >= 0x4000_0000
    ensures DecodeSampleId(EncodeSampleId(sampleId, t)).0 as int == sampleId as int % 0x4000_0000
    ensures DecodeSampleId(EncodeSampleId(sampleId, t)).0 != sampleId
  {
  }
}
