// Format tables and size arithmetic of src/vulkan_base.cpp.
module VulkanFormats {
  import opened Wrappers
  import opened VulkanBase

  // ---- primitiveCount ----

  datatype PrimitiveTopology = PointList | LineList | LineStrip | TriangleList | TriangleStrip | TriangleFan

  /** C++ integer division of a by a positive divisor: truncates toward zero. */
  function CDiv(a: int, b: int): (q: int)
    requires b > 0
    ensures a >= 0 ==> q == a / b
    ensures a < 0 ==> q == -((-a) / b)
  {
    if a >= 0 then a / b else -((-a) / b)
  }

  /** primitiveCount(topology, vertex_count). */
  function PrimitiveCount(topo: PrimitiveTopology, vertexCount: int): int
  {
    match topo
    case PointList => vertexCount
    case LineList => CDiv(vertexCount, 2)
    case LineStrip => if vertexCount - 1 > 0 then vertexCount - 1 else 0
    case TriangleList => CDiv(vertexCount, 3)
    case TriangleStrip | TriangleFan => if vertexCount - 2 > 0 then vertexCount - 2 else 0
  }

  /** Reference definition: the number of vertices that p primitives of a
      topology use (lists share nothing, strips and fans share all but one). */
  function VerticesUsed(topo: PrimitiveTopology, p: nat): nat
  {
    match topo
    case PointList => p
    case LineList => 2 * p
    case TriangleList => 3 * p
    case LineStrip => if p == 0 then 0 else p + 1
    case TriangleStrip | TriangleFan => if p == 0 then 0 else p + 2
  }

  /** For a non-negative vertex count, primitiveCount is the largest number of
      whole primitives that fit in that many vertices. */
  lemma PrimitiveCountIsLargestFit(topo: PrimitiveTopology, n: nat)
    ensures PrimitiveCount(topo, n) >= 0
    ensures VerticesUsed(topo, PrimitiveCount(topo, n)) <= n
    ensures VerticesUsed(topo, PrimitiveCount(topo, n) + 1) > n
  {
  }

  // ---- format tables ----

  /** base_unit_size: bytes per unit (pixel or 4x4 block) of each base format. */
  const BaseUnitSize: seq<nat> := [
    1, 2, 3, 3, 4, 4, 4,          // 8-bit components
    4, 4,                         // 2-bit alpha
    2, 4, 6, 8,                   // 16-bit components
    4, 8, 12, 16,                 // 32-bit components
    4, 4,                         // special
    8, 8, 16, 16, 8, 16, 16, 16   // block
  ]

  datatype FormatInfo = Info(base: BaseFormat, numeric: NumericFormat)

  /** format_infos as the source lists it, indexed by format: the two BC6H
      entries name the base format bc1_rgb. */
  function FormatInfoAsWritten(f: ColorFormat): FormatInfo
  {
    if f < 31 then FormatInfosAsWritten0(f)
    else if f < 62 then FormatInfosAsWritten31(f)
    else FormatInfosAsWritten62(f)
  }

  function FormatInfosAsWritten0(f: nat): FormatInfo
    requires 0 <= f < 31
  {
    match f
    case 0 => Info(R8, Unorm)          // r8_unorm
    case 1 => Info(R8, Snorm)          // r8_snorm
    case 2 => Info(R8, Uint)           // r8_uint
    case 3 => Info(R8, Sint)           // r8_sint
    case 4 => Info(R8, Srgb)           // r8_srgb
    case 5 => Info(Rg8, Unorm)         // rg8_unorm
    case 6 => Info(Rg8, Snorm)         // rg8_snorm
    case 7 => Info(Rg8, Uint)          // rg8_uint
    case 8 => Info(Rg8, Sint)          // rg8_sint
    case 9 => Info(Rg8, Srgb)          // rg8_srgb
    case 10 => Info(Rgb8, Unorm)       // rgb8_unorm
    case 11 => Info(Rgb8, Snorm)       // rgb8_snorm
    case 12 => Info(Rgb8, Uint)        // rgb8_uint
    case 13 => Info(Rgb8, Sint)        // rgb8_sint
    case 14 => Info(Rgb8, Srgb)        // rgb8_srgb
    case 15 => Info(Bgr8, Unorm)       // bgr8_unorm
    case 16 => Info(Bgr8, Snorm)       // bgr8_snorm
    case 17 => Info(Bgr8, Uint)        // bgr8_uint
    case 18 => Info(Bgr8, Sint)        // bgr8_sint
    case 19 => Info(Bgr8, Srgb)        // bgr8_srgb
    case 20 => Info(Rgba8, Unorm)      // rgba8_unorm
    case 21 => Info(Rgba8, Snorm)      // rgba8_snorm
    case 22 => Info(Rgba8, Uint)       // rgba8_uint
    case 23 => Info(Rgba8, Sint)       // rgba8_sint
    case 24 => Info(Rgba8, Srgb)       // rgba8_srgb
    case 25 => Info(Bgra8, Unorm)      // bgra8_unorm
    case 26 => Info(Bgra8, Snorm)      // bgra8_snorm
    case 27 => Info(Bgra8, Uint)       // bgra8_uint
    case 28 => Info(Bgra8, Sint)       // bgra8_sint
    case 29 => Info(Bgra8, Srgb)       // bgra8_srgb
    case _ => Info(Abgr8, Unorm)       // abgr8_unorm
  }

  function FormatInfosAsWritten31(f: nat): FormatInfo
    requires 31 <= f < 62
  {
    match f
    case 31 => Info(Abgr8, Snorm)      // abgr8_snorm
    case 32 => Info(Abgr8, Uint)       // abgr8_uint
    case 33 => Info(Abgr8, Sint)       // abgr8_sint
    case 34 => Info(Abgr8, Srgb)       // abgr8_srgb
    case 35 => Info(A2rgb10, Unorm)    // a2rgb10_unorm
    case 36 => Info(A2rgb10, Snorm)    // a2rgb10_snorm
    case 37 => Info(A2rgb10, Uint)     // a2rgb10_uint
    case 38 => Info(A2rgb10, Sint)     // a2rgb10_sint
    case 39 => Info(A2bgr10, Unorm)    // a2bgr10_unorm
    case 40 => Info(A2bgr10, Snorm)    // a2bgr10_snorm
    case 41 => Info(A2bgr10, Uint)     // a2bgr10_uint
    case 42 => Info(A2bgr10, Sint)     // a2bgr10_sint
    case 43 => Info(R16, Unorm)        // r16_unorm
    case 44 => Info(R16, Snorm)        // r16_snorm
    case 45 => Info(R16, Uint)         // r16_uint
    case 46 => Info(R16, Sint)         // r16_sint
    case 47 => Info(R16, Sfloat)       // r16_sfloat
    case 48 => Info(Rg16, Unorm)       // rg16_unorm
    case 49 => Info(Rg16, Snorm)       // rg16_snorm
    case 50 => Info(Rg16, Uint)        // rg16_uint
    case 51 => Info(Rg16, Sint)        // rg16_sint
    case 52 => Info(Rg16, Sfloat)      // rg16_sfloat
    case 53 => Info(Rgb16, Unorm)      // rgb16_unorm
    case 54 => Info(Rgb16, Snorm)      // rgb16_snorm
    case 55 => Info(Rgb16, Uint)       // rgb16_uint
    case 56 => Info(Rgb16, Sint)       // rgb16_sint
    case 57 => Info(Rgb16, Sfloat)     // rgb16_sfloat
    case 58 => Info(Rgba16, Unorm)     // rgba16_unorm
    case 59 => Info(Rgba16, Snorm)     // rgba16_snorm
    case 60 => Info(Rgba16, Uint)      // rgba16_uint
    case _ => Info(Rgba16, Sint)       // rgba16_sint
  }

  function FormatInfosAsWritten62(f: nat): FormatInfo
    requires 62 <= f < 93
  {
    match f
    case 62 => Info(Rgba16, Sfloat)    // rgba16_sfloat
    case 63 => Info(R32, Uint)         // r32_uint
    case 64 => Info(R32, Sint)         // r32_sint
    case 65 => Info(R32, Sfloat)       // r32_sfloat
    case 66 => Info(Rg32, Uint)        // rg32_uint
    case 67 => Info(Rg32, Sint)        // rg32_sint
    case 68 => Info(Rg32, Sfloat)      // rg32_sfloat
    case 69 => Info(Rgb32, Uint)       // rgb32_uint
    case 70 => Info(Rgb32, Sint)       // rgb32_sint
    case 71 => Info(Rgb32, Sfloat)     // rgb32_sfloat
    case 72 => Info(Rgba32, Uint)      // rgba32_uint
    case 73 => Info(Rgba32, Sint)      // rgba32_sint
    case 74 => Info(Rgba32, Sfloat)    // rgba32_sfloat
    case 75 => Info(B10g11r11Ufloat, Ufloat) // b10g11r11_ufloat
    case 76 => Info(E5r9g9b9Ufloat, Ufloat) // e5r9g9b9_ufloat
    case 77 => Info(Bc1Rgb, Unorm)     // bc1_rgb_unorm
    case 78 => Info(Bc1Rgb, Srgb)      // bc1_rgb_srgb
    case 79 => Info(Bc1Rgba, Unorm)    // bc1_rgba_unorm
    case 80 => Info(Bc1Rgba, Srgb)     // bc1_rgba_srgb
    case 81 => Info(Bc2Rgba, Unorm)    // bc2_rgba_unorm
    case 82 => Info(Bc2Rgba, Srgb)     // bc2_rgba_srgb
    case 83 => Info(Bc3Rgba, Unorm)    // bc3_rgba_unorm
    case 84 => Info(Bc3Rgba, Srgb)     // bc3_rgba_srgb
    case 85 => Info(Bc4R, Unorm)       // bc4_r_unorm
    case 86 => Info(Bc4R, Snorm)       // bc4_r_snorm
    case 87 => Info(Bc5Rg, Unorm)      // bc5_rg_unorm
    case 88 => Info(Bc5Rg, Snorm)      // bc5_rg_snorm
    case 89 => Info(Bc1Rgb, Ufloat)    // bc6h_rgb_ufloat
    case 90 => Info(Bc1Rgb, Sfloat)    // bc6h_rgb_sfloat
    case 91 => Info(Bc7Rgba, Unorm)    // bc7_rgba_unorm
    case _ => Info(Bc7Rgba, Srgb)      // bc7_rgba_srgb
  }

  /** format_infos with the BC6H entries naming their own base format bc6h_rgb. */
  function FormatInfoOf(f: ColorFormat): FormatInfo
  {
    if f == Bc6hRgbUfloat then Info(Bc6hRgb, Ufloat)
    else if f == Bc6hRgbSfloat then Info(Bc6hRgb, Sfloat)
    else FormatInfoAsWritten(f)
  }

  /** The tables as arrays, in format order. */
  function FormatInfosAsWritten(): (t: seq<FormatInfo>)
    ensures |t| == 93 && forall f: ColorFormat :: t[f] == FormatInfoAsWritten(f)
  {
    seq(93, i requires 0 <= i < 93 => FormatInfoAsWritten(i))
  }

  function FormatInfos(): (t: seq<FormatInfo>)
    ensures |t| == 93 && forall f: ColorFormat :: t[f] == FormatInfoOf(f)
  {
    seq(93, i requires 0 <= i < 93 => FormatInfoOf(i))
  }

  lemma TableSizes()
    ensures |BaseUnitSize| == 27 && |FormatInfosAsWritten()| == 93 && |FormatInfos()| == 93
  {
  }

  /** baseFormat(VFormat) and numericFormat(VFormat). */
  function BaseFormatOf(f: ColorFormat): BaseFormat { FormatInfoOf(f).base }
  function NumericFormatOf(f: ColorFormat): NumericFormat { FormatInfoOf(f).numeric }

  /** unitByteSize(VBaseFormat) and unitByteSize(VFormat). */
  function UnitByteSizeOfBase(b: BaseFormat): nat { BaseUnitSize[b] }
  function UnitByteSize(f: ColorFormat): nat { BaseUnitSize[BaseFormatOf(f)] }

  /** A color format is a block format exactly when its base format is. */
  lemma BlockFormatsHaveBlockBases(f: ColorFormat)
    ensures IsBlock(f) <==> IsBlockBase(BaseFormatOf(f))
    ensures UnitSize(f) == UnitSizeOfBase(BaseFormatOf(f))
  {
    if f < 30 {
    } else if f < 60 {
    } else if f < 77 {
    } else {
    }
  }

  /** The first format of each base format in the table. */
  function FirstFormatOf(b: BaseFormat): (f: ColorFormat)
    ensures BaseFormatOf(f) == b
  {
    match b
    case 0 => 0
    case 1 => 5
    case 2 => 10
    case 3 => 15
    case 4 => 20
    case 5 => 25
    case 6 => 30
    case 7 => 35
    case 8 => 39
    case 9 => 43
    case 10 => 48
    case 11 => 53
    case 12 => 58
    case 13 => 63
    case 14 => 66
    case 15 => 69
    case 16 => 72
    case 17 => 75
    case 18 => 76
    case 19 => 77
    case 20 => 79
    case 21 => 81
    case 22 => 83
    case 23 => 85
    case 24 => 87
    case 25 => 89
    case _ => 91
  }

  /** unitSize(VBaseFormat) read off the format table: every base format has
      formats in it, and its unit is a 4x4 block exactly when the table's
      formats on that base are the BCn block formats, a pixel exactly when
      none of them is; each of them has the unit of its base. */
  lemma UnitSizeOfBaseFromTable(b: BaseFormat)
    ensures exists f: ColorFormat :: BaseFormatOf(f) == b
    ensures UnitSizeOfBase(b) == 4 <==> forall f: ColorFormat | BaseFormatOf(f) == b :: IsBlock(f)
    ensures UnitSizeOfBase(b) == 1 <==> forall f: ColorFormat | BaseFormatOf(f) == b :: !IsBlock(f)
    ensures forall f: ColorFormat | BaseFormatOf(f) == b :: UnitSize(f) == UnitSizeOfBase(b)
  {
    var first := FirstFormatOf(b);
    forall f: ColorFormat | BaseFormatOf(f) == b
      ensures IsBlock(f) == IsBlockBase(b) && UnitSize(f) == UnitSizeOfBase(b)
    {
      BlockFormatsHaveBlockBases(f);
    }
    assert IsBlock(first) == IsBlockBase(b);
  }

  // ---- imageBlockSize, imageByteSize, areCompatible ----

  /** imageBlockSize: the pixel size, or the number of 4x4 blocks rounded up. */
  function ImageBlockSize(f: ColorFormat, pixelSize: (int, int)): (int, int)
  {
    var unit := UnitSize(f);
    if unit == 1 then pixelSize
    else (CDiv(pixelSize.0 + (unit - 1), unit), CDiv(pixelSize.1 + (unit - 1), unit))
  }

  /** Block formats cover a non-negative pixel extent with the fewest whole
      4x4 blocks; other formats keep the pixel size. */
  lemma ImageBlockSizeCovers(f: ColorFormat, w: nat, h: nat)
    ensures !IsBlock(f) ==> ImageBlockSize(f, (w, h)) == (w, h)
    ensures IsBlock(f) ==>
      var blocksX := ImageBlockSize(f, (w, h)).0;
      var blocksY := ImageBlockSize(f, (w, h)).1;
      blocksX >= 0 && blocksY >= 0 && 4 * blocksX >= w && 4 * (blocksX - 1) < w && 4 * blocksY >= h && 4 * (blocksY - 1) < h
  {
  }

  /** imageByteSize: blocks along x times blocks along y times bytes per unit. */
  function ImageByteSize(f: ColorFormat, pixelSize: (int, int)): int
  {
    var blocks := ImageBlockSize(f, pixelSize);
    blocks.0 * blocks.1 * UnitByteSize(f)
  }

  /** A 4x4 block in a block format holds exactly one unit of bytes, and a
      non-block format spends one unit per pixel. */
  lemma ImageByteSizeExamples()
    ensures ImageByteSize(Rgba8Unorm, (3, 5)) == 60
    ensures ImageByteSize(Bc1RgbUnorm, (5, 4)) == 16
    ensures ImageByteSize(Bc7RgbaSrgb, (4, 4)) == 16
  {
    assert UnitByteSize(Rgba8Unorm) == 4 && UnitSize(Rgba8Unorm) == 1;
    assert ImageBlockSize(Bc1RgbUnorm, (5, 4)) == (2, 1) && UnitByteSize(Bc1RgbUnorm) == 8;
    assert ImageBlockSize(Bc7RgbaSrgb, (4, 4)) == (1, 1) && UnitByteSize(Bc7RgbaSrgb) == 16;
  }

  /** areCompatible: same unit size and same bytes per unit. */
  predicate AreCompatible(a: ColorFormat, b: ColorFormat)
  {
    UnitSize(a) == UnitSize(b) && UnitByteSize(a) == UnitByteSize(b)
  }

  /** Compatibility is an equivalence relation that never mixes block and
      non-block formats, and compatible formats need equal storage. */
  lemma CompatibilityIsEquivalence(a: ColorFormat, b: ColorFormat, c: ColorFormat, size: (int, int))
    ensures AreCompatible(a, a)
    ensures AreCompatible(a, b) ==> AreCompatible(b, a)
    ensures AreCompatible(a, b) && AreCompatible(b, c) ==> AreCompatible(a, c)
    ensures AreCompatible(a, b) ==> (IsBlock(a) <==> IsBlock(b))
    ensures AreCompatible(a, b) ==> ImageByteSize(a, size) == ImageByteSize(b, size)
  {
  }

  // ---- makeFormat ----

  /** std::lower_bound over table[first .. first + len) with the predicate
      entry.base < base, written as libstdc++'s binary search. */
  function LowerBound(table: seq<FormatInfo>, first: nat, len: nat, base: BaseFormat): (r: nat)
    requires first + len <= |table|
    ensures first <= r <= first + len
    decreases len
  {
    if len == 0 then first
    else
      var half := len / 2;
      var mid := first + half;
      if table[mid].base < base then LowerBound(table, mid + 1, len - half - 1, base)
      else LowerBound(table, first, half, base)
  }

  /** The scan of makeFormat: walk forward while the base matches. */
  function ScanForNumeric(table: seq<FormatInfo>, it: nat, base: BaseFormat, numeric: NumericFormat): (r: Option<nat>)
    requires it <= |table|
    ensures r.Some? ==> it <= r.value < |table| && table[r.value] == Info(base, numeric)
    decreases |table| - it
  {
    if it < |table| && table[it].base == base then
      if table[it].numeric == numeric then Some(it)
      else ScanForNumeric(table, it + 1, base, numeric)
    else None
  }

  /** makeFormat over a given table. */
  function MakeFormatIn(table: seq<FormatInfo>, base: BaseFormat, numeric: NumericFormat): (r: Option<nat>)
    ensures r.Some? ==> r.value < |table| && table[r.value] == Info(base, numeric)
  {
    ScanForNumeric(table, LowerBound(table, 0, |table|, base), base, numeric)
  }

  /** makeFormat(base, numeric). */
  function MakeFormat(base: BaseFormat, numeric: NumericFormat): (r: Option<ColorFormat>)
    ensures r.Some? ==> BaseFormatOf(r.value) == base && NumericFormatOf(r.value) == numeric
  {
    var found := MakeFormatIn(FormatInfos(), base, numeric);
    if found.Some? then Some(found.value as ColorFormat) else None
  }

  /** x comes before y in (base, numeric) order. */
  predicate Before(x: FormatInfo, y: FormatInfo)
  {
    x.base < y.base || (x.base == y.base && x.numeric < y.numeric)
  }

  /** Every entry comes before every later entry. */
  predicate Increasing(table: seq<FormatInfo>)
  {
    forall i, j :: 0 <= i < j < |table| ==> Before(table[i], table[j])
  }

  /** Each entry comes before the next one. */
  predicate StepwiseIncreasing(table: seq<FormatInfo>)
  {
    forall i :: 0 <= i < |table| - 1 ==> Before(table[i], table[i + 1])
  }

  lemma {:induction false} StepwiseIncreasingIsIncreasing(table: seq<FormatInfo>)
    requires StepwiseIncreasing(table)
    ensures Increasing(table)
  {
    forall i, j | 0 <= i < j < |table| ensures Before(table[i], table[j]) {
      var m := i + 1;
      while m < j
        invariant i + 1 <= m <= j
        invariant Before(table[i], table[m])
      {
        assert Before(table[m], table[m + 1]);
        m := m + 1;
      }
    }
  }

  /** In a table sorted by base, lower_bound finds the first entry whose base
      is not below the key. */
  lemma {:induction false} LowerBoundIsFirstNotBelow(table: seq<FormatInfo>, first: nat, len: nat, base: BaseFormat)
    requires first + len <= |table|
    requires Increasing(table)
    ensures forall i :: first <= i < LowerBound(table, first, len, base) ==> table[i].base < base
    ensures forall i :: LowerBound(table, first, len, base) <= i < first + len ==> table[i].base >= base
    decreases len
  {
    if len > 0 {
      var half := len / 2;
      var mid := first + half;
      if table[mid].base < base {
        LowerBoundIsFirstNotBelow(table, mid + 1, len - half - 1, base);
      } else {
        LowerBoundIsFirstNotBelow(table, first, half, base);
      }
    }
  }

  lemma {:induction false} ScanFinds(table: seq<FormatInfo>, it: nat, k: nat)
    requires Increasing(table)
    requires it <= k < |table|
    requires forall i :: it <= i <= k ==> table[i].base == table[k].base
    ensures ScanForNumeric(table, it, table[k].base, table[k].numeric) == Some(k)
    decreases k - it
  {
    if it < k {
      assert Before(table[it], table[k]);
      ScanFinds(table, it + 1, k);
    }
  }

  /** On a strictly increasing table, makeFormat finds every entry. */
  lemma MakeFormatInFindsEntry(table: seq<FormatInfo>, k: nat)
    requires Increasing(table)
    requires k < |table|
    ensures MakeFormatIn(table, table[k].base, table[k].numeric) == Some(k)
  {
    var lb := LowerBound(table, 0, |table|, table[k].base);
    LowerBoundIsFirstNotBelow(table, 0, |table|, table[k].base);
    assert lb <= k;
    forall i | lb <= i <= k ensures table[i].base == table[k].base {
      if i < k { assert Before(table[i], table[k]); }
    }
    ScanFinds(table, lb, k);
  }

  lemma FormatInfosStep0To5()
    ensures forall i: ColorFormat :: 0 <= i < 5 ==> Before(FormatInfoOf(i), FormatInfoOf(i + 1))
  {
    forall i: ColorFormat | 0 <= i < 5 ensures Before(FormatInfoOf(i), FormatInfoOf(i + 1)) {
      if i == 0 { assert Before(FormatInfoOf(0), FormatInfoOf(1)); }
      else if i == 1 { assert Before(FormatInfoOf(1), FormatInfoOf(2)); }
      else if i == 2 { assert Before(FormatInfoOf(2), FormatInfoOf(3)); }
      else if i == 3 { assert Before(FormatInfoOf(3), FormatInfoOf(4)); }
      else if i == 4 { assert Before(FormatInfoOf(4), FormatInfoOf(5)); }
    }
  }

  lemma FormatInfosStep5To10()
    ensures forall i: ColorFormat :: 5 <= i < 10 ==> Before(FormatInfoOf(i), FormatInfoOf(i + 1))
  {
    forall i: ColorFormat | 5 <= i < 10 ensures Before(FormatInfoOf(i), FormatInfoOf(i + 1)) {
      if i == 5 { assert Before(FormatInfoOf(5), FormatInfoOf(6)); }
      else if i == 6 { assert Before(FormatInfoOf(6), FormatInfoOf(7)); }
      else if i == 7 { assert Before(FormatInfoOf(7), FormatInfoOf(8)); }
      else if i == 8 { assert Before(FormatInfoOf(8), FormatInfoOf(9)); }
      else if i == 9 { assert Before(FormatInfoOf(9), FormatInfoOf(10)); }
    }
  }

  lemma FormatInfosStep10To15()
    ensures forall i: ColorFormat :: 10 <= i < 15 ==> Before(FormatInfoOf(i), FormatInfoOf(i + 1))
  {
    forall i: ColorFormat | 10 <= i < 15 ensures Before(FormatInfoOf(i), FormatInfoOf(i + 1)) {
      if i == 10 { assert Before(FormatInfoOf(10), FormatInfoOf(11)); }
      else if i == 11 { assert Before(FormatInfoOf(11), FormatInfoOf(12)); }
      else if i == 12 { assert Before(FormatInfoOf(12), FormatInfoOf(13)); }
      else if i == 13 { assert Before(FormatInfoOf(13), FormatInfoOf(14)); }
      else if i == 14 { assert Before(FormatInfoOf(14), FormatInfoOf(15)); }
    }
  }

  lemma FormatInfosStep15To20()
    ensures forall i: ColorFormat :: 15 <= i < 20 ==> Before(FormatInfoOf(i), FormatInfoOf(i + 1))
  {
    forall i: ColorFormat | 15 <= i < 20 ensures Before(FormatInfoOf(i), FormatInfoOf(i + 1)) {
      if i == 15 { assert Before(FormatInfoOf(15), FormatInfoOf(16)); }
      else if i == 16 { assert Before(FormatInfoOf(16), FormatInfoOf(17)); }
      else if i == 17 { assert Before(FormatInfoOf(17), FormatInfoOf(18)); }
      else if i == 18 { assert Before(FormatInfoOf(18), FormatInfoOf(19)); }
      else if i == 19 { assert Before(FormatInfoOf(19), FormatInfoOf(20)); }
    }
  }

  lemma FormatInfosStep20To25()
    ensures forall i: ColorFormat :: 20 <= i < 25 ==> Before(FormatInfoOf(i), FormatInfoOf(i + 1))
  {
    forall i: ColorFormat | 20 <= i < 25 ensures Before(FormatInfoOf(i), FormatInfoOf(i + 1)) {
      if i == 20 { assert Before(FormatInfoOf(20), FormatInfoOf(21)); }
      else if i == 21 { assert Before(FormatInfoOf(21), FormatInfoOf(22)); }
      else if i == 22 { assert Before(FormatInfoOf(22), FormatInfoOf(23)); }
      else if i == 23 { assert Before(FormatInfoOf(23), FormatInfoOf(24)); }
      else if i == 24 { assert Before(FormatInfoOf(24), FormatInfoOf(25)); }
    }
  }

  lemma FormatInfosStep25To30()
    ensures forall i: ColorFormat :: 25 <= i < 30 ==> Before(FormatInfoOf(i), FormatInfoOf(i + 1))
  {
    forall i: ColorFormat | 25 <= i < 30 ensures Before(FormatInfoOf(i), FormatInfoOf(i + 1)) {
      if i == 25 { assert Before(FormatInfoOf(25), FormatInfoOf(26)); }
      else if i == 26 { assert Before(FormatInfoOf(26), FormatInfoOf(27)); }
      else if i == 27 { assert Before(FormatInfoOf(27), FormatInfoOf(28)); }
      else if i == 28 { assert Before(FormatInfoOf(28), FormatInfoOf(29)); }
      else if i == 29 { assert Before(FormatInfoOf(29), FormatInfoOf(30)); }
    }
  }

  lemma FormatInfosStep30To35()
    ensures forall i: ColorFormat :: 30 <= i < 35 ==> Before(FormatInfoOf(i), FormatInfoOf(i + 1))
  {
    forall i: ColorFormat | 30 <= i < 35 ensures Before(FormatInfoOf(i), FormatInfoOf(i + 1)) {
      if i == 30 { assert Before(FormatInfoOf(30), FormatInfoOf(31)); }
      else if i == 31 { assert Before(FormatInfoOf(31), FormatInfoOf(32)); }
      else if i == 32 { assert Before(FormatInfoOf(32), FormatInfoOf(33)); }
      else if i == 33 { assert Before(FormatInfoOf(33), FormatInfoOf(34)); }
      else if i == 34 { assert Before(FormatInfoOf(34), FormatInfoOf(35)); }
    }
  }

  lemma FormatInfosStep35To40()
    ensures forall i: ColorFormat :: 35 <= i < 40 ==> Before(FormatInfoOf(i), FormatInfoOf(i + 1))
  {
    forall i: ColorFormat | 35 <= i < 40 ensures Before(FormatInfoOf(i), FormatInfoOf(i + 1)) {
      if i == 35 { assert Before(FormatInfoOf(35), FormatInfoOf(36)); }
      else if i == 36 { assert Before(FormatInfoOf(36), FormatInfoOf(37)); }
      else if i == 37 { assert Before(FormatInfoOf(37), FormatInfoOf(38)); }
      else if i == 38 { assert Before(FormatInfoOf(38), FormatInfoOf(39)); }
      else if i == 39 { assert Before(FormatInfoOf(39), FormatInfoOf(40)); }
    }
  }

  lemma FormatInfosStep40To45()
    ensures forall i: ColorFormat :: 40 <= i < 45 ==> Before(FormatInfoOf(i), FormatInfoOf(i + 1))
  {
    forall i: ColorFormat | 40 <= i < 45 ensures Before(FormatInfoOf(i), FormatInfoOf(i + 1)) {
      if i == 40 { assert Before(FormatInfoOf(40), FormatInfoOf(41)); }
      else if i == 41 { assert Before(FormatInfoOf(41), FormatInfoOf(42)); }
      else if i == 42 { assert Before(FormatInfoOf(42), FormatInfoOf(43)); }
      else if i == 43 { assert Before(FormatInfoOf(43), FormatInfoOf(44)); }
      else if i == 44 { assert Before(FormatInfoOf(44), FormatInfoOf(45)); }
    }
  }

  lemma FormatInfosStep45To50()
    ensures forall i: ColorFormat :: 45 <= i < 50 ==> Before(FormatInfoOf(i), FormatInfoOf(i + 1))
  {
    forall i: ColorFormat | 45 <= i < 50 ensures Before(FormatInfoOf(i), FormatInfoOf(i + 1)) {
      if i == 45 { assert Before(FormatInfoOf(45), FormatInfoOf(46)); }
      else if i == 46 { assert Before(FormatInfoOf(46), FormatInfoOf(47)); }
      else if i == 47 { assert Before(FormatInfoOf(47), FormatInfoOf(48)); }
      else if i == 48 { assert Before(FormatInfoOf(48), FormatInfoOf(49)); }
      else if i == 49 { assert Before(FormatInfoOf(49), FormatInfoOf(50)); }
    }
  }

  lemma FormatInfosStep50To55()
    ensures forall i: ColorFormat :: 50 <= i < 55 ==> Before(FormatInfoOf(i), FormatInfoOf(i + 1))
  {
    forall i: ColorFormat | 50 <= i < 55 ensures Before(FormatInfoOf(i), FormatInfoOf(i + 1)) {
      if i == 50 { assert Before(FormatInfoOf(50), FormatInfoOf(51)); }
      else if i == 51 { assert Before(FormatInfoOf(51), FormatInfoOf(52)); }
      else if i == 52 { assert Before(FormatInfoOf(52), FormatInfoOf(53)); }
      else if i == 53 { assert Before(FormatInfoOf(53), FormatInfoOf(54)); }
      else if i == 54 { assert Before(FormatInfoOf(54), FormatInfoOf(55)); }
    }
  }

  lemma FormatInfosStep55To60()
    ensures forall i: ColorFormat :: 55 <= i < 60 ==> Before(FormatInfoOf(i), FormatInfoOf(i + 1))
  {
    forall i: ColorFormat | 55 <= i < 60 ensures Before(FormatInfoOf(i), FormatInfoOf(i + 1)) {
      if i == 55 { assert Before(FormatInfoOf(55), FormatInfoOf(56)); }
      else if i == 56 { assert Before(FormatInfoOf(56), FormatInfoOf(57)); }
      else if i == 57 { assert Before(FormatInfoOf(57), FormatInfoOf(58)); }
      else if i == 58 { assert Before(FormatInfoOf(58), FormatInfoOf(59)); }
      else if i == 59 { assert Before(FormatInfoOf(59), FormatInfoOf(60)); }
    }
  }

  lemma FormatInfosStep60To65()
    ensures forall i: ColorFormat :: 60 <= i < 65 ==> Before(FormatInfoOf(i), FormatInfoOf(i + 1))
  {
    forall i: ColorFormat | 60 <= i < 65 ensures Before(FormatInfoOf(i), FormatInfoOf(i + 1)) {
      if i == 60 { assert Before(FormatInfoOf(60), FormatInfoOf(61)); }
      else if i == 61 { assert Before(FormatInfoOf(61), FormatInfoOf(62)); }
      else if i == 62 { assert Before(FormatInfoOf(62), FormatInfoOf(63)); }
      else if i == 63 { assert Before(FormatInfoOf(63), FormatInfoOf(64)); }
      else if i == 64 { assert Before(FormatInfoOf(64), FormatInfoOf(65)); }
    }
  }

  lemma FormatInfosStep65To70()
    ensures forall i: ColorFormat :: 65 <= i < 70 ==> Before(FormatInfoOf(i), FormatInfoOf(i + 1))
  {
    forall i: ColorFormat | 65 <= i < 70 ensures Before(FormatInfoOf(i), FormatInfoOf(i + 1)) {
      if i == 65 { assert Before(FormatInfoOf(65), FormatInfoOf(66)); }
      else if i == 66 { assert Before(FormatInfoOf(66), FormatInfoOf(67)); }
      else if i == 67 { assert Before(FormatInfoOf(67), FormatInfoOf(68)); }
      else if i == 68 { assert Before(FormatInfoOf(68), FormatInfoOf(69)); }
      else if i == 69 { assert Before(FormatInfoOf(69), FormatInfoOf(70)); }
    }
  }

  lemma FormatInfosStep70To75()
    ensures forall i: ColorFormat :: 70 <= i < 75 ==> Before(FormatInfoOf(i), FormatInfoOf(i + 1))
  {
    forall i: ColorFormat | 70 <= i < 75 ensures Before(FormatInfoOf(i), FormatInfoOf(i + 1)) {
      if i == 70 { assert Before(FormatInfoOf(70), FormatInfoOf(71)); }
      else if i == 71 { assert Before(FormatInfoOf(71), FormatInfoOf(72)); }
      else if i == 72 { assert Before(FormatInfoOf(72), FormatInfoOf(73)); }
      else if i == 73 { assert Before(FormatInfoOf(73), FormatInfoOf(74)); }
      else if i == 74 { assert Before(FormatInfoOf(74), FormatInfoOf(75)); }
    }
  }

  lemma FormatInfosStep75To80()
    ensures forall i: ColorFormat :: 75 <= i < 80 ==> Before(FormatInfoOf(i), FormatInfoOf(i + 1))
  {
    forall i: ColorFormat | 75 <= i < 80 ensures Before(FormatInfoOf(i), FormatInfoOf(i + 1)) {
      if i == 75 { assert Before(FormatInfoOf(75), FormatInfoOf(76)); }
      else if i == 76 { assert Before(FormatInfoOf(76), FormatInfoOf(77)); }
      else if i == 77 { assert Before(FormatInfoOf(77), FormatInfoOf(78)); }
      else if i == 78 { assert Before(FormatInfoOf(78), FormatInfoOf(79)); }
      else if i == 79 { assert Before(FormatInfoOf(79), FormatInfoOf(80)); }
    }
  }

  lemma FormatInfosStep80To85()
    ensures forall i: ColorFormat :: 80 <= i < 85 ==> Before(FormatInfoOf(i), FormatInfoOf(i + 1))
  {
    forall i: ColorFormat | 80 <= i < 85 ensures Before(FormatInfoOf(i), FormatInfoOf(i + 1)) {
      if i == 80 { assert Before(FormatInfoOf(80), FormatInfoOf(81)); }
      else if i == 81 { assert Before(FormatInfoOf(81), FormatInfoOf(82)); }
      else if i == 82 { assert Before(FormatInfoOf(82), FormatInfoOf(83)); }
      else if i == 83 { assert Before(FormatInfoOf(83), FormatInfoOf(84)); }
      else if i == 84 { assert Before(FormatInfoOf(84), FormatInfoOf(85)); }
    }
  }

  lemma FormatInfosStep85To90()
    ensures forall i: ColorFormat :: 85 <= i < 90 ==> Before(FormatInfoOf(i), FormatInfoOf(i + 1))
  {
    forall i: ColorFormat | 85 <= i < 90 ensures Before(FormatInfoOf(i), FormatInfoOf(i + 1)) {
      if i == 85 { assert Before(FormatInfoOf(85), FormatInfoOf(86)); }
      else if i == 86 { assert Before(FormatInfoOf(86), FormatInfoOf(87)); }
      else if i == 87 { assert Before(FormatInfoOf(87), FormatInfoOf(88)); }
      else if i == 88 { assert Before(FormatInfoOf(88), FormatInfoOf(89)); }
      else if i == 89 { assert Before(FormatInfoOf(89), FormatInfoOf(90)); }
    }
  }

  lemma FormatInfosStep90To92()
    ensures forall i: ColorFormat :: 90 <= i < 92 ==> Before(FormatInfoOf(i), FormatInfoOf(i + 1))
  {
    forall i: ColorFormat | 90 <= i < 92 ensures Before(FormatInfoOf(i), FormatInfoOf(i + 1)) {
      if i == 90 { assert Before(FormatInfoOf(90), FormatInfoOf(91)); }
      else if i == 91 { assert Before(FormatInfoOf(91), FormatInfoOf(92)); }
    }
  }

  /** The corrected format_infos is sorted by (base, numeric), as makeFormat's
      binary search assumes. */
  lemma FormatInfosIncreasing()
    ensures Increasing(FormatInfos())
  {
    FormatInfosStep0To5();
    FormatInfosStep5To10();
    FormatInfosStep10To15();
    FormatInfosStep15To20();
    FormatInfosStep20To25();
    FormatInfosStep25To30();
    FormatInfosStep30To35();
    FormatInfosStep35To40();
    FormatInfosStep40To45();
    FormatInfosStep45To50();
    FormatInfosStep50To55();
    FormatInfosStep55To60();
    FormatInfosStep60To65();
    FormatInfosStep65To70();
    FormatInfosStep70To75();
    FormatInfosStep75To80();
    FormatInfosStep80To85();
    FormatInfosStep85To90();
    FormatInfosStep90To92();
    StepwiseIncreasingIsIncreasing(FormatInfos());
  }

  /** makeFormat(baseFormat(f), numericFormat(f)) gives back f for every
      color format. */
  lemma MakeFormatRoundTrip(f: ColorFormat)
    ensures MakeFormat(BaseFormatOf(f), NumericFormatOf(f)) == Some(f)
  {
    FormatInfosIncreasing();
    MakeFormatInFindsEntry(FormatInfos(), f);
  }

  /** makeFormat returns none only for pairs that no format has. */
  lemma MakeFormatNoneMeansAbsent(base: BaseFormat, numeric: NumericFormat)
    requires MakeFormat(base, numeric).None?
    ensures forall f: ColorFormat :: !(BaseFormatOf(f) == base && NumericFormatOf(f) == numeric)
  {
    forall f: ColorFormat | BaseFormatOf(f) == base && NumericFormatOf(f) == numeric
      ensures false
    {
      MakeFormatRoundTrip(f);
    }
  }

  // ---- the table as written ----

  /** As written, the BC6H formats report the byte size of BC1 blocks (8)
      instead of the 16 bytes that base_unit_size gives bc6h_rgb. */
  lemma Bc6hByteSizeAsWritten()
    ensures BaseUnitSize[FormatInfosAsWritten()[Bc6hRgbUfloat].base] == 8
    ensures BaseUnitSize[Bc6hRgb] == 16
    ensures UnitByteSize(Bc6hRgbUfloat) == 16
  {
  }

  /** As written, makeFormat cannot produce either BC6H format, and
      bc6h_rgb_ufloat counts as compatible with bc1_rgb_unorm. */
  lemma Bc6hLookupAsWritten()
    ensures MakeFormatIn(FormatInfosAsWritten(), Bc6hRgb, Ufloat) == None
    ensures MakeFormatIn(FormatInfosAsWritten(), Bc6hRgb, Sfloat) == None
    ensures BaseUnitSize[FormatInfosAsWritten()[Bc6hRgbUfloat].base] == BaseUnitSize[FormatInfosAsWritten()[Bc1RgbUnorm].base]
    ensures !AreCompatible(Bc6hRgbUfloat, Bc1RgbUnorm)
  {
    Bc6hSearchAsWritten();
  }

  /** The binary search for bc6h_rgb ends on bc7_rgba_unorm. */
  lemma Bc6hSearchAsWritten()
    ensures LowerBound(FormatInfosAsWritten(), 0, 93, Bc6hRgb) == 91
    ensures FormatInfosAsWritten()[91].base != Bc6hRgb
  {
    var t := FormatInfosAsWritten();
    assert LowerBound(t, 0, 93, Bc6hRgb) == LowerBound(t, 47, 46, Bc6hRgb) by { assert t[46] == FormatInfoAsWritten(46); }
    assert LowerBound(t, 47, 46, Bc6hRgb) == LowerBound(t, 71, 22, Bc6hRgb) by { assert t[70] == FormatInfoAsWritten(70); }
    assert LowerBound(t, 71, 22, Bc6hRgb) == LowerBound(t, 83, 10, Bc6hRgb) by { assert t[82] == FormatInfoAsWritten(82); }
    assert LowerBound(t, 83, 10, Bc6hRgb) == LowerBound(t, 89, 4, Bc6hRgb) by { assert t[88] == FormatInfoAsWritten(88); }
    assert LowerBound(t, 89, 4, Bc6hRgb) == LowerBound(t, 89, 2, Bc6hRgb) by { assert t[91] == FormatInfoAsWritten(91); }
    assert LowerBound(t, 89, 2, Bc6hRgb) == LowerBound(t, 91, 0, Bc6hRgb) by { assert t[90] == FormatInfoAsWritten(90); }
    assert t[91] == FormatInfoAsWritten(91);
    hide *;
  }
}
