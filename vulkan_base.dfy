// Enumerations and bit-packed identifiers of include/fwk/vulkan_base.h.
// Enumerations are modelled by their ordinals, which is how the header
// compares and packs them.
module VulkanBase {
  // ---- VBaseFormat, VNumericFormat, VColorFormat ----

  type BaseFormat = b: nat | b < 27
  const R8: BaseFormat := 0
  const Rg8: BaseFormat := 1
  const Rgb8: BaseFormat := 2
  const Bgr8: BaseFormat := 3
  const Rgba8: BaseFormat := 4
  const Bgra8: BaseFormat := 5
  const Abgr8: BaseFormat := 6
  const A2rgb10: BaseFormat := 7
  const A2bgr10: BaseFormat := 8
  const R16: BaseFormat := 9
  const Rg16: BaseFormat := 10
  const Rgb16: BaseFormat := 11
  const Rgba16: BaseFormat := 12
  const R32: BaseFormat := 13
  const Rg32: BaseFormat := 14
  const Rgb32: BaseFormat := 15
  const Rgba32: BaseFormat := 16
  const B10g11r11Ufloat: BaseFormat := 17
  const E5r9g9b9Ufloat: BaseFormat := 18
  const Bc1Rgb: BaseFormat := 19
  const Bc1Rgba: BaseFormat := 20
  const Bc2Rgba: BaseFormat := 21
  const Bc3Rgba: BaseFormat := 22
  const Bc4R: BaseFormat := 23
  const Bc5Rg: BaseFormat := 24
  const Bc6hRgb: BaseFormat := 25
  const Bc7Rgba: BaseFormat := 26

  type NumericFormat = n: nat | n < 7
  const Unorm: NumericFormat := 0
  const Snorm: NumericFormat := 1
  const Uint: NumericFormat := 2
  const Sint: NumericFormat := 3
  const Ufloat: NumericFormat := 4
  const Sfloat: NumericFormat := 5
  const Srgb: NumericFormat := 6

  /** VColorFormat: 93 formats, from r8_unorm (0) to bc7_rgba_srgb (92). */
  type ColorFormat = f: nat | f < 93
  const R8Unorm: ColorFormat := 0
  const Rgba8Unorm: ColorFormat := 20
  const R32Uint: ColorFormat := 63
  const Bc1RgbUnorm: ColorFormat := 77
  const Bc1RgbSrgb: ColorFormat := 78
  const Bc6hRgbUfloat: ColorFormat := 89
  const Bc6hRgbSfloat: ColorFormat := 90
  const Bc7RgbaSrgb: ColorFormat := 92

  /** isBlock(VBaseFormat): the BCn block-compressed base formats. */
  predicate IsBlockBase(b: BaseFormat) { Bc1Rgb <= b <= Bc7Rgba }

  /** unitSize(VBaseFormat): 4x4 blocks for block formats, single pixels otherwise. */
  function UnitSizeOfBase(b: BaseFormat): nat
  {
    if IsBlockBase(b) then 4 else 1
  }

  /** isBlock(VColorFormat). */
  predicate IsBlock(f: ColorFormat) { Bc1RgbUnorm <= f <= Bc7RgbaSrgb }

  /** unitSize(VColorFormat). */
  function UnitSize(f: ColorFormat): (r: nat)
    ensures r == 1 || r == 4
    ensures r == 4 <==> IsBlock(f)
  {
    if IsBlock(f) then 4 else 1
  }

  // ---- VDepthStencilFormat ----

  /** d16, d24_x8, d32f, s8, d16_s8, d24_s8, d32f_s8. */
  type DepthStencilFormat = f: nat | f < 7
  const D16: DepthStencilFormat := 0
  const D24X8: DepthStencilFormat := 1
  const D32f: DepthStencilFormat := 2
  const S8: DepthStencilFormat := 3
  const D16S8: DepthStencilFormat := 4
  const D24S8: DepthStencilFormat := 5
  const D32fS8: DepthStencilFormat := 6

  predicate HasStencil(f: DepthStencilFormat) { f >= S8 }
  predicate HasDepth(f: DepthStencilFormat) { f != S8 }

  /** depthBits: 0 for s8, otherwise (ordinal & 3) * 8 + 16. */
  function DepthBits(f: DepthStencilFormat): (r: nat)
    ensures r == 0 || r == 16 || r == 24 || r == 32
  {
    if f == S8 then 0 else (f % 4) * 8 + 16
  }

  function StencilBits(f: DepthStencilFormat): (r: nat)
    ensures r == 0 || r == 8
  {
    if HasStencil(f) then 8 else 0
  }

  /** depthNumericFormat: 32-bit depth is floating point, smaller depths are unorm. */
  function DepthNumericFormat(f: DepthStencilFormat): (r: NumericFormat)
    ensures r == Sfloat || r == Unorm
  {
    if DepthBits(f) == 32 then Sfloat else Unorm
  }

  /** The (depth bits, stencil bits) that each format's name announces. */
  function NamedBits(f: DepthStencilFormat): (int, int)
  {
    match f
    case 0 => (16, 0)
    case 1 => (24, 0)
    case 2 => (32, 0)
    case 3 => (0, 8)
    case 4 => (16, 8)
    case 5 => (24, 8)
    case 6 => (32, 8)
  }

  /** The bit tricks of depthBits and hasStencil agree with the format names. */
  lemma DepthStencilBitsMatchNames(f: DepthStencilFormat)
    ensures DepthBits(f) == NamedBits(f).0
    ensures StencilBits(f) == NamedBits(f).1
    ensures HasDepth(f) <==> NamedBits(f).0 > 0
    ensures DepthNumericFormat(f) == Sfloat <==> (f == D32f || f == D32fS8)
  {
  }

  /** VImageLayout ordinals used by defaultLayout. */
  const DepthStencilAtt: nat := 3
  const DepthAtt: nat := 11
  const StencilAtt: nat := 13

  /** defaultLayout(VDepthStencilFormat). */
  function DefaultLayout(f: DepthStencilFormat): (r: nat)
    ensures r == StencilAtt <==> !HasDepth(f)
    ensures r == DepthStencilAtt <==> HasDepth(f) && HasStencil(f)
    ensures r == DepthAtt <==> HasDepth(f) && !HasStencil(f)
  {
    if HasDepth(f) then (if HasStencil(f) then DepthStencilAtt else DepthAtt) else StencilAtt
  }

  // ---- VMemoryBlockId: a 64-bit word ----

  /** VMemoryBlockType: slab, unmanaged, frame, invalid. */
  type MemoryBlockType = t: bv64 | t < 4
  const Slab: MemoryBlockType := 0
  const Unmanaged: MemoryBlockType := 1
  const Frame: MemoryBlockType := 2
  const InvalidBlock: MemoryBlockType := 3

  /** VMemoryDomain: device, host, temporary. */
  type MemoryDomain = d: bv64 | d < 3

  datatype MemoryBlockId = MemoryBlockId(encoded: bv64)
  {
    function ZoneId(): bv16 { (encoded >> 48) as bv16 }
    function BlockIdentifier(): bv32 { (encoded & 0xffff_ffff) as bv32 }
    function Domain(): bv64 { (encoded >> 40) & 0xff }
    function Type(): bv64 { (encoded >> 32) & 0xff }
    predicate Valid() { Type() != InvalidBlock }
    predicate RequiresFree() { Type() == Slab || Type() == Unmanaged }
  }

  /** The VMemoryBlockId(type, domain, zone_id, block_identifier) constructor. */
  function MakeMemoryBlockId(t: MemoryBlockType, domain: MemoryDomain, zoneId: bv16, block: bv32): (r: MemoryBlockId)
    ensures r.Type() == t && r.Domain() == domain
    ensures r.ZoneId() == zoneId && r.BlockIdentifier() == block
    ensures r.Valid() <==> t != InvalidBlock
    ensures r.RequiresFree() <==> (t == Slab || t == Unmanaged)
  {
    MemoryBlockId((block as bv64) | (t << 32) | (domain << 40) | ((zoneId as bv64) << 48))
  }

  /** The default VMemoryBlockId is not valid. */
  function DefaultMemoryBlockId(): (r: MemoryBlockId)
    ensures !r.Valid() && !r.RequiresFree()
  {
    MakeMemoryBlockId(InvalidBlock, 0, 0, 0)
  }

  // ---- VAttachmentSync: a 16-bit word ----

  datatype AttachmentSync = AttachmentSync(encoded: bv16)
  {
    function LoadOp(): bv16 { encoded & 3 }
    function StoreOp(): bv16 { (encoded >> 2) & 3 }
    function StencilLoadOp(): bv16 { (encoded >> 4) & 3 }
    function StencilStoreOp(): bv16 { (encoded >> 6) & 3 }
    function InitialLayout(): bv16 { (encoded >> 8) & 15 }
    function FinalLayout(): bv16 { (encoded >> 12) & 15 }
  }

  /** The six bit slices read by the accessors tile the whole 16-bit word:
      two syncs that decode alike are the same sync. */
  lemma AttachmentSyncDeterminedByFields(a: AttachmentSync, b: AttachmentSync)
    requires a.LoadOp() == b.LoadOp() && a.StoreOp() == b.StoreOp()
    requires a.StencilLoadOp() == b.StencilLoadOp() && a.StencilStoreOp() == b.StencilStoreOp()
    requires a.InitialLayout() == b.InitialLayout() && a.FinalLayout() == b.FinalLayout()
    ensures a == b
  {
  }

  // ---- VAttachment: a 32-bit word ----

  /** VAttachmentType: color, depth, depth_stencil. */
  const ColorAttachment: bv32 := 0

  datatype Attachment = Attachment(encoded: bv32)
  {
    function Type(): bv32 { (encoded >> 8) & 3 }
    /** colorFormat(): only defined for color attachments. */
    function ColorFormatBits(): bv32 requires Type() == ColorAttachment { encoded & 255 }
    /** depthStencilFormat(): only defined for depth attachments. */
    function DepthStencilFormatBits(): bv32 requires Type() != ColorAttachment { encoded & 255 }
    function NumSamples(): bv32 { (encoded >> 10) & 63 }
    function Sync(): AttachmentSync { AttachmentSync((encoded >> 16) as bv16) }
  }

  /** Format, type, sample count and sync together determine an attachment. */
  lemma AttachmentDeterminedByFields(a: Attachment, b: Attachment)
    requires a.Type() == b.Type() && a.encoded & 255 == b.encoded & 255
    requires a.NumSamples() == b.NumSamples() && a.Sync() == b.Sync()
    ensures a == b
  {
  }
}
