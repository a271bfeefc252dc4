/**
 * The Rockchip vendor plugin of the armsoc display driver: the constant
 * capability descriptor it hands to the host driver, the no-op cursor-plane
 * hook, and the custom buffer-object (GEM) creation hook, which aligns the
 * row pitch to 64 bytes and asks the kernel for a non-contiguous buffer.
 *
 * All arithmetic is C `unsigned int` arithmetic, reduced modulo 2^32 where
 * the C code would wrap around.
 */
module DrmmodeRockchip {
  import opened UnsignedArith

  /** Allocation flags understood by the Rockchip kernel GEM allocator. */
  const ROCKCHIP_BO_CONTIG: u32 := 0
  const ROCKCHIP_BO_NONCONTIG: u32 := 1

  /** Cursor image geometry, in pixels. */
  const CURSORW: int := 64
  const CURSORH: int := 64
  /** Cursor edge padding, in pixels. */
  const CURSORPAD: int := 16

  /** The row pitch of every buffer this plugin allocates is a multiple of this. */
  const PITCH_ALIGN: u32 := 64

  // ---------------------------------------------------------------------
  // Pitch alignment

  /**
   * The `ALIGN(val, align)` macro: `(val + align - 1) & ~(align - 1)`, with
   * the sum taken in `unsigned int` and the complement of `align - 1`
   * converted to `unsigned int` before the AND.
   */
  function Align(val: u32, align: u32): u32
  {
    BitAnd(Wrap32(val + align - 1), Complement32(Wrap32(align - 1)))
  }

  /**
   * For a power-of-two alignment, the bit mask form clears the low bits of
   * the (wrapped) sum `val + align - 1`.
   */
  lemma AlignClearsLowBits(val: u32, align: u32, k: nat)
    requires align == Pow2(k)
    ensures Align(val, align) == ClearLowBits(Wrap32(val + align - 1), k)
  {
    Pow2Values();
    if k >= 32 {
      Pow2Monotone(32, k);
      assert false;
    }
    Pow2Monotone(k, 32);
    var mask := Complement32(Wrap32(align - 1));
    assert mask == Pow2(32) - Pow2(k);
    BitAndHighMask(Wrap32(val + align - 1), 32, k, mask);
  }

  /**
   * `ALIGN(v, 64)` is the smallest multiple of 64 that is at least `v`,
   * as long as `v + 63` does not wrap around; when it does, the result
   * wraps to 0. Either way the result is a multiple of 64.
   */
  lemma AlignTo64(v: u32)
    ensures Align(v, PITCH_ALIGN) % 64 == 0
    ensures v + 63 < U32_LIMIT ==> v <= Align(v, PITCH_ALIGN) < v + 64
    ensures v + 63 >= U32_LIMIT ==> Align(v, PITCH_ALIGN) == 0
  {
    AlignTo64IsRoundDown(v);
    RoundUp64(v, Align(v, PITCH_ALIGN));
  }

  /** With the mask `~63`, the AND drops the remainder of the wrapped sum modulo 64. */
  lemma AlignTo64IsRoundDown(v: u32)
    ensures Align(v, PITCH_ALIGN) == Wrap32(v + 63) - Wrap32(v + 63) % 64
  {
    Pow2Values();
    AlignClearsLowBits(v, PITCH_ALIGN, 6);
    ClearLowSixBits(Wrap32(v + 63));
  }

  /** Rounding the wrapped sum `v + 63` down to a multiple of 64. */
  lemma RoundUp64(v: u32, r: int)
    requires r == Wrap32(v + 63) - Wrap32(v + 63) % 64
    ensures r % 64 == 0
    ensures v + 63 < U32_LIMIT ==> v <= r < v + 64
    ensures v + 63 >= U32_LIMIT ==> r == 0
  {
  }

  /**
   * No multiple of 64 lies between `v` and `ALIGN(v, 64)`; when the sum
   * wraps, the result 0 is below every such multiple.
   */
  lemma AlignTo64IsLeast(v: u32, m: int)
    requires m % 64 == 0 && v <= m
    ensures Align(v, PITCH_ALIGN) <= m
  {
    AlignTo64(v);
  }

  /** A value that is already a multiple of 64 is its own alignment. */
  lemma AlignTo64Exact(v: u32)
    requires v % 64 == 0
    ensures Align(v, PITCH_ALIGN) == v
  {
    AlignTo64(v);
    AlignTo64IsLeast(v, v);
  }

  /** Aligning twice is aligning once, with or without wrap-around. */
  lemma AlignTo64Idempotent(v: u32)
    ensures Align(Align(v, PITCH_ALIGN), PITCH_ALIGN) == Align(v, PITCH_ALIGN)
  {
    AlignTo64(v);
    AlignTo64Exact(Align(v, PITCH_ALIGN));
  }

  // ---------------------------------------------------------------------
  // Pitch and size of a requested buffer

  /**
   * Bytes per pixel, `(bpp + 7) / 8` in `unsigned int`: ceil(bpp / 8)
   * unless `bpp + 7` wraps around, in which case it is 0.
   */
  function BytesPerPixel(bpp: u32): (r: u32)
    ensures bpp + 7 < U32_LIMIT ==> 8 * r - 8 < bpp <= 8 * r
    ensures bpp + 7 >= U32_LIMIT ==> r == 0
  {
    Wrap32(bpp + 7) / 8
  }

  /** The unaligned row size `width * bytes_per_pixel`, in `unsigned int`. */
  function RowBytes(width: u32, bpp: u32): u32
  {
    Wrap32(width * BytesPerPixel(bpp))
  }

  /** The row pitch `ALIGN(width * ((bpp + 7) / 8), 64)`. */
  function Pitch(width: u32, bpp: u32): (pitch: u32)
    ensures pitch % 64 == 0
  {
    AlignTo64(RowBytes(width, bpp));
    Align(RowBytes(width, bpp), PITCH_ALIGN)
  }

  /**
   * The exact row size in bytes, width times ceil(bpp / 8), computed
   * without any wrap-around.
   */
  function ExactRowBytes(width: nat, bpp: nat): nat
  {
    width * ((bpp + 7) / 8)
  }

  /** None of the 32-bit computations of the pitch wraps around. */
  predicate PitchFits(width: u32, bpp: u32)
  {
    bpp + 7 < U32_LIMIT && ExactRowBytes(width, bpp) + 63 < U32_LIMIT
  }

  /**
   * When nothing wraps, the pitch is a multiple of 64 in
   * [row size, row size + 64), it equals the row size when that is already
   * a multiple of 64, and no smaller multiple of 64 holds a row.
   */
  lemma PitchIsLeastAlignedRow(width: u32, bpp: u32, m: int)
    requires PitchFits(width, bpp)
    requires m % 64 == 0 && ExactRowBytes(width, bpp) <= m
    ensures ExactRowBytes(width, bpp) <= Pitch(width, bpp) < ExactRowBytes(width, bpp) + 64
    ensures ExactRowBytes(width, bpp) % 64 == 0 ==> Pitch(width, bpp) == ExactRowBytes(width, bpp)
    ensures Pitch(width, bpp) <= m
  {
    var raw := RowBytes(width, bpp);
    assert raw == ExactRowBytes(width, bpp);
    AlignTo64(raw);
    AlignTo64IsLeast(raw, m);
    if raw % 64 == 0 {
      AlignTo64Exact(raw);
    }
  }

  /**
   * The requested size `height * pitch`: computed in `unsigned int` and
   * then stored in the 64-bit request field. It is the 32-bit product: below
   * 2^32, and equal to the true product whenever that product fits.
   */
  function RequestSize(height: u32, pitch: u32): (size: u64)
    ensures size < U32_LIMIT
    ensures height * pitch < U32_LIMIT ==> size == height * pitch
    ensures (height * pitch - size) % U32_LIMIT == 0
  {
    Wrap32(height * pitch)
  }

  // ---------------------------------------------------------------------
  // The kernel request and the creation hook

  /** `struct drm_rockchip_gem_create`: size in, flags in, handle out. */
  datatype GemCreateRequest = GemCreateRequest(size: u64, flags: u32, handle: u32)

  /** What the kernel's GEM-create ioctl reports: a status and the new handle. */
  datatype IoctlReply = IoctlReply(status: int, handle: u32)

  /** The request as the creation hook sends it to the kernel. */
  function RequestFor(width: u32, height: u32, bpp: u32): (req: GemCreateRequest)
    ensures req.flags == ROCKCHIP_BO_NONCONTIG && req.flags != ROCKCHIP_BO_CONTIG
    ensures req.handle == 0
    ensures req.size == RequestSize(height, Pitch(width, bpp))
  {
    GemCreateRequest(RequestSize(height, Pitch(width, bpp)), ROCKCHIP_BO_NONCONTIG, 0)
  }

  /** Usage category of a buffer; codes other than the two known ones are caller bugs. */
  datatype BufType = Scanout | NonScanout | UnknownBufType(code: int)

  /**
   * The host driver's `struct armsoc_create_gem`, restricted to the fields
   * this plugin reads (usage, geometry) and writes (handle, pitch, size).
   */
  class CreateGem {
    var bufType: BufType
    var height: u32
    var width: u32
    var bpp: u32
    var handle: u32
    var pitch: u32
    var size: u64

    constructor (bufType: BufType, width: u32, height: u32, bpp: u32)
      ensures this.bufType == bufType && this.width == width
      ensures this.height == height && this.bpp == bpp
      ensures handle == 0 && pitch == 0 && size == 0
    {
      this.bufType, this.width, this.height, this.bpp := bufType, width, height, bpp;
      handle, pitch, size := 0, 0, 0;
    }
  }

  /**
   * `create_custom_gem`: build the request, make one kernel call (supplied
   * as `drmIoctl`), and on success copy handle, pitch and size back into
   * `createGem`. A non-zero kernel status is returned unchanged and leaves
   * `createGem` untouched.
   */
  method CreateCustomGem(fd: int, createGem: CreateGem, drmIoctl: (int, GemCreateRequest) -> IoctlReply)
    returns (ret: int)
    requires createGem.bufType == Scanout || createGem.bufType == NonScanout
    modifies createGem
    ensures var req := RequestFor(old(createGem.width), old(createGem.height), old(createGem.bpp));
            var reply := drmIoctl(fd, req);
            && (reply.status != 0 ==> ret == reply.status && unchanged(createGem))
            && (reply.status == 0 ==>
                  && ret == 0
                  && createGem.handle == reply.handle
                  && createGem.pitch == Pitch(old(createGem.width), old(createGem.bpp))
                  && createGem.size == req.size)
    ensures createGem.bufType == old(createGem.bufType)
    ensures createGem.width == old(createGem.width) && createGem.height == old(createGem.height)
    ensures createGem.bpp == old(createGem.bpp)
  {
    var pitch := Pitch(createGem.width, createGem.bpp);
    var req := GemCreateRequest(0, 0, 0);
    req := req.(size := RequestSize(createGem.height, pitch));
    req := req.(flags := ROCKCHIP_BO_NONCONTIG);

    var reply := drmIoctl(fd, req);
    req := req.(handle := reply.handle);
    if reply.status != 0 {
      return reply.status;
    }

    createGem.handle := req.handle;
    createGem.pitch := pitch;
    createGem.size := req.size;
    return 0;
  }

  /** Width 37 at 32 bits per pixel needs 148 bytes a row: pitch 192, and 1920 bytes for 10 rows. */
  lemma CreateRequestExample(width: u32, height: u32, bpp: u32)
    requires width == 37 && height == 10 && bpp == 32
    ensures Pitch(width, bpp) == 192
    ensures RequestFor(width, height, bpp) == GemCreateRequest(1920, ROCKCHIP_BO_NONCONTIG, 0)
  {
    assert BytesPerPixel(bpp) == 4;
    assert RowBytes(width, bpp) == 148 == ExactRowBytes(width, bpp);
    PitchIsLeastAlignedRow(width, bpp, 192);
    var pitch := Pitch(width, bpp);
    OnlyMultipleOf64Above128(pitch);
    assert RequestSize(height, pitch) == 1920;
  }

  lemma OnlyMultipleOf64Above128(r: int)
    requires r % 64 == 0 && 128 < r <= 192
    ensures r == 192
  {
  }

  // ---------------------------------------------------------------------
  // Cursor hook and capability descriptor

  /** `init_plane_for_cursor`: nothing to prepare; always reports success. */
  function InitPlaneForCursor(drmFd: int, planeId: u32): (status: int)
    ensures status == 0
  {
    0
  }

  /** How the host driver drives the cursor; only the plane strategy is used here. */
  datatype CursorApi = HwCursorApiPlane | OtherCursorApi(code: int)

  /** The optional hooks, each either absent or this plugin's own function. */
  datatype PlaneHook = NoPlaneHook | RockchipInitPlaneForCursor
  datatype GemHook = NoGemHook | RockchipCreateCustomGem

  /** `struct drmmode_interface`, field by field in declaration order. */
  datatype DrmmodeInterface = DrmmodeInterface(
    driverName: string,
    usePageFlipEvents: bool,
    useEarlyDisplay: bool,
    cursorWidth: int,
    cursorHeight: int,
    cursorPadding: int,
    cursorApi: CursorApi,
    initPlaneForCursor: PlaneHook,
    vblankQuerySupported: bool,
    createCustomGem: GemHook)

  /** `rockchip_interface`: the descriptor this plugin exposes. */
  function RockchipInterface(): (d: DrmmodeInterface)
    ensures d.driverName == "rockchip"
    ensures d.usePageFlipEvents && d.useEarlyDisplay && !d.vblankQuerySupported
    ensures d.cursorWidth == 64 && d.cursorHeight == 64 && d.cursorPadding == 16
    ensures d.cursorApi == HwCursorApiPlane
    ensures d.initPlaneForCursor == RockchipInitPlaneForCursor
    ensures d.createCustomGem == RockchipCreateCustomGem
  {
    DrmmodeInterface("rockchip", true, true, CURSORW, CURSORH, CURSORPAD,
                     HwCursorApiPlane, RockchipInitPlaneForCursor, false,
                     RockchipCreateCustomGem)
  }
}
