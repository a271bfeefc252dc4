# Rockchip plugin of the armsoc display driver, in Dafny

This project models the Rockchip vendor plugin of the armsoc X.Org video
driver (`src/drmmode_rockchip/drmmode_rockchip.c`). The plugin gives the
host driver three things:

- a constant capability descriptor, `rockchip_interface`: driver name,
  feature flags, cursor geometry, the cursor strategy, and two optional
  hooks;
- a cursor-plane hook, `init_plane_for_cursor`, that does nothing and
  reports success;
- a buffer-creation hook, `create_custom_gem`. It computes a row pitch
  aligned to 64 bytes and a total size of `height * pitch`. It asks the
  kernel for a non-contiguous GEM buffer (a kernel graphics buffer
  object) of that size. On success it copies the handle, pitch and size
  back into the caller's record.

Files:

- `unsigned_arith.dfy` (module `UnsignedArith`) writes out C unsigned
  arithmetic. `u32` and `u64` are the C value ranges. `Wrap32` is the
  reduction modulo 2^32 that `unsigned int` applies. `Complement32` is `~`.
  `BitAnd` is `&`, defined one bit at a time on naturals. The lemmas show
  what ANDing with a high-bit mask does.
- `drmmode_rockchip.dfy` (module `DrmmodeRockchip`) models the plugin
  itself:
  - the `ALIGN` macro and the facts proved about `ALIGN(v, 64)`;
  - bytes per pixel, pitch and request size;
  - the kernel request record;
  - the `CreateGem` class, which stands for the caller's
    `struct armsoc_create_gem` that the hook updates in place;
  - the `CreateCustomGem` method;
  - the cursor hook and the descriptor.

The kernel call `drmIoctl` becomes a parameter of `CreateCustomGem`. It is
a function from the file descriptor and the request to a reply carrying a
status and a handle. The method's contract therefore says exactly which
request the kernel is given.

C arithmetic is modelled with its wrap-around. The fields `width`,
`height`, `bpp` and `pitch` are taken to be 32-bit unsigned. So
`(bpp + 7)`, `width * bpp_bytes`, the `ALIGN` sum and `height * pitch` are
each reduced modulo 2^32. The 32-bit product `height * pitch` is then
stored in the 64-bit `size` field of the request. Every property whose
statement assumes no wrap-around says so in its own contract (`PitchFits`, or an
explicit bound). Where wrap-around does happen, the contracts also say
what results:

- `bpp + 7` wrapping gives 0 bytes per pixel;
- an `ALIGN` sum that wraps gives pitch 0;
- the size is the product reduced modulo 2^32, a value below 2^32.

## Model

| member | source | states |
|---|---|---|
| `UnsignedArith.BitAnd` | src/drmmode_rockchip/drmmode_rockchip.c:50 | the bitwise AND of the `ALIGN` macro; the result is no larger than either operand |
| `UnsignedArith.BitAndHighMask` | src/drmmode_rockchip/drmmode_rockchip.c:50 | ANDing an n-bit value with a mask whose bits k..n-1 are set keeps exactly those bits of the value and clears bits 0..k-1 |
| `UnsignedArith.ClearLowSixBits` | src/drmmode_rockchip/drmmode_rockchip.c:50 | clearing the low six bits of a value subtracts its remainder modulo 64 |
| `DrmmodeRockchip.AlignClearsLowBits` | src/drmmode_rockchip/drmmode_rockchip.c:50 | for a power-of-two alignment 2^k, `(val + align - 1) & ~(align - 1)` in `unsigned int` is the wrapped sum with its low k bits cleared |
| `DrmmodeRockchip.AlignTo64` | src/drmmode_rockchip/drmmode_rockchip.c:50 | `ALIGN(v, 64)` is always a multiple of 64; if `v + 63` fits in 32 bits it lies in [v, v + 64); if the sum wraps it is 0 |
| `DrmmodeRockchip.AlignTo64IsLeast` | src/drmmode_rockchip/drmmode_rockchip.c:50 | `ALIGN(v, 64)` is at most every multiple of 64 that is at least v, for every 32-bit v (when the sum wraps the result is 0); with `AlignTo64` it is the least such multiple |
| `DrmmodeRockchip.AlignTo64Exact` | src/drmmode_rockchip/drmmode_rockchip.c:50 | a value that is already a multiple of 64 is left unchanged by `ALIGN(v, 64)` |
| `DrmmodeRockchip.AlignTo64Idempotent` | src/drmmode_rockchip/drmmode_rockchip.c:50 | `ALIGN(ALIGN(v, 64), 64) == ALIGN(v, 64)` for every 32-bit v, including the values where the sum wraps |
| `DrmmodeRockchip.BytesPerPixel` | src/drmmode_rockchip/drmmode_rockchip.c:64 | `(bpp + 7) / 8` is ceil(bpp / 8), i.e. 8r - 8 < bpp <= 8r, when `bpp + 7` fits in 32 bits, and 0 when it wraps |
| `DrmmodeRockchip.Pitch` | src/drmmode_rockchip/drmmode_rockchip.c:63-64 | the computed pitch is a multiple of 64 for every width and bpp |
| `DrmmodeRockchip.PitchIsLeastAlignedRow` | src/drmmode_rockchip/drmmode_rockchip.c:63-64 | without wrap-around the pitch lies in [raw, raw + 64), where raw is width * ceil(bpp / 8); it equals raw when raw is a multiple of 64, and it is at most every multiple of 64 that holds a row |
| `DrmmodeRockchip.RequestSize` | src/drmmode_rockchip/drmmode_rockchip.c:66 | the requested size is the 32-bit product: it is below 2^32, equals height * pitch when that fits in 32 bits, and is congruent to it modulo 2^32 otherwise |
| `DrmmodeRockchip.RequestFor` | src/drmmode_rockchip/drmmode_rockchip.c:65-75 | the request sent to the kernel starts zeroed, has size `RequestSize(height, pitch)`, has a zero handle, and has flags `ROCKCHIP_BO_NONCONTIG` (1), never `ROCKCHIP_BO_CONTIG` (0), whatever the input |
| `DrmmodeRockchip.CreateCustomGem` | src/drmmode_rockchip/drmmode_rockchip.c:57-87 | requires a scanout or non-scanout buffer type. The kernel is given exactly `RequestFor(width, height, bpp)`. A non-zero kernel status is returned verbatim and leaves the record unchanged. A zero status returns 0 and sets handle to the kernel's handle, pitch to `Pitch(width, bpp)` and size to the request size. Width, height, bpp and buffer type never change |
| `DrmmodeRockchip.CreateRequestExample` | src/drmmode_rockchip/drmmode_rockchip.c:63-75 | width 37, bpp 32, height 10 give pitch 192 and a request of size 1920 with the non-contiguous flag |
| `DrmmodeRockchip.InitPlaneForCursor` | src/drmmode_rockchip/drmmode_rockchip.c:53-55 | the cursor-plane hook reports success (0) for every device and plane, and as a pure function it has no side effect |
| `DrmmodeRockchip.RockchipInterface` | src/drmmode_rockchip/drmmode_rockchip.c:89-100 | the descriptor's values: name "rockchip", page-flip events and early display on, vblank query off, cursor 64 x 64 with padding 16, the plane cursor strategy, and both hooks installed |

## Left out

- The real `drmIoctl` system call is left out. So is the
  `DRM_IOWR(DRM_COMMAND_BASE + DRM_ROCKCHIP_GEM_CREATE, ...)` command code,
  whose macros are in headers that are not part of this model. The kernel
  call is a function parameter that maps the file descriptor and the
  request to a status and a handle. `errno` is not modelled.
- `../drmmode_driver.h` is not part of this model. This affects several
  things:
  - `struct armsoc_create_gem` is reduced to the seven fields this file
    reads or writes. Their widths are assumed: width, height, bpp and
    pitch are 32-bit unsigned, and size is 64-bit.
  - The numeric values of `ARMSOC_BO_SCANOUT`, `ARMSOC_BO_NON_SCANOUT` and
    `HWCURSOR_API_PLANE` are not modelled. They appear as datatype
    constructors, with one extra constructor for any other code.
  - The layout of `struct drmmode_interface` is not modelled. The
    descriptor is a datatype with the fields in the order they are
    initialised.
- The `assert` on the buffer type is modelled as a precondition of
  `CreateCustomGem`. Its run-time abort is not modelled.
- `memset` of the request is modelled as building the all-zero record.
- The function-pointer fields of the descriptor are modelled as tags that
  name which of this plugin's functions is installed. Calling through them
  is the host driver's business and is not modelled.
- The `ALIGN` macro is defined for every alignment. Its properties are
  proved for power-of-two alignments (`AlignClearsLowBits`) and in detail
  for 64, the only alignment this file uses.
- The hook returns any non-zero `drmIoctl` status unchanged, and the model
  does the same; it does not assume the status is negative.
- The kernel is assumed to write back only `handle` into the read-write
  request. `size` and `flags` are taken to be the values sent, so the size
  copied back to the caller is the size the hook requested.
