# rb_sdl2 surfaces and power info in Dafny

This project models the Ruby-side logic of `RbSDL2::Surface` and `RbSDL2::PowerInfo`, the
wrappers rb_sdl2 puts around SDL2's `SDL_Surface` and `SDL_GetPowerInfo`.

- `wrappers.dfy` (`Wrappers`): `Option` for Ruby's `nil`, `Result` for a value or a raised
  exception, and the exception classes (`RbSDL2Error`, `ArgumentError`, `TypeError`, the
  "out of bounds" `RuntimeError`).
- `sdl.dfy` (`Sdl`): the native `SDL_Surface` record as a class `NativeSurface`: flags word,
  reference count, `w`, `h`, `pitch`, format (with its bytes per pixel), pixel bytes, clip
  rectangle, lock counter and a `freed` flag. The SDL routines the wrapper depends on are
  methods on it: `SDL_LockSurface` and `SDL_UnlockSurface` move the lock counter;
  `SDL_FreeSurface` ignores a `SDL_DONTFREE` surface and otherwise drops a reference and frees
  at zero; `SDL_FillRect` has an opaque effect on the pixels and returns a status. The Ruby
  helper `dec_ref` (from `ref_count_pointer.rb`) is a method on it too and drops a reference.
  A ghost trace `calls` records, in order, the SDL calls made on a surface, the `dec_ref`
  calls, the pixel memory reads, and the end of each `synchronize` block.
- `pixels.dfy` (`Pixels`): pixel addressing (`pitch * y + bytes_per_pixel * x`), the unsigned
  little-endian read, and `PixelValue`, the value or exception of `Surface#pixel` as written.
  It also holds the corrected read `PixelValueIntended` (see Findings).
- `surface_pointer.dfy` (`SurfacePointer`): the `dontfree?` test and the `release` policy. It
  also gives what `k` releases by aliasing wrappers do to one surface.
- `surfaces.dfy` (`Surfaces`): the `Surface` class. It has the three null-checking
  constructors, the memoised `pixel_format`, `synchronize`, `pixel`, `pixel_color`, `fill`,
  `clear`, the geometry readers and `==`. It also models `color_key` as written and as
  intended.
- `power_info.dfy` (`Power`): the `PowerInfo` class with `update`, the two `nil`-if-negative
  accessors and the seven state predicates.

Native calls are parameters. A constructor receives the pointer the native routine
returned, which may be null. An operation receives the status code its native call returned.
`PowerInfo` receives the `SDL_GetPowerInfo` reading. `pixel_color` receives the pixel
format's unpack routine as a function.

The comment `# for little endian` at lib/rb_sdl2/surface.rb:213 says the 3-byte case is
meant to read the pixel's bytes from a little-endian word, but the code masks with
`0x1000000`, which keeps bit 24 only. `Surface.Pixel` returns `PixelValue`, which applies the
mask as written; the corrected read is under Findings.

## Model

| member | source | states |
|---|---|---|
| `SurfacePointer.Release` | lib/rb_sdl2/surface.rb:11-22 | On a null pointer nothing changes. Otherwise the ownership record becomes `ReleaseOnce` of the old one. The one call recorded is the Ruby helper `dec_ref` when `SDL_DONTFREE` is set and `SDL_FreeSurface` otherwise. Lock counter, pixels and clip are unchanged |
| `SurfacePointer.IsDontFree` | lib/rb_sdl2/surface.rb:7 | `dontfree?`: the first 32-bit word of the record, its flags, has the `SDL_DONTFREE` bit set. Its use is stated by `Release` and `ReleaseOnce` |
| `SurfacePointer.ReleaseOnce` | lib/rb_sdl2/surface.rb:11-22 | One release always lowers the reference count by exactly one and keeps the flags. It never frees a `SDL_DONTFREE` surface. It frees any other surface exactly when this was its last reference |
| `SurfacePointer.FreeSurfaceKeepsDontFreeCount` | lib/rb_sdl2/surface.rb:13-17 | `SDL_FreeSurface` alone leaves a `SDL_DONTFREE` surface's count untouched, while `release` lowers it by one. This is why `release` branches on the flag |
| `SurfacePointer.ReleaseTimes` | lib/rb_sdl2/surface.rb:11-22 | `k` releases of a surface holding at least `k` references lower the count by exactly `k`. The surface is freed iff `k` equals the count, `k > 0` and `SDL_DONTFREE` is clear |
| `SurfacePointer.AliasedReleases` | lib/rb_sdl2/surface.rb:11-22 | With N aliasing wrappers, no release before the last one frees. The N-th release frees an owned surface and never a `SDL_DONTFREE` one, leaving the count at zero |
| `Sdl.NativeSurface.constructor` | lib/rb_sdl2/surface.rb:71 | A surface as `SDL_CreateRGBSurfaceWithFormat` hands it back: well-formed, one reference, unlocked, clipped to the whole surface, with the given geometry, flags and pixels |
| `Sdl.NativeSurface.FreeSurface` | lib/rb_sdl2/surface.rb:14-19 | `SDL_FreeSurface` as the comment describes it: it does nothing to a `SDL_DONTFREE` surface. Otherwise it drops one reference and frees when none is left |
| `Sdl.NativeSurface.DecRef` | lib/rb_sdl2/surface.rb:17 | `dec_ref` lowers the reference count by one and never frees |
| `Sdl.NativeSurface.Lock` | lib/rb_sdl2/surface.rb:268 | `SDL_LockSurface` adds one to the lock counter |
| `Sdl.NativeSurface.Unlock` | lib/rb_sdl2/surface.rb:271 | `SDL_UnlockSurface` takes one from a positive lock counter and leaves zero at zero |
| `Sdl.NativeSurface.Read` | lib/rb_sdl2/surface.rb:209-214 | The `read_uint*` calls: an unsigned little-endian read of `count` bytes at `offset`, recorded in the trace |
| `Sdl.NativeSurface.FillRect` | lib/rb_sdl2/surface.rb:189 | `SDL_FillRect` returns its status and records the rectangle and colour. It may change the pixels but keeps their size |
| `Pixels.LittleEndian` | lib/rb_sdl2/surface.rb:210-214 | An `n`-byte read is below `256^n`, so `read_uint8` is below 2^8, `read_uint16` below 2^16 and `read_uint32` below 2^32 |
| `Pixels.PixelWithinBytesize` | lib/rb_sdl2/surface.rb:209 | When a row of pixels fits in one pitch, every in-bounds pixel, read `bytes_per_pixel` bytes wide at `pitch*y + bpp*x`, lies within the `pitch * h` bytes of `bytesize` |
| `Pixels.PixelValue` | lib/rb_sdl2/surface.rb:203-219 | `ArgumentError` exactly when `x` or `y` is out of range. Otherwise `TypeError` exactly when bytes per pixel is not 1 to 4. Results: bpp 1 below 2^8, bpp 2 below 2^16, bpp 4 below 2^32, each the little-endian value of the bytes at `pitch*y + bpp*x`; bpp 3 gives 0 or 0x1000000 |
| `Pixels.MaskWord` | lib/rb_sdl2/surface.rb:213 | `word & 0x1000000` is either 0 or 0x1000000 |
| `Pixels.MaskWordIsBitwiseAnd` | lib/rb_sdl2/surface.rb:213 | For every 32-bit word, `MaskWord`'s arithmetic form equals the bitwise AND `word & 0x1000000` the code writes |
| `Pixels.MaskedValueIsNextByteBit` | lib/rb_sdl2/surface.rb:213 | As written, a 3-byte pixel reads as 0x1000000 or 0 according to bit 0 of the byte after the pixel. The pixel's own three bytes do not affect the result |
| `Pixels.MaskKeepsOnlyBit24` | lib/rb_sdl2/surface.rb:213 | Pixel bytes 12 34 56 followed by 00 read as 0 under the mask as written. Their low three bytes are 0x563412 |
| `Pixels.WordReadOverrunsLastPixel` | lib/rb_sdl2/surface.rb:213 | Take a well-formed 3-byte surface 4 pixels wide, with a 12-byte pitch. The 32-bit read of pixel (3, 0) needs byte 12, past the memory. A 3-byte read stays inside |
| `Pixels.PixelValueIntended` | lib/rb_sdl2/surface.rb:203-219 | The corrected read needs no extra precondition. It has the same error cases and reads exactly `bytes_per_pixel` bytes inside the memory, so its value is below `256^bpp` |
| `Pixels.IntendedIsLowThreeBytes` | lib/rb_sdl2/surface.rb:213 | Where the 32-bit read fits, the corrected 3-byte value is that word modulo 2^24, that is `word & 0xFFFFFF` |
| `Surfaces.Surface.constructor` | lib/rb_sdl2/surface.rb:87-89 | `initialize(ptr)` wraps the pointer, with no pixel format built yet |
| `Surfaces.Surface.Wrap` | lib/rb_sdl2/surface.rb:72-73 | The shared null check: it raises `RbSDL2Error` exactly when the pointer is null. Otherwise it returns a new surface wrapping that pointer |
| `Surfaces.Surface.New` | lib/rb_sdl2/surface.rb:69-74 | `Surface.new` raises `RbSDL2Error` exactly when `SDL_CreateRGBSurfaceWithFormat` returned null. Otherwise it returns a new surface wrapping that pointer |
| `Surfaces.Surface.Convert` | lib/rb_sdl2/surface.rb:37-44 | `Surface.convert` raises `RbSDL2Error` exactly when `SDL_ConvertSurfaceFormat` returned null. Otherwise it returns a new surface wrapping that pointer |
| `Surfaces.Surface.Load` | lib/rb_sdl2/surface.rb:56-62 | `Surface.load` raises `RbSDL2Error` exactly when `SDL_LoadBMP_RW` returned null. Otherwise it returns a new surface wrapping that pointer |
| `Surfaces.PixelFormat.constructor` | lib/rb_sdl2/surface.rb:230 | `PixelFormat.new(@st[:format])` describes the surface's own format |
| `Surfaces.Surface.PixelFormatOf` | lib/rb_sdl2/surface.rb:224-231 | The first call builds a fresh `PixelFormat` from the surface's format and stores it. Every later call returns that same object and builds nothing |
| `Surfaces.Surface.Synchronize` | lib/rb_sdl2/surface.rb:267-272 | The block runs exactly once, between one `SDL_LockSurface` and one `SDL_UnlockSurface`. Its outcome, value or exception, is passed through. The lock counter after is the counter before, whether the block returned or raised |
| `Surfaces.Surface.ReadPixel` | lib/rb_sdl2/surface.rb:208-218 | The block inside `pixel` gives `PixelValue`. It makes one read of `bpp` bytes, or 4 for bpp 3, at `pitch*y + bpp*x`, and no read when it raises `TypeError`. It memoises the pixel format |
| `Surfaces.Surface.Pixel` | lib/rb_sdl2/surface.rb:203-219 | The result is `PixelValue`. Out-of-range coordinates raise before any native call or format lookup. In range, the trace is lock, read, block end, unlock, and the lock counter is restored, also when `TypeError` is raised |
| `Surfaces.Surface.PixelColor` | lib/rb_sdl2/surface.rb:200 | `pixel_color` is `unpack_pixel` applied to `pixel`'s value, and `pixel`'s exceptions pass through unchanged. Out of range: no call and no format lookup. In range: the trace is lock, read, block end, unlock, the lock counter is restored, and the memoised format keeps its identity |
| `Surfaces.Surface.Fill` | lib/rb_sdl2/surface.rb:188-191 | `SDL_FillRect` gets the given rectangle, else the current clip rectangle, and the given colour, else `[0, 0, 0, 0]`. `RbSDL2Error` is raised exactly when it returns a negative status |
| `Surfaces.Surface.Clear` | lib/rb_sdl2/surface.rb:152 | `clear` fills `bounds` with the given colour, else `[0, 0, 0, 0]`. It raises `RbSDL2Error` exactly when the fill fails, and the memoised format keeps its identity |
| `Surfaces.Surface.Width` | lib/rb_sdl2/surface.rb:276 | `width` is the record's `w`; its meaning is stated by `GeometryAgrees` |
| `Surfaces.Surface.Height` | lib/rb_sdl2/surface.rb:193 | `height` is the record's `h`; its meaning is stated by `GeometryAgrees` |
| `Surfaces.Surface.Pitch` | lib/rb_sdl2/surface.rb:197 | `pitch` is the record's `pitch`, the row stride `PixelValue` uses |
| `Surfaces.Surface.Bounds` | lib/rb_sdl2/surface.rb:135 | `[0, 0, w, h]`; `GeometryAgrees` proves it holds exactly the coordinates `pixel` accepts, and `Clear` fills it |
| `Surfaces.Surface.Bytesize` | lib/rb_sdl2/surface.rb:137 | `pitch * height`; `GeometryAgrees` proves it is the size of the pixel memory |
| `Surfaces.Surface.Size` | lib/rb_sdl2/surface.rb:265 | `[width, height]`, as `GeometryAgrees` states |
| `Surfaces.Surface.Clip` | lib/rb_sdl2/surface.rb:139-143 | The native clip rectangle; `Fill` uses it when no rectangle is given |
| `Surfaces.Surface.Equals` | lib/rb_sdl2/surface.rb:91-93 | `==`: the other object responds to `to_ptr` and yields the same address, as `EqualityIsAddressIdentity` states |
| `Surfaces.GeometryAgrees` | lib/rb_sdl2/surface.rb:135-137 | `bytesize` is the size of the pixel memory. `bounds` = `[0, 0, w, h]` holds exactly the coordinates `pixel` accepts. `size` is `[width, height]` |
| `Surfaces.EqualityIsAddressIdentity` | lib/rb_sdl2/surface.rb:91-93 | Two surfaces are `==` iff they wrap the same address, and `==` is reflexive and symmetric. An object without `to_ptr` is equal to no surface |
| `Surfaces.ColorKeyAsWritten` | lib/rb_sdl2/surface.rb:154-160 | `nil` exactly when no colour key is set. The `RbSDL2Error` class is returned as a value exactly when a key is set and `SDL_GetColorKey` fails. Otherwise the stored key |
| `Surfaces.ColorKey` | lib/rb_sdl2/surface.rb:154-160 | As intended, `nil` exactly when no key is set, and `RbSDL2Error` raised exactly when `SDL_GetColorKey` fails. Otherwise the stored key |
| `Surfaces.ColorKeyFailureIsReturned` | lib/rb_sdl2/surface.rb:158 | With a key set and `SDL_GetColorKey` returning -1, the code as written returns the error class, where the intended method raises |
| `Power.PowerInfo.constructor` | lib/rb_sdl2/power_info.rb:3-7 | `initialize` runs `update` once, so state, time and percentage are those of the first reading |
| `Power.PowerInfo.Update` | lib/rb_sdl2/power_info.rb:42-45 | `update` replaces state, battery time and battery percentage with the new reading, changes nothing else and returns `self` |
| `Power.PowerInfo.BatteryPercentage` | lib/rb_sdl2/power_info.rb:11 | The stored percentage when it is at least 0, `nil` exactly when it is negative |
| `Power.PowerInfo.BatteryTime` | lib/rb_sdl2/power_info.rb:15 | The stored seconds when at least 0, `nil` exactly when negative |
| `Power.PowerInfo.HasBattery` | lib/rb_sdl2/power_info.rb:18-20 | `battery?`: the state is charging, charged or on battery (see `StateClassification`) |
| `Power.PowerInfo.Charged` | lib/rb_sdl2/power_info.rb:23 | `charged?`: the state is `SDL_POWERSTATE_CHARGED` (4) |
| `Power.PowerInfo.Charging` | lib/rb_sdl2/power_info.rb:26 | `charging?`: the state is `SDL_POWERSTATE_CHARGING` (3) |
| `Power.PowerInfo.NoBattery` | lib/rb_sdl2/power_info.rb:29 | `no_battery?`: the state is `SDL_POWERSTATE_NO_BATTERY` (2) |
| `Power.PowerInfo.OnBattery` | lib/rb_sdl2/power_info.rb:32 | `on_battery?`: the state is `SDL_POWERSTATE_ON_BATTERY` (1) |
| `Power.PowerInfo.PluggedIn` | lib/rb_sdl2/power_info.rb:35 | `plugged_in?`: not `on_battery?` |
| `Power.PowerInfo.Unknown` | lib/rb_sdl2/power_info.rb:40 | `unknown?`: the state is `SDL_POWERSTATE_UNKNOWN` (0) |
| `Power.StateClassification` | lib/rb_sdl2/power_info.rb:18-40 | At most one of `charged?`, `charging?`, `no_battery?`, `on_battery?`, `unknown?` holds, and exactly one for each of SDL's five power states. `battery?` iff charging, charged or on battery. `plugged_in?` iff not `on_battery?`. Neither `no_battery?` nor `unknown?` goes with `battery?` |

## Left out

- Surfaces.Surface.Pixel, Surfaces.Surface.ReadPixel, Surfaces.Surface.PixelColor, Pixels.PixelValue, Pixels.MaskedValueIsNextByteBit and Pixels.IntendedIsLowThreeBytes: require `WordReadFits`, that the 32-bit read of a 3-byte pixel stays inside the pixel memory. The code reads past the memory at the last pixel of some surfaces (see Findings). The model does not say what such a read returns.
- `read_uint8`, `read_uint16` and `read_uint32` read in the host's byte order. The model assumes a little-endian host, as the comment at lib/rb_sdl2/surface.rb:213 does.
- Surfaces.Surface.Fill: leaves the pixels after `SDL_FillRect` unconstrained apart from their size, because the fill is a native routine.
- Surfaces.Surface.PixelColor: takes `unpack_pixel` as a parameter. `surface/pixel_format.rb` is not part of this model, so pack/unpack round trips are not stated.
- Surfaces.ColorKey and Surfaces.ColorKeyAsWritten: return the raw key rather than `pixel_format.unpack_color` of it, and do not model the format memo the unpack step triggers.
- `dec_ref` lives in `ref_count_pointer.rb`, which is not part of this model. It is modelled as a single decrement of the reference count.
- `FFI::AutoPointer`'s finalisation, and its guarantee that each wrapper is released at most once, are foreign code. `Release` requires a surface that is not yet freed instead of keeping a `released` flag.
- `SDL_LockSurface`'s RLE decoding and `SDL_UnlockSurface`'s re-encoding are native. Only the lock counter is modelled.
- `RbSDL2.open_rw`, which opens and closes the stream for `load` and `save`, is file I/O and is not part of this model. `save` and its `SDL_SaveBMP_RW` status check are not modelled.
- Single native calls with a status check are not modelled: `blit`, `alpha_mod`/`alpha_mod=`, `blend_mode`/`blend_mode=`/`blend_mode_name`, `color_mod`/`color_mod=`, `clip=`, `color_key=`, `color_key?`, `rle=`/`rle?`, `Surface.to_ptr` and the instance `convert`. Their results come from SDL.
- `Rect.new(*rect)` and `PixelFormatEnum.to_num` conversions are not modelled. `pixel_format_enum.rb` and `surface/blend_mode.rb` are not part of this model.
- C `int` widths of the power buffers and the lock counter are not modelled. The values are unbounded integers.
- The clipboard, window size, mouse, error-string and cursor-pointer wrappers are single native calls and are not modelled.
- Thread safety: the code makes no concurrency promises, and the model is sequential.

## Findings

| source | as written | input that shows it | evidently intended | confidence | as-written member | corrected member |
|---|---|---|---|---|---|---|
| lib/rb_sdl2/surface.rb:213 | a 3-byte pixel is `read_uint32 & 0x1000000`, which keeps bit 24 only | pixel bytes 12 34 56 followed by 00 read as 0 | `& 0xFFFFFF`, giving the pixel's three bytes, 0x563412 | high; not executed | `Pixels.MaskKeepsOnlyBit24` | `Pixels.PixelValueIntended` |
| lib/rb_sdl2/surface.rb:213 | a 3-byte pixel is read with a 4-byte `read_uint32` | 3-byte surface 4 wide, 1 high, pitch 12: pixel (3, 0) reads bytes 9 to 12 of a 12-byte memory | read only the pixel's 3 bytes | medium; not executed | `Pixels.WordReadOverrunsLastPixel` | `Pixels.PixelValueIntended` |
| lib/rb_sdl2/surface.rb:158 | `return RbSDL2Error` when `SDL_GetColorKey` fails | a colour key is set and `SDL_GetColorKey` returns -1 | `raise RbSDL2Error`, as at every other status check | high; not executed | `Surfaces.ColorKeyFailureIsReturned` | `Surfaces.ColorKey` |

`Surfaces.Surface.Pixel` keeps the mask and the 4-byte read as written. `Pixels.IntendedIsLowThreeBytes`
proves that the corrected value is the masked word `& 0xFFFFFF`.
