/** The native `SDL_Surface` record and the few SDL routines whose effect on it the
    Ruby wrapper relies on. Everything else SDL does to a surface is opaque here. */
module Sdl {
  import opened Pixels

  /** `SDL_DONTFREE`: the surface belongs to another object (a window) that frees it. */
  const DONTFREE: bv32 := 0x0000_0004

  datatype Rect = Rect(x: int, y: int, w: int, h: int)

  /** A colour as the wrapper passes it around: `[r, g, b, a]`. */
  datatype Color = Color(r: int, g: int, b: int, a: int)

  /** What the surface's `SDL_PixelFormat` says about one pixel. */
  datatype FormatInfo = FormatInfo(formatEnum: int, bytesPerPixel: int)

  /** The ownership part of the record: the flags word, the reference count and
      whether SDL has handed the memory back to the allocator. */
  datatype Ownership = Ownership(flags: bv32, refcount: int, freed: bool)

  /** The native calls made on one surface, in order (a ghost trace). */
  datatype NativeCall =
    | LockCall
    | UnlockCall
    | BlockCall(raised: bool)
    | ReadCall(offset: int, count: int)
    | FillCall(rect: Rect, color: Color)
    | FreeCall
    | DecRefCall

  /** The `SDL_DONTFREE` bit test on a flags word. */
  predicate DontFree(flags: bv32) {
    flags & DONTFREE != 0
  }

  /** `SDL_FreeSurface`: ignores a `SDL_DONTFREE` surface; otherwise drops one
      reference and releases the memory once no reference is left. */
  function FreeSurfaceEffect(o: Ownership): Ownership
    requires !o.freed
  {
    if DontFree(o.flags) then o
    else Ownership(o.flags, o.refcount - 1, o.refcount - 1 <= 0)
  }

  /** `dec_ref`: drops one reference and nothing else. */
  function DecRefEffect(o: Ownership): Ownership {
    Ownership(o.flags, o.refcount - 1, o.freed)
  }

  class NativeSurface {
    const w: int
    const h: int
    const pitch: int
    const format: FormatInfo
    var flags: bv32
    var refcount: int
    var freed: bool
    var locked: nat
    var pixels: seq<bv8>
    var clip: Rect
    ghost var calls: seq<NativeCall>

    /** The pixel memory together with the geometry that addresses it. */
    function View(): PixelMemory
      reads this`pixels
    {
      PixelMemory(w, h, pitch, format.bytesPerPixel, pixels)
    }

    function OwnershipState(): Ownership
      reads this`flags, this`refcount, this`freed
    {
      Ownership(flags, refcount, freed)
    }

    /** A live surface whose memory matches its geometry. */
    ghost predicate Valid()
      reads this`pixels, this`freed
    {
      !freed && WellFormed(View())
    }

    /** `SDL_CreateRGBSurfaceWithFormat` on success: one reference, unlocked,
        clipped to the whole surface. */
    constructor (w: int, h: int, pitch: int, format: FormatInfo, flags: bv32, pixels: seq<bv8>)
      requires WellFormed(PixelMemory(w, h, pitch, format.bytesPerPixel, pixels))
      ensures Valid() && refcount == 1 && locked == 0 && calls == []
      ensures View() == PixelMemory(w, h, pitch, format.bytesPerPixel, pixels)
      ensures this.flags == flags && clip == Rect(0, 0, w, h)
    {
      this.w, this.h, this.pitch, this.format := w, h, pitch, format;
      this.flags, this.pixels := flags, pixels;
      refcount, freed, locked := 1, false, 0;
      clip := Rect(0, 0, w, h);
      calls := [];
    }

    /** `SDL_LockSurface`: counts one more lock. */
    method Lock()
      modifies this`locked, this`calls
      ensures locked == old(locked) + 1
      ensures calls == old(calls) + [LockCall]
    {
      locked := locked + 1;
      calls := calls + [LockCall];
    }

    /** `SDL_UnlockSurface`: counts one lock fewer, and does nothing when unlocked. */
    method Unlock()
      modifies this`locked, this`calls
      ensures locked == if old(locked) == 0 then 0 else old(locked) - 1
      ensures calls == old(calls) + [UnlockCall]
    {
      if locked > 0 {
        locked := locked - 1;
      }
      calls := calls + [UnlockCall];
    }

    /** An unsigned little-endian read of `count` bytes at `offset` of the pixel memory. */
    method Read(offset: int, count: nat) returns (v: nat)
      requires 0 <= offset && offset + count <= |pixels|
      modifies this`calls
      ensures v == LittleEndian(pixels[offset..offset + count])
      ensures calls == old(calls) + [ReadCall(offset, count)]
    {
      v := LittleEndian(pixels[offset..offset + count]);
      calls := calls + [ReadCall(offset, count)];
    }

    method FreeSurface()
      requires !freed
      modifies this`refcount, this`freed, this`calls
      ensures OwnershipState() == FreeSurfaceEffect(old(OwnershipState()))
      ensures calls == old(calls) + [FreeCall]
    {
      if !DontFree(flags) {
        refcount := refcount - 1;
        freed := refcount <= 0;
      }
      calls := calls + [FreeCall];
    }

    method DecRef()
      modifies this`refcount, this`calls
      ensures OwnershipState() == DecRefEffect(old(OwnershipState()))
      ensures calls == old(calls) + [DecRefCall]
    {
      refcount := refcount - 1;
      calls := calls + [DecRefCall];
    }

    /** `SDL_FillRect`: its effect on the pixels is opaque; `status` is what it returns. */
    method FillRect(rect: Rect, color: Color, status: int) returns (code: int)
      modifies this`pixels, this`calls
      ensures code == status
      ensures |pixels| == |old(pixels)|
      ensures calls == old(calls) + [FillCall(rect, color)]
    {
      code := status;
      calls := calls + [FillCall(rect, color)];
    }
  }
}
