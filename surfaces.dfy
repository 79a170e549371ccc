/** `RbSDL2::Surface`: the Ruby object that wraps one native surface. */
module Surfaces {
  import opened Wrappers
  import opened Pixels
  import opened Sdl

  /** The colour `clear` and `fill` use when none is given: `[0, 0, 0, 0]`. */
  const TRANSPARENT: Color := Color(0, 0, 0, 0)

  /** `Surface::PixelFormat`, built from the surface's native format. */
  class PixelFormat {
    const info: FormatInfo

    constructor (info: FormatInfo)
      ensures this.info == info
    {
      this.info := info;
    }
  }

  /** The right-hand side of `==`: any Ruby object, which may or may not respond
      to `to_ptr`. */
  datatype Operand = PointerHolder(ptr: NativeSurface?) | OtherObject

  predicate InRect(r: Rect, x: int, y: int) {
    r.x <= x < r.x + r.w && r.y <= y < r.y + r.h
  }

  class Surface {
    const st: NativeSurface
    var pixelFormat: PixelFormat?

    ghost predicate Valid()
      reads this, st
    {
      st.Valid() && (pixelFormat != null ==> pixelFormat.info == st.format)
    }

    /** `initialize(ptr)`. */
    constructor (ptr: NativeSurface)
      ensures st == ptr && pixelFormat == null
    {
      st := ptr;
      pixelFormat := null;
    }

    /** The null check shared by `Surface.new`, `.convert` and `.load`. */
    static method Wrap(ptr: NativeSurface?) returns (r: Result<Surface>)
      ensures r.Err? <==> ptr == null
      ensures r.Err? ==> r.error == RbSDL2Error
      ensures r.Ok? ==> fresh(r.value) && r.value.st == ptr && r.value.pixelFormat == null
    {
      if ptr == null {
        return Err(RbSDL2Error);
      }
      var s := new Surface(ptr);
      r := Ok(s);
    }

    /** `Surface.new(w, h, format)`; `created` is what `SDL_CreateRGBSurfaceWithFormat` returned. */
    static method New(created: NativeSurface?) returns (r: Result<Surface>)
      ensures r.Err? <==> created == null
      ensures r.Err? ==> r.error == RbSDL2Error
      ensures r.Ok? ==> fresh(r.value) && r.value.st == created && r.value.pixelFormat == null
    {
      r := Wrap(created);
    }

    /** `Surface.convert(surface, new_format)`; `converted` is what `SDL_ConvertSurfaceFormat` returned. */
    static method Convert(source: Surface, converted: NativeSurface?) returns (r: Result<Surface>)
      ensures r.Err? <==> converted == null
      ensures r.Err? ==> r.error == RbSDL2Error
      ensures r.Ok? ==> fresh(r.value) && r.value.st == converted && r.value.pixelFormat == null
    {
      r := Wrap(converted);
    }

    /** `Surface.load(obj)`; `loaded` is what `SDL_LoadBMP_RW` returned. */
    static method Load(loaded: NativeSurface?) returns (r: Result<Surface>)
      ensures r.Err? <==> loaded == null
      ensures r.Err? ==> r.error == RbSDL2Error
      ensures r.Ok? ==> fresh(r.value) && r.value.st == loaded && r.value.pixelFormat == null
    {
      r := Wrap(loaded);
    }

    function Width(): int { st.w }

    function Height(): int { st.h }

    function Pitch(): int { st.pitch }

    function Bounds(): Rect { Rect(0, 0, Width(), Height()) }

    function Bytesize(): int { Pitch() * Height() }

    function Size(): (int, int) { (Width(), Height()) }

    /** `clip`: the native clip rectangle. */
    function Clip(): Rect
      reads st
    {
      st.clip
    }

    /** `==`: the other object responds to `to_ptr` and yields the same address. */
    predicate Equals(other: Operand) {
      other.PointerHolder? && other.ptr == st
    }

    /** `pixel_format`: built from the native format on first use, then the same object. */
    method PixelFormatOf() returns (pf: PixelFormat)
      requires Valid()
      modifies this`pixelFormat
      ensures Valid()
      ensures pixelFormat == pf && pf.info == st.format
      ensures old(pixelFormat) != null ==> pf == old(pixelFormat)
      ensures old(pixelFormat) == null ==> fresh(pf)
    {
      if pixelFormat == null {
        pixelFormat := new PixelFormat(st.format);
      }
      pf := pixelFormat;
    }

    /** `synchronize { ... }`: the block's outcome is passed in; lock, run, and
        unlock whether the block returned or raised. `Pixel` writes the same
        bracket out around its read, since its block changes state. */
    method Synchronize<T>(block: Result<T>) returns (r: Result<T>)
      modifies st`locked, st`calls
      ensures r == block
      ensures st.locked == old(st.locked)
      ensures st.calls == old(st.calls) + [LockCall, BlockCall(block.Err?), UnlockCall]
    {
      st.Lock();
      st.calls := st.calls + [BlockCall(block.Err?)];
      r := block;
      st.Unlock();
    }

    /** The body of the block `pixel` runs under `synchronize`: the read whose
        width follows `bytes_per_pixel`. */
    method ReadPixel(x: int, y: int) returns (r: Result<nat>)
      requires Valid() && InBounds(st.View(), x, y) && WordReadFits(st.View(), x, y)
      modifies this`pixelFormat, st`calls
      ensures Valid()
      ensures r == PixelValue(st.View(), x, y)
      ensures var bpp := st.format.bytesPerPixel;
              st.calls == old(st.calls) +
                (if 1 <= bpp <= 4 then [ReadCall(Offset(st.View(), x, y), if bpp == 3 then 4 else bpp)] else [])
      ensures pixelFormat != null && (old(pixelFormat) != null ==> pixelFormat == old(pixelFormat))
    {
      ghost var m := st.View();
      var pf := PixelFormatOf();
      var bpp := pf.info.bytesPerPixel;
      PixelWithinBytesize(m, x, y);
      var ptr := Pitch() * y + bpp * x;
      assert ptr == Offset(m, x, y);
      if bpp == 1 || bpp == 2 || bpp == 4 {
        var v := st.Read(ptr, bpp);
        r := Ok(v);
      } else if bpp == 3 {
        var v := st.Read(ptr, 4);
        r := Ok(MaskWord(v));
      } else {
        r := Err(TypeError);
      }
    }

    /** `pixel(x, y)`: bounds checks before any lock, then the read inside the
        `synchronize` bracket (lock, block, unlock), written out here. */
    method Pixel(x: int, y: int) returns (r: Result<nat>)
      requires Valid() && WordReadFits(st.View(), x, y)
      modifies this`pixelFormat, st`locked, st`calls
      ensures Valid()
      ensures r == PixelValue(st.View(), x, y)
      ensures st.locked == old(st.locked)
      ensures !InBounds(st.View(), x, y) ==>
                st.calls == old(st.calls) && pixelFormat == old(pixelFormat)
      ensures InBounds(st.View(), x, y) ==>
                var bpp := st.format.bytesPerPixel;
                st.calls == old(st.calls) + [LockCall] +
                  (if 1 <= bpp <= 4 then [ReadCall(Offset(st.View(), x, y), if bpp == 3 then 4 else bpp)] else []) +
                  [BlockCall(r.Err?), UnlockCall]
      ensures InBounds(st.View(), x, y) ==>
                pixelFormat != null && (old(pixelFormat) != null ==> pixelFormat == old(pixelFormat))
    {
      if x < 0 || Width() <= x {
        return Err(ArgumentError);
      }
      if y < 0 || Height() <= y {
        return Err(ArgumentError);
      }
      st.Lock();
      r := ReadPixel(x, y);
      st.calls := st.calls + [BlockCall(r.Err?)];
      st.Unlock();
    }

    /** `pixel_color(x, y)`: the pixel value unpacked by the pixel format. */
    method PixelColor(x: int, y: int, unpack: nat -> Color) returns (r: Result<Color>)
      requires Valid() && WordReadFits(st.View(), x, y)
      modifies this`pixelFormat, st`locked, st`calls
      ensures Valid()
      ensures st.locked == old(st.locked)
      ensures r == match PixelValue(st.View(), x, y)
                   case Ok(v) => Ok(unpack(v))
                   case Err(e) => Err(e)
      ensures !InBounds(st.View(), x, y) ==>
                st.calls == old(st.calls) && pixelFormat == old(pixelFormat)
      ensures InBounds(st.View(), x, y) ==>
                var bpp := st.format.bytesPerPixel;
                st.calls == old(st.calls) + [LockCall] +
                  (if 1 <= bpp <= 4 then [ReadCall(Offset(st.View(), x, y), if bpp == 3 then 4 else bpp)] else []) +
                  [BlockCall(r.Err?), UnlockCall]
      ensures InBounds(st.View(), x, y) ==>
                pixelFormat != null && (old(pixelFormat) != null ==> pixelFormat == old(pixelFormat))
    {
      var p := Pixel(x, y);
      if p.Err? {
        return Err(p.error);
      }
      var pf := PixelFormatOf();
      r := Ok(unpack(p.value));
    }

    /** `fill(rect = clip, color = [0, 0, 0, 0])`; `status` is what `SDL_FillRect` returns. */
    method Fill(rect: Option<Rect>, color: Option<Color>, status: int) returns (r: Result<()>)
      requires Valid()
      modifies this`pixelFormat, st`pixels, st`calls
      ensures Valid()
      ensures r.Err? <==> status < 0
      ensures r.Err? ==> r.error == RbSDL2Error
      ensures st.calls == old(st.calls) + [FillCall(rect.GetOr(old(st.clip)), color.GetOr(TRANSPARENT))]
      ensures pixelFormat != null && (old(pixelFormat) != null ==> pixelFormat == old(pixelFormat))
    {
      var target := rect.GetOr(Clip());
      var pf := PixelFormatOf();
      var err := st.FillRect(target, color.GetOr(TRANSPARENT), status);
      if err < 0 {
        return Err(RbSDL2Error);
      }
      r := Ok(());
    }

    /** `clear(color = [0, 0, 0, 0])`: `fill(bounds, color)`. */
    method Clear(color: Option<Color>, status: int) returns (r: Result<()>)
      requires Valid()
      modifies this`pixelFormat, st`pixels, st`calls
      ensures Valid()
      ensures r.Err? <==> status < 0
      ensures r.Err? ==> r.error == RbSDL2Error
      ensures st.calls == old(st.calls) + [FillCall(Bounds(), color.GetOr(TRANSPARENT))]
      ensures pixelFormat != null && (old(pixelFormat) != null ==> pixelFormat == old(pixelFormat))
    {
      r := Fill(Some(Bounds()), color, status);
    }
  }

  /** `bounds`, `size` and `bytesize` describe exactly the pixels `pixel` accepts
      and the memory it reads from. */
  lemma GeometryAgrees(s: Surface)
    requires s.Valid()
    ensures s.Bytesize() == |s.st.pixels|
    ensures s.Size() == (s.Width(), s.Height())
    ensures forall x, y :: InRect(s.Bounds(), x, y) <==> InBounds(s.st.View(), x, y)
  {
  }

  /** `==` compares addresses: two wrappers of one native surface are equal, and
      an object without `to_ptr` equals no surface. */
  lemma EqualityIsAddressIdentity(a: Surface, b: Surface)
    ensures a.Equals(PointerHolder(b.st)) <==> a.st == b.st
    ensures a.Equals(PointerHolder(b.st)) <==> b.Equals(PointerHolder(a.st))
    ensures a.Equals(PointerHolder(a.st))
    ensures !a.Equals(OtherObject)
  {
  }

  /** What `color_key` returns as written: `nil`, the key, or, when `SDL_GetColorKey`
      fails, the `RbSDL2Error` class itself as a value. */
  datatype ColorKeyValue = NoKey | ErrorClass | Key(pixel: bv32)

  /** `color_key` as written; `hasKey` is `color_key?`, `status` and `key` are what
      `SDL_GetColorKey` returns and stores. */
  function ColorKeyAsWritten(hasKey: bool, status: int, key: bv32): (r: ColorKeyValue)
    ensures r == NoKey <==> !hasKey
    ensures r == ErrorClass <==> hasKey && status < 0
    ensures r.Key? ==> r.pixel == key
  {
    if !hasKey then NoKey
    else if status < 0 then ErrorClass
    else Key(key)
  }

  /** `color_key` as evidently intended: a failing `SDL_GetColorKey` raises. */
  function ColorKey(hasKey: bool, status: int, key: bv32): (r: Result<Option<bv32>>)
    ensures r == Ok(None) <==> !hasKey
    ensures r.Err? <==> hasKey && status < 0
    ensures r.Err? ==> r.error == RbSDL2Error
    ensures r.Ok? && r.value.Some? ==> r.value.value == key
  {
    if !hasKey then Ok(None)
    else if status < 0 then Err(RbSDL2Error)
    else Ok(Some(key))
  }

  /** With a colour key set and `SDL_GetColorKey` failing, the method as written
      hands the error class back instead of raising it. */
  lemma ColorKeyFailureIsReturned()
    ensures ColorKeyAsWritten(true, -1, 0) == ErrorClass
    ensures ColorKey(true, -1, 0) == Err(RbSDL2Error)
  {
  }
}
