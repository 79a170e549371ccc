/** Pixel addressing and the width-dependent memory read behind `Surface#pixel`. */
module Pixels {
  import opened Wrappers

  /** A surface's pixel memory with the geometry used to address it. */
  datatype PixelMemory = PixelMemory(w: int, h: int, pitch: int, bytesPerPixel: int, pixels: seq<bv8>)

  /** Geometry as SDL lays it out: a row of pixels fits in one pitch and the memory
      holds `pitch * h` bytes (the wrapper's `bytesize`). */
  ghost predicate WellFormed(m: PixelMemory) {
    0 <= m.w && 0 <= m.h && 0 <= m.bytesPerPixel &&
    m.bytesPerPixel * m.w <= m.pitch &&
    |m.pixels| == m.pitch * m.h
  }

  predicate InBounds(m: PixelMemory, x: int, y: int) {
    0 <= x < m.w && 0 <= y < m.h
  }

  /** Byte offset of pixel (x, y) from the start of the pixel memory. */
  function Offset(m: PixelMemory, x: int, y: int): int {
    m.pitch * y + m.bytesPerPixel * x
  }

  /** The 32-bit read used for a 3-byte pixel stays inside the pixel memory. */
  ghost predicate WordReadFits(m: PixelMemory, x: int, y: int) {
    InBounds(m, x, y) && m.bytesPerPixel == 3 ==> Offset(m, x, y) + 4 <= |m.pixels|
  }

  function Pow256(n: nat): nat {
    if n == 0 then 1 else 256 * Pow256(n - 1)
  }

  /** Unsigned little-endian value of a byte string. */
  function LittleEndian(b: seq<bv8>): (r: nat)
    ensures r < Pow256(|b|)
    decreases |b|
  {
    if b == [] then 0 else b[0] as nat + 256 * LittleEndian(b[1..])
  }

  /** A little-endian value splits at any byte boundary. */
  lemma {:induction false} LittleEndianSplit(b: seq<bv8>, k: nat)
    requires k <= |b|
    ensures LittleEndian(b) == LittleEndian(b[..k]) + Pow256(k) * LittleEndian(b[k..])
    decreases k
  {
    if k == 0 {
      assert b[..0] == [] && b[0..] == b;
    } else {
      LittleEndianSplit(b[1..], k - 1);
      assert b[1..][..k - 1] == b[..k][1..];
      assert b[1..][k - 1..] == b[k..];
      SplitStep(b[0] as nat, LittleEndian(b[..k][1..]), Pow256(k - 1), LittleEndian(b[k..]));
    }
  }

  /** The arithmetic of one step of LittleEndianSplit. */
  lemma SplitStep(first: int, lowTail: int, p: int, high: int)
    ensures first + 256 * (lowTail + p * high) == (first + 256 * lowTail) + (256 * p) * high
  {
    MulAssociative(256, p, high);
  }

  /** Every pixel of a well-formed memory lies, `bytesPerPixel` bytes wide, inside
      the `pitch * h` bytes of the memory. */
  lemma PixelWithinBytesize(m: PixelMemory, x: int, y: int)
    requires WellFormed(m) && InBounds(m, x, y)
    ensures 0 <= Offset(m, x, y)
    ensures Offset(m, x, y) + m.bytesPerPixel <= |m.pixels|
  {
    var bpp, pitch := m.bytesPerPixel, m.pitch;
    assert 0 <= bpp * x by { MulNonNegative(bpp, x); }
    assert 0 <= pitch * y by { MulNonNegative(pitch, y); }
    assert bpp * x + bpp <= pitch by { MulMonotone(bpp, x + 1, m.w); }
    assert pitch * y + pitch <= |m.pixels| by { MulMonotone(pitch, y + 1, m.h); }
  }

  lemma MulAssociative(a: int, b: int, c: int)
    ensures (a * b) * c == a * (b * c)
  {
  }

  lemma MulNonNegative(a: int, b: int)
    requires 0 <= a && 0 <= b
    ensures 0 <= a * b
  {
  }

  lemma MulMonotone(a: int, b: int, c: int)
    requires 0 <= a && b <= c
    ensures a * b <= a * c
  {
    assert a * c - a * b == a * (c - b);
    MulNonNegative(a, c - b);
  }

  /** `word & 0x1000000`, the mask applied to a 3-byte pixel as written: it keeps
      bit 24 of the word and clears every other bit. */
  function MaskWord(word: nat): (r: nat)
    ensures r == 0 || r == 0x0100_0000
  {
    if (word / 0x0100_0000) % 2 == 1 then 0x0100_0000 else 0
  }

  /** The arithmetic form of MaskWord is the bitwise AND the code writes. */
  lemma MaskWordIsBitwiseAnd(word: nat)
    requires word < 0x1_0000_0000
    ensures MaskWord(word) == ((word as bv32) & 0x0100_0000) as nat
  {
  }

  /** The value `Surface#pixel` returns, or the exception it raises: bounds first,
      then a little-endian read whose width follows `bytesPerPixel`. */
  function PixelValue(m: PixelMemory, x: int, y: int): (r: Result<nat>)
    requires WellFormed(m) && WordReadFits(m, x, y)
    ensures r == Err(ArgumentError) <==> !InBounds(m, x, y)
    ensures r == Err(TypeError) <==> InBounds(m, x, y) && !(1 <= m.bytesPerPixel <= 4)
    ensures r.Ok? <==> InBounds(m, x, y) && 1 <= m.bytesPerPixel <= 4
    ensures r.Ok? && m.bytesPerPixel == 1 ==> r.value < 0x100
    ensures r.Ok? && m.bytesPerPixel == 2 ==> r.value < 0x1_0000
    ensures r.Ok? && m.bytesPerPixel == 4 ==> r.value < 0x1_0000_0000
    ensures r.Ok? && m.bytesPerPixel == 3 ==> r.value == 0 || r.value == 0x0100_0000
    ensures r.Ok? && m.bytesPerPixel != 3 ==>
              var off := Offset(m, x, y);
              0 <= off && off + m.bytesPerPixel <= |m.pixels| &&
              r.value == LittleEndian(m.pixels[off..off + m.bytesPerPixel])
  {
    if !InBounds(m, x, y) then Err(ArgumentError)
    else if !(1 <= m.bytesPerPixel <= 4) then Err(TypeError)
    else
      PixelWithinBytesize(m, x, y);
      var off := Offset(m, x, y);
      if m.bytesPerPixel == 3 then
        Ok(MaskWord(LittleEndian(m.pixels[off..off + 4])))
      else
        assert Pow256(1) == 0x100 && Pow256(2) == 0x1_0000 && Pow256(4) == 0x1_0000_0000;
        Ok(LittleEndian(m.pixels[off..off + m.bytesPerPixel]))
  }

  /** The evidently intended read: exactly `bytesPerPixel` bytes for every width,
      so a 3-byte pixel is its low three bytes and no read leaves the memory. */
  function PixelValueIntended(m: PixelMemory, x: int, y: int): (r: Result<nat>)
    requires WellFormed(m)
    ensures r == Err(ArgumentError) <==> !InBounds(m, x, y)
    ensures r == Err(TypeError) <==> InBounds(m, x, y) && !(1 <= m.bytesPerPixel <= 4)
    ensures r.Ok? <==> InBounds(m, x, y) && 1 <= m.bytesPerPixel <= 4
    ensures r.Ok? ==>
              var off := Offset(m, x, y);
              0 <= off && off + m.bytesPerPixel <= |m.pixels| &&
              r.value == LittleEndian(m.pixels[off..off + m.bytesPerPixel]) &&
              r.value < Pow256(m.bytesPerPixel)
  {
    if !InBounds(m, x, y) then Err(ArgumentError)
    else if !(1 <= m.bytesPerPixel <= 4) then Err(TypeError)
    else
      PixelWithinBytesize(m, x, y);
      var off := Offset(m, x, y);
      Ok(LittleEndian(m.pixels[off..off + m.bytesPerPixel]))
  }

  /** Where the 32-bit read fits, the intended 3-byte value is that word with its
      top byte cleared (`word & 0xFFFFFF`), which the mask as written is not. */
  lemma IntendedIsLowThreeBytes(m: PixelMemory, x: int, y: int)
    requires WellFormed(m) && WordReadFits(m, x, y)
    requires InBounds(m, x, y) && m.bytesPerPixel == 3
    ensures var off := Offset(m, x, y);
            0 <= off && off + 4 <= |m.pixels| &&
            PixelValueIntended(m, x, y).value == LittleEndian(m.pixels[off..off + 4]) % 0x100_0000
  {
    PixelWithinBytesize(m, x, y);
    var off := Offset(m, x, y);
    var word := m.pixels[off..off + 4];
    LittleEndianSplit(word, 3);
    assert word[..3] == m.pixels[off..off + 3];
    assert Pow256(3) == 0x100_0000;
    var low := LittleEndian(word[..3]);
    var high := LittleEndian(word[3..]);
    assert LittleEndian(word) == low + 0x100_0000 * high;
    assert 0 <= low < 0x100_0000;
  }

  /** As written, a 3-byte pixel reads as 0x1000000 or 0 according to the lowest
      bit of the byte that FOLLOWS the pixel, whatever the pixel's own bytes are. */
  lemma MaskedValueIsNextByteBit(m: PixelMemory, x: int, y: int)
    requires WellFormed(m) && WordReadFits(m, x, y)
    requires InBounds(m, x, y) && m.bytesPerPixel == 3
    ensures var off := Offset(m, x, y);
            0 <= off && off + 4 <= |m.pixels| &&
            PixelValue(m, x, y) == Ok(if m.pixels[off + 3] as nat % 2 == 1 then 0x0100_0000 else 0)
  {
    PixelWithinBytesize(m, x, y);
    var off := Offset(m, x, y);
    var word := m.pixels[off..off + 4];
    WordTopByte(word);
    assert word[3] == m.pixels[off + 3];
    assert PixelValue(m, x, y) == Ok(MaskWord(LittleEndian(word)));
  }

  /** The top byte of a little-endian 32-bit word is the word divided by 2^24. */
  lemma WordTopByte(word: seq<bv8>)
    requires |word| == 4
    ensures LittleEndian(word) / 0x100_0000 == word[3] as nat
  {
    LittleEndianSplit(word, 3);
    assert Pow256(3) == 0x100_0000;
    var low, high := LittleEndian(word[..3]), LittleEndian(word[3..]);
    assert high == word[3] as nat by {
      assert word[3..] == [word[3]];
    }
    HighWord(low, high);
  }

  lemma HighWord(low: int, high: int)
    requires 0 <= low < 0x100_0000 && 0 <= high
    ensures (low + 0x100_0000 * high) / 0x100_0000 == high
  {
  }

  /** The mask as written drops the three pixel bytes: a pixel stored as
      12 34 56, followed by a zero byte, reads as 0 instead of its low three
      bytes 0x563412. */
  lemma MaskKeepsOnlyBit24()
    ensures LittleEndian([0x12, 0x34, 0x56]) == 0x56_3412
    ensures LittleEndian([0x12, 0x34, 0x56, 0x00]) % 0x100_0000 == 0x56_3412
    ensures MaskWord(LittleEndian([0x12, 0x34, 0x56, 0x00])) == 0
  {
    assert LittleEndian([0x56]) == 0x56;
    assert LittleEndian([0x34, 0x56]) == 0x5634;
    assert LittleEndian([0x00]) == 0;
    assert LittleEndian([0x56, 0x00]) == 0x56;
    assert LittleEndian([0x34, 0x56, 0x00]) == 0x5634;
  }

  /** With SDL's 4-byte-aligned pitch, a 4 pixel wide 3-byte surface has a 12-byte
      row, and the 32-bit read of its last pixel needs byte 12, past the memory;
      the intended 3-byte read stays inside. */
  lemma WordReadOverrunsLastPixel()
    ensures var m := PixelMemory(4, 1, 12, 3, seq(12, _ => 0));
            WellFormed(m) && InBounds(m, 3, 0) && !WordReadFits(m, 3, 0) &&
            Offset(m, 3, 0) + m.bytesPerPixel <= |m.pixels| &&
            PixelValueIntended(m, 3, 0) == Ok(0)
  {
    var m := PixelMemory(4, 1, 12, 3, seq(12, _ => 0));
    assert m.pixels[9..12] == [0, 0, 0];
    assert LittleEndian([0]) == 0;
    assert LittleEndian([0, 0]) == 0;
  }
}
