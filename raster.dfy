/** Raw pixel access into a decoded bitmap: a row-strided byte buffer read in ARGB order. */
module RasterAccess {

  /** One byte of the pixel buffer (Swift `UInt8`). */
  newtype byte = b: int | 0 <= b < 256

  /** A decoded bitmap as `getPixelColor` sees it: its dimensions, the row stride in bytes,
      the pixel size in bits and the bytes of its data provider. */
  datatype Raster = Raster(width: nat, height: nat, bytesPerRow: nat, bitsPerPixel: nat, data: seq<byte>)

  /** The four channels of one pixel, in the order they are stored. */
  datatype ARGB = ARGB(alpha: byte, red: byte, green: byte, blue: byte)

  /** Bytes per pixel, derived from the bit depth by integer division as the source does. */
  function BytesPerPixel(r: Raster): nat
  {
    r.bitsPerPixel / 8
  }

  /** The layout the reader relies on: pixels of at least four bytes, rows long enough for
      `width` pixels, and a buffer holding `height` whole rows. */
  predicate WellFormed(r: Raster)
  {
    && BytesPerPixel(r) >= 4
    && r.bytesPerRow >= r.width * BytesPerPixel(r)
    && |r.data| >= r.height * r.bytesPerRow
  }

  predicate InBounds(r: Raster, x: int, y: int)
  {
    0 <= x < r.width && 0 <= y < r.height
  }

  /** Byte offset of pixel (x, y): rows are `bytesPerRow` apart, pixels `BytesPerPixel` apart. */
  function PixelOffset(r: Raster, x: int, y: int): int
  {
    y * r.bytesPerRow + x * BytesPerPixel(r)
  }

  lemma MulMonotone(a: int, b: int, c: int)
    requires a <= b && 0 <= c
    ensures a * c <= b * c
  {
  }

  /** The four bytes of an in-range pixel lie inside its own row, and so inside the buffer. */
  lemma PixelWindowInBounds(r: Raster, x: int, y: int)
    requires WellFormed(r) && InBounds(r, x, y)
    ensures y * r.bytesPerRow <= PixelOffset(r, x, y)
    ensures PixelOffset(r, x, y) + 4 <= (y + 1) * r.bytesPerRow
    ensures 0 <= PixelOffset(r, x, y) && PixelOffset(r, x, y) + 3 < |r.data|
  {
  }

  /** Two different pixels never share a byte: the reader of one consults nothing of another. */
  lemma PixelWindowsDisjoint(r: Raster, x1: int, y1: int, x2: int, y2: int)
    requires WellFormed(r) && InBounds(r, x1, y1) && InBounds(r, x2, y2)
    requires x1 != x2 || y1 != y2
    ensures PixelOffset(r, x1, y1) + 4 <= PixelOffset(r, x2, y2)
         || PixelOffset(r, x2, y2) + 4 <= PixelOffset(r, x1, y1)
  {
    if y1 != y2 {
      var lo, hi := if y1 < y2 then y1 else y2, if y1 < y2 then y2 else y1;
      var xl, xh := if y1 < y2 then x1 else x2, if y1 < y2 then x2 else x1;
      PixelWindowInBounds(r, xl, lo);
      PixelWindowInBounds(r, xh, hi);
      MulMonotone(lo + 1, hi, r.bytesPerRow);
    } else {
      var lo, hi := if x1 < x2 then x1 else x2, if x1 < x2 then x2 else x1;
      var bpp := BytesPerPixel(r);
      MulMonotone(lo + 1, hi, bpp);
      assert (lo + 1) * bpp == lo * bpp + bpp;
    }
  }

  /** `getPixelColor`: the pixel at (x, y), read as alpha, red, green, blue from the four
      consecutive bytes starting at its offset. */
  function GetPixelColor(r: Raster, x: int, y: int): (c: ARGB)
    requires WellFormed(r) && InBounds(r, x, y)
    ensures 0 <= PixelOffset(r, x, y) && PixelOffset(r, x, y) + 3 < |r.data|
    ensures c.alpha == r.data[PixelOffset(r, x, y) + 0]
    ensures c.red == r.data[PixelOffset(r, x, y) + 1]
    ensures c.green == r.data[PixelOffset(r, x, y) + 2]
    ensures c.blue == r.data[PixelOffset(r, x, y) + 3]
  {
    PixelWindowInBounds(r, x, y);
    var pixelOffset := PixelOffset(r, x, y);
    ARGB(r.data[pixelOffset + 0], r.data[pixelOffset + 1], r.data[pixelOffset + 2], r.data[pixelOffset + 3])
  }

  /** Same layout and the same four bytes at the pixel's offset give the same colour,
      whatever the rest of the buffer holds. */
  lemma GetPixelColorReadsOnlyItsWindow(r1: Raster, r2: Raster, x: int, y: int)
    requires WellFormed(r1) && WellFormed(r2) && InBounds(r1, x, y) && InBounds(r2, x, y)
    requires r1.bytesPerRow == r2.bytesPerRow && BytesPerPixel(r1) == BytesPerPixel(r2)
    requires forall i :: PixelOffset(r1, x, y) <= i < PixelOffset(r1, x, y) + 4 && i < |r1.data| && i < |r2.data|
                         ==> r1.data[i] == r2.data[i]
    ensures GetPixelColor(r1, x, y) == GetPixelColor(r2, x, y)
  {
    PixelWindowInBounds(r1, x, y);
    PixelWindowInBounds(r2, x, y);
    var off := PixelOffset(r1, x, y);
    assert r1.data[off + 0] == r2.data[off + 0];
    assert r1.data[off + 1] == r2.data[off + 1];
    assert r1.data[off + 2] == r2.data[off + 2];
    assert r1.data[off + 3] == r2.data[off + 3];
  }
}
