/**
 * The drawing loops of `FrameBuffer`, written as the source writes them (nested loops issuing one
 * `at(x, y) = color` per pixel), each proved to produce the surface its reference function describes.
 */
module Raster {
  import opened Pixels
  import opened Fonts
  import opened FrameBuffers

  /** `drawRectangle`: row by row, column by column, each pixel of the rectangle set to `color`. */
  method DrawRectangle(fb: FrameBuffer, x: nat, y: nat, w: nat, h: nat, color: Pixel) returns (r: FrameBuffer)
    requires Valid(fb) && RectFits(fb, x, y, w, h)
    ensures r == Fill(fb, x, y, w, h, color)
  {
    r := fb;
    var iy := 0;
    while iy < h
      invariant iy <= h
      invariant Valid(r) && SameShape(r, fb)
      invariant forall px: nat, py: nat | px < fb.width && py < fb.height ::
                  Get(r, px, py) == if InRect(x, y, w, iy, px, py) then color else Get(fb, px, py)
    {
      var ix := 0;
      while ix < w
        invariant ix <= w
        invariant Valid(r) && SameShape(r, fb)
        invariant forall px: nat, py: nat | px < fb.width && py < fb.height ::
                    Get(r, px, py) ==
                      if InRect(x, y, w, iy, px, py) || InRect(x, y + iy, ix, 1, px, py) then color
                      else Get(fb, px, py)
      {
        r := Set(r, x + ix, y + iy, color);
        ix := ix + 1;
      }
      iy := iy + 1;
    }
    Extensionality(r, Fill(fb, x, y, w, h, color));
  }

  /**
   * Pixel `(px, py)` belongs to a glyph bit that `putChar`'s loops have already visited and found set,
   * when they are about to test bit `bit` of glyph byte `idx`.
   */
  predicate Drawn(f: Font, c: bv8, x: nat, y: nat, px: nat, py: nat, idx: nat, bit: nat)
  {
    InCell(f, x, y, px, py) &&
    var j := ByteAt(f, px - x, py - y);
    var b := BitOf(px - x);
    BitAt(f, c, j, b) && (j < idx || (j == idx && b < bit))
  }

  /**
   * Visiting bit `bit` of glyph byte `idx` adds to the drawn set exactly the pixel that bit paints,
   * and only if the bit is set.
   */
  lemma DrawnStep(f: Font, c: bv8, x: nat, y: nat, px: nat, py: nat, idx: nat, bit: nat)
    requires idx < CharBytes(f) && bit < BYTE_BIT_COUNT
    ensures Drawn(f, c, x, y, px, py, idx, bit + 1) <==>
              Drawn(f, c, x, y, px, py, idx, bit) ||
              (BitAt(f, c, idx, bit) && px == x + ColumnOf(f, idx, bit) && py == y + RowOf(f, idx))
  {
    BitCellRoundTrip(f, idx, bit);
    if InCell(f, x, y, px, py) {
      CellBitRoundTrip(f, px - x, py - y);
    }
  }

  /** Once every glyph byte has been visited, the drawn pixels are those the glyph covers. */
  lemma DrawnAll(f: Font, c: bv8, x: nat, y: nat, px: nat, py: nat)
    ensures Drawn(f, c, x, y, px, py, CharBytes(f), 0) <==> Covers(f, c, x, y, px, py)
  {
    if InCell(f, x, y, px, py) {
      CellBitRoundTrip(f, px - x, py - y);
    }
  }

  /**
   * `putChar`: for each glyph byte `idx` and each bit `bitIdx` from the most significant, a set bit
   * paints `(x + (idx % widthBytes) * 8 + bitIdx, y + idx / widthBytes)`.
   */
  method PutChar(fb: FrameBuffer, c: bv8, x: nat, y: nat, f: Font, color: Pixel) returns (r: FrameBuffer)
    requires Valid(fb) && GlyphFits(fb.width, fb.height, f, c, x, y)
    ensures r == PutGlyph(fb, c, x, y, f, color)
  {
    var widthBytes := WidthBytes(f);
    var charBytes := widthBytes * f.height;
    r := fb;
    var idx := 0;
    while idx < charBytes
      invariant idx <= charBytes
      invariant Valid(r) && SameShape(r, fb)
      invariant forall px: nat, py: nat | px < fb.width && py < fb.height ::
                  Get(r, px, py) == if Drawn(f, c, x, y, px, py, idx, 0) then color else Get(fb, px, py)
    {
      var bitIdx := 0;
      while bitIdx < BYTE_BIT_COUNT
        invariant bitIdx <= BYTE_BIT_COUNT
        invariant Valid(r) && SameShape(r, fb)
        invariant forall px: nat, py: nat | px < fb.width && py < fb.height ::
                    Get(r, px, py) == if Drawn(f, c, x, y, px, py, idx, bitIdx) then color else Get(fb, px, py)
      {
        var curBit := BitSet(GlyphByte(f, c, idx), bitIdx);
        var pixelX := (idx % widthBytes) * BYTE_BIT_COUNT + bitIdx;
        var pixelY := idx / widthBytes;
        forall px: nat, py: nat {
          DrawnStep(f, c, x, y, px, py, idx, bitIdx);
        }
        if curBit {
          assert BitAt(f, c, idx, bitIdx);
          assert pixelX == ColumnOf(f, idx, bitIdx) && pixelY == RowOf(f, idx);
          r := Set(r, x + pixelX, y + pixelY, color);
        }
        bitIdx := bitIdx + 1;
      }
      idx := idx + 1;
    }
    forall px: nat, py: nat {
      DrawnAll(f, c, x, y, px, py);
    }
    Extensionality(r, PutGlyph(fb, c, x, y, f, color));
  }

  /** `putText`: `putChar(text[idx], x + idx * font.Width, y)` for each index in increasing order. */
  method PutText(fb: FrameBuffer, text: seq<bv8>, x: nat, y: nat, f: Font, color: Pixel) returns (r: FrameBuffer)
    requires Valid(fb) && TextFits(fb.width, fb.height, text, x, y, f)
    ensures r == FrameBuffers.PutText(fb, text, x, y, f, color)
  {
    r := fb;
    var idx := 0;
    while idx < |text|
      invariant idx <= |text|
      invariant r == PutTextPrefix(fb, text, idx, x, y, f, color)
    {
      var charX := x + idx * f.width;
      assert charX == CharX(x, idx, f);
      assert GlyphFits(fb.width, fb.height, f, text[idx], charX, y);
      r := PutChar(r, text[idx], charX, y, f, color);
      assert r == PutTextPrefix(fb, text, idx + 1, x, y, f, color);
      idx := idx + 1;
    }
  }

  /** `copyBuffer` without an accelerator: the `memcpy` from `src`'s storage into `dst`'s. */
  method CopyBuffer(dst: FrameBuffer, src: FrameBuffer) returns (r: FrameBuffer)
    requires Valid(dst) && CopiedPixels(dst) <= |src.pixels|
    ensures r == Copy(dst, src)
  {
    var count := CopiedPixels(dst);
    r := dst;
    var i := 0;
    while i < count
      invariant i <= count
      invariant r.width == dst.width && r.height == dst.height && r.pixelFormat == dst.pixelFormat
      invariant |r.pixels| == |dst.pixels|
      invariant forall k | 0 <= k < |r.pixels| :: r.pixels[k] == if k < i then src.pixels[k] else dst.pixels[k]
    {
      r := r.(pixels := r.pixels[i := src.pixels[i]]);
      i := i + 1;
    }
    assert r.pixels == Copy(dst, src).pixels;
  }
}
