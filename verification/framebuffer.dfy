/**
 * The `FrameBuffer` surface: a `width` by `height` grid of pixels stored row-major over memory the
 * caller owns. The functions here are the reference meaning of each drawing operation, stated per
 * pixel coordinate; module `Raster` holds the source's loops and proves them equal to these.
 */
module FrameBuffers {
  import opened Arith
  import opened Pixels
  import opened Fonts

  /** The `PixelFormat` tag of RGB565, which is also its size in bytes. */
  const RGB565: nat := 2

  /**
   * A surface: the pixels of the memory it is bound to, its geometry and its format tag. The model
   * gives each surface its own storage; two surfaces never share memory.
   */
  datatype FrameBuffer = FrameBuffer(pixels: seq<Pixel>, width: nat, height: nat, pixelFormat: nat)

  /** A default-constructed surface: null buffer (no storage), zero width, height and format. */
  const DEFAULT: FrameBuffer := FrameBuffer([], 0, 0, 0)

  /**
   * The storage invariant: exactly `width * height` pixels, whose RGB565 storage fits the 32-bit address
   * space (fewer than 2^32 bytes), and a format that is either RGB565 or the zero of a
   * default-constructed surface.
   */
  predicate Valid(fb: FrameBuffer)
  {
    |fb.pixels| == fb.width * fb.height &&
    fb.width < U32 && fb.height < U32 && |fb.pixels| * RGB565 < U32 &&
    (fb.pixelFormat == RGB565 || fb.pixelFormat == 0)
  }

  /** Valid storage is addressable with 32-bit row-major indices. */
  lemma Addressable(fb: FrameBuffer)
    requires Valid(fb)
    ensures fb.width * fb.height < U32
  {
  }

  predicate SameShape(a: FrameBuffer, b: FrameBuffer)
  {
    a.width == b.width && a.height == b.height && a.pixelFormat == b.pixelFormat
  }

  /** `y * _width + x` computed in `uint32_t`: the element `at(x, y)` addresses. */
  function At(width: nat, x: nat, y: nat): nat
  {
    (y * width + x) % U32
  }

  /**
   * For coordinates inside the grid the 32-bit index does not wrap: it is the row-major offset,
   * which lies inside the storage.
   */
  lemma AtAddressesRowMajor(width: nat, height: nat, x: nat, y: nat)
    requires x < width && y < height && width * height <= U32
    ensures At(width, x, y) == y * width + x
    ensures At(width, x, y) < width * height
  {
    RowMajorBound(width, height, x, y);
  }

  /** Distinct coordinates inside the grid address distinct elements. */
  lemma AtInjective(width: nat, height: nat, x: nat, y: nat, x': nat, y': nat)
    requires x < width && y < height && x' < width && y' < height && width * height <= U32
    requires At(width, x, y) == At(width, x', y')
    ensures x == x' && y == y'
  {
    AtAddressesRowMajor(width, height, x, y);
    AtAddressesRowMajor(width, height, x', y');
    DivModUnique(At(width, x, y), width, y, x);
    DivModUnique(At(width, x, y), width, y', x');
  }

  /** The element a coordinate addresses decodes back to that coordinate. */
  lemma AtDecode(width: nat, height: nat, x: nat, y: nat)
    requires x < width && y < height && width * height <= U32
    ensures At(width, x, y) < width * height
    ensures At(width, x, y) % width == x && At(width, x, y) / width == y
  {
    AtAddressesRowMajor(width, height, x, y);
    DivModUnique(At(width, x, y), width, y, x);
  }

  /** Reading `at(x, y)`. */
  function Get(fb: FrameBuffer, x: nat, y: nat): Pixel
    requires Valid(fb) && x < fb.width && y < fb.height
  {
    AtAddressesRowMajor(fb.width, fb.height, x, y);
    fb.pixels[At(fb.width, x, y)]
  }

  /** Writing `at(x, y) = color`: that pixel becomes `color`, every other pixel keeps its value. */
  function Set(fb: FrameBuffer, x: nat, y: nat, color: Pixel): (r: FrameBuffer)
    requires Valid(fb) && x < fb.width && y < fb.height
    ensures Valid(r) && SameShape(r, fb)
    ensures Get(r, x, y) == color
    ensures forall px: nat, py: nat | px < fb.width && py < fb.height && (px != x || py != y) ::
              Get(r, px, py) == Get(fb, px, py)
  {
    AtAddressesRowMajor(fb.width, fb.height, x, y);
    var r := fb.(pixels := fb.pixels[At(fb.width, x, y) := color]);
    assert forall px: nat, py: nat | px < fb.width && py < fb.height && (px != x || py != y) ::
             Get(r, px, py) == Get(fb, px, py) by {
      forall px: nat, py: nat | px < fb.width && py < fb.height && (px != x || py != y)
        ensures Get(r, px, py) == Get(fb, px, py)
      {
        AtAddressesRowMajor(fb.width, fb.height, px, py);
        if At(fb.width, px, py) == At(fb.width, x, y) {
          AtInjective(fb.width, fb.height, px, py, x, y);
        }
      }
    }
    r
  }

  /** Every element of the storage is the pixel of some coordinate. */
  lemma ElementIsPixel(fb: FrameBuffer, i: nat)
    requires Valid(fb) && i < |fb.pixels|
    ensures fb.width > 0 && i % fb.width < fb.width && 0 <= i / fb.width < fb.height
    ensures fb.pixels[i] == Get(fb, i % fb.width, i / fb.width)
  {
    var px, py := i % fb.width, i / fb.width;
    RowMajorDecode(fb.width, fb.height, i);
    AtAddressesRowMajor(fb.width, fb.height, px, py);
    assert At(fb.width, px, py) == i;
  }

  /** Two valid surfaces of the same shape that agree at every coordinate are equal. */
  lemma {:induction false} Extensionality(a: FrameBuffer, b: FrameBuffer)
    requires Valid(a) && Valid(b) && SameShape(a, b)
    requires forall px: nat, py: nat | px < a.width && py < a.height :: Get(a, px, py) == Get(b, px, py)
    ensures a == b
  {
    Addressable(a);
    forall i | 0 <= i < |a.pixels|
      ensures a.pixels[i] == b.pixels[i]
    {
      ElementIsPixel(a, i);
      ElementIsPixel(b, i);
      var px, py := i % a.width, i / a.width;
      assert Get(a, px, py) == Get(b, px, py);
    }
    assert a.pixels == b.pixels;
  }

  /** The surface whose pixel at each coordinate is `f` of that coordinate and its old value. */
  function MapPixels(fb: FrameBuffer, f: (nat, nat, Pixel) -> Pixel): (r: FrameBuffer)
    requires Valid(fb)
    ensures Valid(r) && SameShape(r, fb)
    ensures forall px: nat, py: nat | px < fb.width && py < fb.height :: Get(r, px, py) == f(px, py, Get(fb, px, py))
  {
    var w := fb.width;
    var r := fb.(pixels := seq(|fb.pixels|, i requires 0 <= i < |fb.pixels| =>
                              if w == 0 then fb.pixels[i] else f(i % w, i / w, fb.pixels[i])));
    assert forall px: nat, py: nat | px < fb.width && py < fb.height :: Get(r, px, py) == f(px, py, Get(fb, px, py)) by {
      forall px: nat, py: nat | px < fb.width && py < fb.height
        ensures Get(r, px, py) == f(px, py, Get(fb, px, py))
      {
        AtDecode(fb.width, fb.height, px, py);
      }
    }
    r
  }

  // ---------------------------------------------------------------- construction and copy

  /**
   * `FrameBuffer(buffer, width, height)`: binds the caller's memory `mem` (whatever it held) and
   * clears every one of the `width * height` pixels to black.
   */
  function New(mem: seq<Pixel>, width: nat, height: nat): (r: FrameBuffer)
    requires |mem| == width * height && width < U32 && height < U32 && width * height * RGB565 < U32
    ensures Valid(r)
    ensures r.width == width && r.height == height && r.pixelFormat == RGB565
    ensures forall i | 0 <= i < |r.pixels| :: r.pixels[i] == BLACK
  {
    var fb := FrameBuffer(mem, width, height, RGB565);
    FillWholeSurface(fb, BLACK);
    Fill(fb, 0, 0, width, height, BLACK)
  }

  /** Filling the rectangle that spans the whole surface sets every element of the storage. */
  lemma FillWholeSurface(fb: FrameBuffer, color: Pixel)
    requires Valid(fb)
    ensures forall i | 0 <= i < |fb.pixels| :: Fill(fb, 0, 0, fb.width, fb.height, color).pixels[i] == color
  {
    forall i | 0 <= i < |fb.pixels|
      ensures Fill(fb, 0, 0, fb.width, fb.height, color).pixels[i] == color
    {
      FillWholeSurfaceAt(fb, color, i);
    }
  }

  /** Element `i` of the storage lies in the rectangle spanning the surface, so filling it sets it. */
  lemma FillWholeSurfaceAt(fb: FrameBuffer, color: Pixel, i: nat)
    requires Valid(fb) && i < |fb.pixels|
    ensures Fill(fb, 0, 0, fb.width, fb.height, color).pixels[i] == color
  {
    var r := Fill(fb, 0, 0, fb.width, fb.height, color);
    ElementIsPixel(r, i);
    var px, py := i % r.width, i / r.width;
    assert InRect(0, 0, fb.width, fb.height, px, py);
    assert Get(r, px, py) == color;
  }

  /** A default-constructed surface satisfies the storage invariant and a copy into it moves nothing. */
  lemma DefaultIsEmpty()
    ensures Valid(DEFAULT) && |DEFAULT.pixels| == 0 && CopiedPixels(DEFAULT) == 0
  {
  }

  /** The bytes `copyBuffer` moves: `_height * _width * _pixelFormat` of the destination, in `uint32_t`. */
  function CopyByteCount(dst: FrameBuffer): nat
  {
    (dst.height * dst.width * dst.pixelFormat) % U32
  }

  /**
   * The pixels those bytes hold. Storage that fits the address space keeps the 32-bit byte count from
   * wrapping, so an RGB565 destination is copied whole and a default one not at all.
   */
  function CopiedPixels(dst: FrameBuffer): (n: nat)
    requires Valid(dst)
    ensures dst.pixelFormat == RGB565 ==> n == |dst.pixels|
    ensures dst.pixelFormat == 0 ==> n == 0
  {
    var area := dst.width * dst.height;
    assert dst.height * dst.width == area;
    assert dst.height * dst.width * dst.pixelFormat == area * dst.pixelFormat;
    assert area * dst.pixelFormat < U32;
    CopyByteCount(dst) / RGB565
  }

  /**
   * `dst.copyBuffer(src)`: the linear copy of `CopyByteCount(dst)` bytes from `src`'s storage into
   * `dst`'s. For an RGB565 destination every pixel of `dst` becomes the pixel at the same offset of
   * `src`; the geometry of `dst` is kept.
   */
  function Copy(dst: FrameBuffer, src: FrameBuffer): (r: FrameBuffer)
    requires Valid(dst) && CopiedPixels(dst) <= |src.pixels|
    ensures Valid(r) && SameShape(r, dst)
    ensures forall i | 0 <= i < |r.pixels| ::
              r.pixels[i] == if i < CopiedPixels(dst) then src.pixels[i] else dst.pixels[i]
    ensures dst.pixelFormat == RGB565 ==> r.pixels == src.pixels[..|dst.pixels|]
  {
    var n := CopiedPixels(dst);
    dst.(pixels := src.pixels[..n] + dst.pixels[n..])
  }

  // ---------------------------------------------------------------- rectangles

  predicate InRect(x: nat, y: nat, w: nat, h: nat, px: nat, py: nat)
  {
    x <= px < x + w && y <= py < y + h
  }

  /** Every pixel `drawRectangle(x, y, w, h, ...)` writes lies on the surface. */
  predicate RectFits(fb: FrameBuffer, x: nat, y: nat, w: nat, h: nat)
  {
    w == 0 || h == 0 || (x + w <= fb.width && y + h <= fb.height)
  }

  /**
   * `drawRectangle(x, y, w, h, color)`: the pixels of `[x, x+w) x [y, y+h)` become `color`, all
   * others keep their value.
   */
  function Fill(fb: FrameBuffer, x: nat, y: nat, w: nat, h: nat, color: Pixel): (r: FrameBuffer)
    requires Valid(fb) && RectFits(fb, x, y, w, h)
    ensures Valid(r) && SameShape(r, fb)
    ensures forall px: nat, py: nat | px < fb.width && py < fb.height ::
              Get(r, px, py) == if InRect(x, y, w, h, px, py) then color else Get(fb, px, py)
  {
    MapPixels(fb, (px: nat, py: nat, prior: Pixel) => if InRect(x, y, w, h, px, py) then color else prior)
  }

  // ---------------------------------------------------------------- glyphs and text

  /** Every set bit of the glyph of `c`, drawn with its cell at `(x, y)`, lands on a `width` by `height` surface. */
  predicate GlyphFits(width: nat, height: nat, f: Font, c: bv8, x: nat, y: nat)
  {
    GlyphInRange(f, c) &&
    forall j, b | 0 <= j < CharBytes(f) && 0 <= b < BYTE_BIT_COUNT && BitAt(f, c, j, b) ::
      x + ColumnOf(f, j, b) < width && y + RowOf(f, j) < height
  }

  /** Cell of a glyph drawn at `(x, y)`: `[x, x + 8 * WidthBytes) x [y, y + Height)`, padding included. */
  predicate InCell(f: Font, x: nat, y: nat, px: nat, py: nat)
  {
    InRect(x, y, BYTE_BIT_COUNT * WidthBytes(f), f.height, px, py)
  }

  /** Pixel `(px, py)` is painted by the glyph of `c` drawn at `(x, y)`: its cell bit is set. */
  predicate Covers(f: Font, c: bv8, x: nat, y: nat, px: nat, py: nat)
  {
    InCell(f, x, y, px, py) && BitAt(f, c, ByteAt(f, px - x, py - y), BitOf(px - x))
  }

  /**
   * `putChar(c, x, y, font, color)`: pixels whose glyph bit is set become `color`; pixels of clear
   * bits and pixels outside the cell keep their value (drawing overlays, it never erases).
   */
  function PutGlyph(fb: FrameBuffer, c: bv8, x: nat, y: nat, f: Font, color: Pixel): (r: FrameBuffer)
    requires Valid(fb) && GlyphFits(fb.width, fb.height, f, c, x, y)
    ensures Valid(r) && SameShape(r, fb)
    ensures forall px: nat, py: nat | px < fb.width && py < fb.height ::
              Get(r, px, py) == if Covers(f, c, x, y, px, py) then color else Get(fb, px, py)
  {
    MapPixels(fb, (px: nat, py: nat, prior: Pixel) => if Covers(f, c, x, y, px, py) then color else prior)
  }

  /** Left edge of character `i` of a text drawn at `x`: characters advance by the font's `Width`. */
  function CharX(x: nat, i: nat, f: Font): nat
  {
    x + i * f.width
  }

  /** Each character of `text` has its glyph in the table and on the surface, at pitch `f.width`. */
  predicate TextFits(width: nat, height: nat, text: seq<bv8>, x: nat, y: nat, f: Font)
  {
    forall i | 0 <= i < |text| :: GlyphFits(width, height, f, text[i], CharX(x, i, f), y)
  }

  /** Pixel `(px, py)` is painted by one of the first `n` characters of `text`. */
  predicate TextCovers(text: seq<bv8>, n: nat, x: nat, y: nat, f: Font, px: nat, py: nat)
    requires n <= |text|
  {
    exists i | 0 <= i < n :: Covers(f, text[i], CharX(x, i, f), y, px, py)
  }

  /**
   * Drawing character `n - 1` over the first `n - 1` characters paints the pixels of the first `n`
   * characters.
   */
  lemma TextStep(fb: FrameBuffer, prev: FrameBuffer, r: FrameBuffer, text: seq<bv8>, n: nat,
                 x: nat, y: nat, cx: nat, f: Font, color: Pixel)
    requires 0 < n <= |text| && cx == CharX(x, n - 1, f)
    requires Valid(fb) && Valid(prev) && Valid(r) && SameShape(prev, fb) && SameShape(r, fb)
    requires forall px: nat, py: nat | px < fb.width && py < fb.height ::
               Get(prev, px, py) == if TextCovers(text, n - 1, x, y, f, px, py) then color else Get(fb, px, py)
    requires forall px: nat, py: nat | px < fb.width && py < fb.height ::
               Get(r, px, py) ==
                 if Covers(f, text[n - 1], cx, y, px, py) then color else Get(prev, px, py)
    ensures forall px: nat, py: nat | px < fb.width && py < fb.height ::
              Get(r, px, py) == if TextCovers(text, n, x, y, f, px, py) then color else Get(fb, px, py)
  {
    forall px: nat, py: nat | px < fb.width && py < fb.height
      ensures Get(r, px, py) == if TextCovers(text, n, x, y, f, px, py) then color else Get(fb, px, py)
    {
      var last := n - 1;
      var before := if TextCovers(text, last, x, y, f, px, py) then color else Get(fb, px, py);
      assert Get(prev, px, py) == before;
      assert Get(r, px, py) == if Covers(f, text[last], cx, y, px, py) then color else before;
      if Covers(f, text[last], cx, y, px, py) {
        assert Covers(f, text[last], CharX(x, last, f), y, px, py);
        assert TextCovers(text, n, x, y, f, px, py);
      } else if TextCovers(text, n, x, y, f, px, py) {
        var i :| 0 <= i < n && Covers(f, text[i], CharX(x, i, f), y, px, py);
        assert i != last;
        assert TextCovers(text, last, x, y, f, px, py);
      } else {
        assert !TextCovers(text, last, x, y, f, px, py);
      }
    }
  }

  /**
   * The first `n` iterations of `putText(text, x, y, font, color)`: character `i` is drawn by
   * `putChar` at `x + i * font.Width`, in increasing `i`. A pixel ends up `color` exactly when some
   * drawn glyph paints it; every other pixel keeps its value.
   */
  function PutTextPrefix(fb: FrameBuffer, text: seq<bv8>, n: nat, x: nat, y: nat, f: Font, color: Pixel): (r: FrameBuffer)
    requires Valid(fb) && n <= |text| && TextFits(fb.width, fb.height, text, x, y, f)
    ensures Valid(r) && SameShape(r, fb)
    ensures forall px: nat, py: nat | px < fb.width && py < fb.height ::
              Get(r, px, py) == if TextCovers(text, n, x, y, f, px, py) then color else Get(fb, px, py)
    decreases n
  {
    if n == 0 then fb
    else
      var prev := PutTextPrefix(fb, text, n - 1, x, y, f, color);
      var cx := CharX(x, n - 1, f);
      assert GlyphFits(fb.width, fb.height, f, text[n - 1], cx, y);
      var r := PutGlyph(prev, text[n - 1], cx, y, f, color);
      TextStep(fb, prev, r, text, n, x, y, cx, f, color);
      r
  }

  /**
   * `putText(text, x, y, font, color)`: a pixel ends up `color` exactly when the glyph of some
   * character, placed at its fixed-pitch position, paints it.
   */
  function PutText(fb: FrameBuffer, text: seq<bv8>, x: nat, y: nat, f: Font, color: Pixel): (r: FrameBuffer)
    requires Valid(fb) && TextFits(fb.width, fb.height, text, x, y, f)
    ensures Valid(r) && SameShape(r, fb)
    ensures forall px: nat, py: nat | px < fb.width && py < fb.height ::
              Get(r, px, py) == if TextCovers(text, |text|, x, y, f, px, py) then color else Get(fb, px, py)
  {
    PutTextPrefix(fb, text, |text|, x, y, f, color)
  }

  // ---------------------------------------------------------------- properties

  /**
   * The bit-by-bit reading of `putChar`: a set bit `b` of glyph byte `j` paints
   * `(x + (j % WidthBytes) * 8 + b, y + j / WidthBytes)`, which lies on the surface; a clear bit
   * leaves that pixel as it was.
   */
  lemma PutGlyphBitwise(fb: FrameBuffer, c: bv8, x: nat, y: nat, f: Font, color: Pixel, j: nat, b: nat)
    requires Valid(fb) && GlyphFits(fb.width, fb.height, f, c, x, y)
    requires j < CharBytes(f) && b < BYTE_BIT_COUNT
    ensures BitAt(f, c, j, b) ==>
              x + ColumnOf(f, j, b) < fb.width && y + RowOf(f, j) < fb.height &&
              Get(PutGlyph(fb, c, x, y, f, color), x + ColumnOf(f, j, b), y + RowOf(f, j)) == color
    ensures !BitAt(f, c, j, b) && x + ColumnOf(f, j, b) < fb.width && y + RowOf(f, j) < fb.height ==>
              Get(PutGlyph(fb, c, x, y, f, color), x + ColumnOf(f, j, b), y + RowOf(f, j)) ==
              Get(fb, x + ColumnOf(f, j, b), y + RowOf(f, j))
  {
    BitCellRoundTrip(f, j, b);
  }

  /** `putChar` never touches a pixel outside the glyph cell `[x, x + 8 * WidthBytes) x [y, y + Height)`. */
  lemma PutGlyphStaysInCell(fb: FrameBuffer, c: bv8, x: nat, y: nat, f: Font, color: Pixel)
    requires Valid(fb) && GlyphFits(fb.width, fb.height, f, c, x, y)
    ensures forall px: nat, py: nat | px < fb.width && py < fb.height && !InCell(f, x, y, px, py) ::
              Get(PutGlyph(fb, c, x, y, f, color), px, py) == Get(fb, px, py)
  {
  }

  /**
   * Fixed pitch: drawing a two-character text draws the second glyph exactly `f.width` pixels right
   * of the first, over whatever the first glyph drew.
   */
  lemma TextPitch(fb: FrameBuffer, first: bv8, second: bv8, x: nat, y: nat, f: Font, color: Pixel)
    requires Valid(fb) && TextFits(fb.width, fb.height, [first, second], x, y, f)
    ensures GlyphFits(fb.width, fb.height, f, first, x, y)
    ensures GlyphFits(fb.width, fb.height, f, second, x + f.width, y)
    ensures PutText(fb, [first, second], x, y, f, color) ==
            PutGlyph(PutGlyph(fb, first, x, y, f, color), second, x + f.width, y, f, color)
  {
    var text := [first, second];
    assert GlyphFits(fb.width, fb.height, f, text[0], CharX(x, 0, f), y);
    assert GlyphFits(fb.width, fb.height, f, text[1], CharX(x, 1, f), y);
    assert PutTextPrefix(fb, text, 1, x, y, f, color) == PutGlyph(fb, first, x, y, f, color);
  }

  /**
   * On a 4 x 4 surface, clearing everything and then filling the inner 2 x 2 block with white leaves
   * the border black and the block white.
   */
  lemma FourByFourScenario(mem: seq<Pixel>)
    requires |mem| == 16
    ensures var cleared := Fill(New(mem, 4, 4), 0, 0, 4, 4, 0x0000);
            var r := Fill(cleared, 1, 1, 2, 2, 0xFFFF);
            forall px: nat, py: nat | px < 4 && py < 4 ::
              Get(r, px, py) == if 1 <= px < 3 && 1 <= py < 3 then 0xFFFF else 0x0000
  {
  }
}
