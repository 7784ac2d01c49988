/**
 * The bitmap font resource `sFONT`: a fixed glyph width and height and a byte table holding one glyph
 * after another, starting with the space character. Each glyph row takes `WidthBytes` bytes, most
 * significant bit first. The table contents are an input; nothing here fixes a particular font.
 */
module Fonts {
  import opened Arith

  datatype Font = Font(width: nat, height: nat, table: seq<bv8>)

  /** The character whose glyph comes first in the table: `' '`. */
  const FIRST_CHAR: nat := 32

  const BYTE_BIT_COUNT: nat := 8

  /**
   * `((Width - 1) / 8) + 1`: the bytes per glyph row. The subtraction happens in `int` after
   * promotion of the 16-bit width and C division truncates toward zero, so a zero width gives one
   * byte rather than zero.
   */
  function WidthBytes(f: Font): (wb: nat)
    ensures wb >= 1
    ensures f.width <= BYTE_BIT_COUNT * wb
    ensures wb == 1 || BYTE_BIT_COUNT * (wb - 1) < f.width
  {
    if f.width == 0 then 1 else (f.width - 1) / BYTE_BIT_COUNT + 1
  }

  /** Bytes per glyph: `widthBytes * Height`. */
  function CharBytes(f: Font): nat
  {
    WidthBytes(f) * f.height
  }

  /**
   * The glyph of `c` is read from `table[CharBytes * (c - ' ') ..][.. CharBytes]`. Those reads stay
   * inside the table exactly when the glyph is empty, or `c` is not below the space character and the
   * whole glyph ends inside the table; a character below the space wraps the offset to before the table.
   */
  predicate GlyphInRange(f: Font, c: bv8)
  {
    CharBytes(f) == 0 ||
    (c as nat >= FIRST_CHAR && GlyphOffset(f, c) + CharBytes(f) <= |f.table|)
  }

  /** Where the glyph of `c` starts in the table: `charBytes * (character - ' ')`. */
  function GlyphOffset(f: Font, c: bv8): nat
    requires c as nat >= FIRST_CHAR
  {
    var index: nat := c as nat - FIRST_CHAR;
    MulMonotone(0, index, CharBytes(f));
    CharBytes(f) * index
  }

  /** Byte `j` of the glyph of `c`: `charAddress[j]`. */
  function GlyphByte(f: Font, c: bv8, j: nat): (b: bv8)
    requires GlyphInRange(f, c) && j < CharBytes(f)
    ensures c as nat >= FIRST_CHAR
    ensures GlyphOffset(f, c) + j < |f.table|
    ensures b == f.table[GlyphOffset(f, c) + j]
  {
    assert c as nat >= FIRST_CHAR && GlyphOffset(f, c) + CharBytes(f) <= |f.table|;
    f.table[GlyphOffset(f, c) + j]
  }

  /** `(0x80 >> b) & byte` is non-zero: bit `b` of `byte`, counting from the most significant. */
  predicate BitSet(byte: bv8, b: nat)
    requires b < BYTE_BIT_COUNT
  {
    byte & (0x80 >> b) != 0
  }

  /** Bit `b` of glyph byte `j` of `c` is set. */
  predicate BitAt(f: Font, c: bv8, j: nat, b: nat)
  {
    GlyphInRange(f, c) && j < CharBytes(f) && b < BYTE_BIT_COUNT && BitSet(GlyphByte(f, c, j), b)
  }

  /** The column, within the glyph cell, that bit `b` of glyph byte `j` paints. */
  function ColumnOf(f: Font, j: nat, b: nat): nat
  {
    (j % WidthBytes(f)) * BYTE_BIT_COUNT + b
  }

  /** The row, within the glyph cell, that glyph byte `j` paints. */
  function RowOf(f: Font, j: nat): nat
  {
    j / WidthBytes(f)
  }

  /** The glyph byte that holds the bit for cell column `col` of cell row `row`. */
  function ByteAt(f: Font, col: nat, row: nat): nat
  {
    row * WidthBytes(f) + col / BYTE_BIT_COUNT
  }

  /** The bit, within `ByteAt(f, col, row)`, for cell column `col`. */
  function BitOf(col: nat): nat
  {
    col % BYTE_BIT_COUNT
  }

  /**
   * Every bit of the glyph paints a distinct cell position inside the `8 * WidthBytes` by `Height`
   * cell, and reading that position back names the same byte and bit.
   */
  lemma {:induction false} BitCellRoundTrip(f: Font, j: nat, b: nat)
    requires j < CharBytes(f) && b < BYTE_BIT_COUNT
    ensures ColumnOf(f, j, b) < BYTE_BIT_COUNT * WidthBytes(f)
    ensures RowOf(f, j) < f.height
    ensures ByteAt(f, ColumnOf(f, j, b), RowOf(f, j)) == j
    ensures BitOf(ColumnOf(f, j, b)) == b
  {
    var wb := WidthBytes(f);
    RowMajorDecode(wb, f.height, j);
    DivModUnique(ColumnOf(f, j, b), BYTE_BIT_COUNT, j % wb, b);
  }

  /** Every position of the glyph cell is painted by exactly one bit of the glyph. */
  lemma {:induction false} CellBitRoundTrip(f: Font, col: nat, row: nat)
    requires col < BYTE_BIT_COUNT * WidthBytes(f) && row < f.height
    ensures ByteAt(f, col, row) < CharBytes(f)
    ensures BitOf(col) < BYTE_BIT_COUNT
    ensures ColumnOf(f, ByteAt(f, col, row), BitOf(col)) == col
    ensures RowOf(f, ByteAt(f, col, row)) == row
  {
    var wb := WidthBytes(f);
    RowMajorBound(wb, f.height, col / BYTE_BIT_COUNT, row);
    DivModUnique(ByteAt(f, col, row), wb, row, col / BYTE_BIT_COUNT);
  }
}
