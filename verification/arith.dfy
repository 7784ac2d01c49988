/** Unsigned 32-bit range and the row-major index arithmetic shared by frame buffers and glyph tables. */
module Arith {

  /** 2^32: the size of the `uint32_t` and 32-bit `size_t` value ranges of the target. */
  const U32: nat := 0x1_0000_0000

  /** C's logical negation `!v` of an unsigned value, read back as an integer. */
  function LogicalNot(v: nat): (r: nat)
    ensures r < 2
    ensures r == 1 <==> v == 0
  {
    if v == 0 then 1 else 0
  }

  lemma MulMonotone(a: nat, b: nat, c: nat)
    requires a <= b
    ensures a * c <= b * c
  {
  }

  /** The element `y * width + x` of a `width`-wide row-major grid with `height` rows lies inside it. */
  lemma RowMajorBound(width: nat, height: nat, x: nat, y: nat)
    requires x < width && y < height
    ensures y * width + x < width * height
  {
    MulMonotone(y + 1, height, width);
  }

  /** Quotient and remainder are unique: `n == q * d + r` with `r < d` pins down `n / d` and `n % d`. */
  lemma DivModUnique(n: nat, d: nat, q: nat, r: nat)
    requires r < d
    requires n == q * d + r
    ensures n / d == q && n % d == r
  {
    var q', r' := n / d, n % d;
    assert n == q' * d + r';
    if q' < q {
      MulMonotone(q' + 1, q, d);
    } else if q < q' {
      MulMonotone(q + 1, q', d);
    }
  }

  /** Every offset of a row-major grid decodes to a column and row inside the grid. */
  lemma RowMajorDecode(width: nat, height: nat, i: nat)
    requires i < width * height
    ensures width > 0
    ensures i % width < width && 0 <= i / width < height
    ensures (i / width) * width + i % width == i
  {
    if i / width >= height {
      MulMonotone(height, i / width, width);
    }
  }
}
