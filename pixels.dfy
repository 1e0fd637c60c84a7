/**
 * Bytes of a pixel buffer and the integer facts behind row-major addressing:
 * pixel (x, y) of a buffer `width` pixels wide is pixel number `y * width + x`.
 */
module Pixels {

  /** One channel of an 8-bit image (a `Uint8ClampedArray` or `CV_8U` element). */
  type Byte = x: int | 0 <= x < 256

  lemma MulAtLeast(k: int, d: int)
    requires 1 <= k && 0 < d
    ensures k * d >= d
  {
    assert k * d == (k - 1) * d + d;
  }
  lemma MulWithin(k: int, d: int)
    requires 0 < d && -d < k * d < d
    ensures k == 0
  {
  }
  lemma DivModUnique(a: int, d: int, q: int, r: int)
    requires 0 < d && a == q * d + r && 0 <= r < d
    ensures a / d == q && a % d == r
  {
    var q', r' := a / d, a % d;
    assert (q - q') * d == r' - r;
    MulWithin(q - q', d);
  }
  lemma RowMajorBound(i: int, j: int, rows: int, cols: int)
    requires 0 <= i < rows && 0 <= j < cols
    ensures 0 <= i * cols + j < rows * cols
  {
    MulAtLeast(rows - i, cols);
    assert rows * cols == (rows - i) * cols + i * cols;
    assert i * cols >= 0;
  }
  lemma ProductPositive(a: int, b: int)
    requires a >= 0 && a * b > 0
    ensures b > 0
  {
  }
  lemma MulLess(y: int, rows: int, cols: int)
    requires 0 < cols && y * cols < rows * cols
    ensures y < rows
  {
    assert (rows - y) * cols > 0;
    ProductPositive(cols, rows - y);
  }
  lemma RowMajorSplit(k: int, rows: int, cols: int)
    requires 0 <= rows && 0 <= k < rows * cols
    ensures 0 < cols && 0 <= k / cols < rows && 0 <= k % cols < cols
    ensures k == (k / cols) * cols + k % cols
  {
    ProductPositive(rows, cols);
    var y := k / cols;
    assert k == y * cols + k % cols;
    MulLess(y, rows, cols);
  }
}
