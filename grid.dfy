/**
 * Row-major layout shared by every buffer of the engine: the host-side float
 * buffers of the OpenCL programs and the cv::Mat images of the scalar ones
 * store cell (row, col) of a `width`-wide grid at offset row * width + col.
 */
module Grid {

  /** Offset of cell (row, col) in a row-major buffer `width` cells wide. */
  function Idx(row: int, col: int, width: int): int {
    row * width + col
  }

  lemma MulAtLeast(k: int, w: int)
    requires k >= 1 && w > 0
    ensures k * w >= w
  {
  }

  /** A cell inside a width x height grid has an offset inside the buffer. */
  lemma IdxBounds(row: int, col: int, width: int, height: int)
    requires 0 <= row < height && 0 <= col < width
    ensures 0 <= Idx(row, col, width) < width * height
  {
    assert row * width <= (height - 1) * width;
  }

  /** Rows [0, row) of a width x height grid fill a prefix of the buffer. */
  lemma RowStart(row: int, width: nat, height: nat)
    requires 0 <= row <= height
    ensures 0 <= Idx(row, 0, width) <= width * height
  {
    assert row * width <= height * width;
  }

  /** The offset determines the cell: dividing by the width recovers row and column. */
  lemma IdxDivMod(row: int, col: int, width: int)
    requires 0 <= col < width
    ensures Idx(row, col, width) / width == row
    ensures Idx(row, col, width) % width == col
  {
    var p := Idx(row, col, width);
    var q, m := p / width, p % width;
    assert q * width + m == row * width + col;
    assert (q - row) * width == col - m;
    if q > row {
      MulAtLeast(q - row, width);
    }
    if q < row {
      MulAtLeast(row - q, width);
    }
  }

  /** Every offset is the offset of the cell its quotient and remainder name. */
  lemma IdxOfDivMod(p: int, width: int)
    requires width > 0
    ensures 0 <= p % width < width
    ensures p == Idx(p / width, p % width, width)
  {
  }

  /** Distinct cells of a grid have distinct offsets. */
  lemma IdxInjective(r1: int, c1: int, r2: int, c2: int, width: int)
    requires 0 <= c1 < width && 0 <= c2 < width
    requires Idx(r1, c1, width) == Idx(r2, c2, width)
    ensures r1 == r2 && c1 == c2
  {
    IdxDivMod(r1, c1, width);
    IdxDivMod(r2, c2, width);
  }

  /**
   * A decoded 8-bit grayscale image (cv::Mat read with IMREAD_GRAYSCALE):
   * rows x cols samples in row-major order.  A failed decode yields an empty
   * image, one without any sample.
   */
  datatype Mat = Mat(rows: nat, cols: nat, pixels: seq<int>) {
    predicate Empty() {
      rows == 0 || cols == 0
    }

    /** What the decoder guarantees: one sample per pixel, each in 0..255. */
    predicate WellFormed() {
      && |pixels| == rows * cols
      && forall k :: 0 <= k < |pixels| ==> 0 <= pixels[k] <= 255
    }
  }
}
