/**
 * The first scalar program: applyConvolution, a "valid" convolution that
 * reads the unpadded image directly, computes only the pixels whose whole
 * window lies inside the image, and leaves a `pad`-wide border of zeros.
 */
module Serial {
  import opened Grid
  import opened Padding
  import opened Stencil
  import SerialQ1

  /** The vertical-edge kernel of this program. */
  const EdgeKernel: seq<seq<int>> := [[1, 0, -1], [1, 0, -1], [1, 0, -1]]

  /** A pixel whose whole window lies inside the image, the ones the loops visit. */
  predicate InteriorPixel(i: int, j: int, rows: int, cols: int, pad: int) {
    pad <= i < rows - pad && pad <= j < cols - pad
  }

  /** Output (i, j) of applyConvolution: the window centred on (i, j) on the interior, 0 elsewhere. */
  function ValidAt(image: seq<int>, rows: nat, cols: nat, kernel: seq<seq<int>>, i: int, j: int): int
    requires IsKernel(kernel)
  {
    var pad := |kernel| / 2;
    if InteriorPixel(i, j, rows, cols, pad) then Window(kernel, image, cols, i - pad, j - pad) else 0
  }

  /** Cell (r, c) comes before cell (i, j) in row-major order. */
  predicate Before(r: int, c: int, i: int, j: int) {
    r < i || (r == i && c < j)
  }

  /** The loops have stored every output before (i, j); all later cells still hold the initial 0. */
  ghost predicate ValidUpTo(out: seq<int>, image: seq<int>, rows: nat, cols: nat, kernel: seq<seq<int>>, i: int, j: int)
    requires IsKernel(kernel)
  {
    forall r, c :: 0 <= r < rows && 0 <= c < cols ==>
      At(out, cols, r, c) == if Before(r, c, i, j) then ValidAt(image, rows, cols, kernel, r, c) else 0
  }

  lemma ValidUpToStart(out: seq<int>, image: seq<int>, rows: nat, cols: nat, kernel: seq<seq<int>>)
    requires IsKernel(kernel)
    requires forall p :: 0 <= p < |out| ==> out[p] == 0
    ensures ValidUpTo(out, image, rows, cols, kernel, |kernel| / 2, |kernel| / 2)
  {
  }

  /** Storing the response of interior pixel (i, j) advances the loops by one cell. */
  lemma ValidUpToStep(out: seq<int>, image: seq<int>, rows: nat, cols: nat, kernel: seq<seq<int>>,
                      i: int, j: int, v: int)
    requires IsKernel(kernel)
    requires |out| == rows * cols && 0 <= i < rows && 0 <= j < cols
    requires ValidUpTo(out, image, rows, cols, kernel, i, j)
    requires v == ValidAt(image, rows, cols, kernel, i, j)
    ensures 0 <= Idx(i, j, cols) < |out|
    ensures ValidUpTo(out[Idx(i, j, cols) := v], image, rows, cols, kernel, i, j + 1)
  {
    IdxBounds(i, j, cols, rows);
    var out' := out[Idx(i, j, cols) := v];
    forall r, c | 0 <= r < rows && 0 <= c < cols
      ensures At(out', cols, r, c) == if Before(r, c, i, j + 1) then ValidAt(image, rows, cols, kernel, r, c) else 0
    {
      IdxBounds(r, c, cols, rows);
      if (r, c) != (i, j) {
        if Idx(r, c, cols) == Idx(i, j, cols) {
          IdxInjective(r, c, i, j, cols);
        }
        assert At(out', cols, r, c) == At(out, cols, r, c);
      }
    }
  }

  /** Past the last interior column the rest of the row is border: move to the next row. */
  lemma ValidUpToRowDone(out: seq<int>, image: seq<int>, rows: nat, cols: nat, kernel: seq<seq<int>>,
                         i: int, j: int)
    requires IsKernel(kernel)
    requires j >= cols - |kernel| / 2
    requires ValidUpTo(out, image, rows, cols, kernel, i, j)
    ensures ValidUpTo(out, image, rows, cols, kernel, i + 1, |kernel| / 2)
  {
  }

  /** Past the last interior row the rest of the image is border: every cell holds its output. */
  lemma ValidUpToDone(out: seq<int>, image: seq<int>, rows: nat, cols: nat, kernel: seq<seq<int>>, i: int)
    requires IsKernel(kernel)
    requires i >= rows - |kernel| / 2
    requires ValidUpTo(out, image, rows, cols, kernel, i, |kernel| / 2)
    ensures forall r, c :: 0 <= r < rows && 0 <= c < cols ==> At(out, cols, r, c) == ValidAt(image, rows, cols, kernel, r, c)
  {
  }

  /**
   * applyConvolution: a zero output of the image's size, then for each pixel
   * (i, j) with pad <= i < rows - pad and pad <= j < cols - pad the
   * kernel-weighted sum of the image samples (i + ki, j + kj).
   */
  method ApplyConvolution(image: seq<int>, rows: nat, cols: nat, kernel: seq<seq<int>>) returns (output: seq<int>)
    requires |image| == rows * cols
    requires IsKernel(kernel)
    ensures |output| == rows * cols
    ensures forall i, j :: 0 <= i < rows && 0 <= j < cols && InteriorPixel(i, j, rows, cols, |kernel| / 2) ==>
              At(output, cols, i, j) == Window(kernel, image, cols, i - |kernel| / 2, j - |kernel| / 2)
    ensures forall i, j :: 0 <= i < rows && 0 <= j < cols && !InteriorPixel(i, j, rows, cols, |kernel| / 2) ==>
              At(output, cols, i, j) == 0
  {
    var pad := |kernel| / 2;
    var out := new int[rows * cols](_ => 0);
    ValidUpToStart(out[..], image, rows, cols, kernel);
    var i := pad;
    while i < rows - pad
      invariant pad <= i
      invariant ValidUpTo(out[..], image, rows, cols, kernel, i, pad)
    {
      var j := pad;
      while j < cols - pad
        invariant pad <= j
        invariant ValidUpTo(out[..], image, rows, cols, kernel, i, j)
      {
        var sum := KernelSum(kernel, image, cols, rows, i - pad, j - pad);
        ValidUpToStep(out[..], image, rows, cols, kernel, i, j, sum);
        out[Idx(i, j, cols)] := sum;
        j := j + 1;
      }
      ValidUpToRowDone(out[..], image, rows, cols, kernel, i, j);
      i := i + 1;
    }
    output := out[..];
    ValidUpToDone(output, image, rows, cols, kernel, i);
  }

  /** Every sample an interior pixel reads lies inside the rows x cols image. */
  lemma ValidReadsInBounds(rows: nat, cols: nat, kSize: nat, i: int, j: int, ki: int, kj: int)
    requires InteriorPixel(i, j, rows, cols, kSize / 2)
    requires -(kSize / 2) <= ki <= kSize / 2 && -(kSize / 2) <= kj <= kSize / 2
    ensures 0 <= i + ki < rows && 0 <= j + kj < cols
    ensures 0 <= Idx(i + ki, j + kj, cols) < rows * cols
  {
    IdxBounds(i + ki, j + kj, cols, rows);
  }

  /** An image too small to have an interior pixel gives an all-zero output. */
  lemma SmallImageAllZero(image: seq<int>, rows: nat, cols: nat, kernel: seq<seq<int>>, i: int, j: int)
    requires IsKernel(kernel)
    requires rows <= 2 * (|kernel| / 2) || cols <= 2 * (|kernel| / 2)
    ensures ValidAt(image, rows, cols, kernel, i, j) == 0
  {
  }

  /**
   * On interior pixels the valid convolution and the zero-padded one of
   * apply_Conv agree: the padded window centred on (i, j) reads exactly the
   * image samples the unpadded one does.
   */
  lemma ValidAgreesWithSame(image: seq<int>, rows: nat, cols: nat, kernel: seq<seq<int>>, i: int, j: int)
    requires |image| == rows * cols && IsKernel(kernel)
    requires InteriorPixel(i, j, rows, cols, |kernel| / 2)
    ensures ValidAt(image, rows, cols, kernel, i, j) == SerialQ1.SameAt(image, rows, cols, kernel, i, j)
  {
    var pad := |kernel| / 2;
    var paddedWidth, paddedHeight := cols + 2 * pad, rows + 2 * pad;
    var padded := Pad(image, cols, rows, pad, 0);
    forall r, c | i - pad <= r < i - pad + |kernel| && j - pad <= c < j - pad + |kernel|
      ensures At(image, cols, r, c) == At(padded, paddedWidth, r - (i - pad) + i, c - (j - pad) + j)
    {
      AtInside(image, cols, rows, r, c);
      AtInside(padded, paddedWidth, paddedHeight, r + pad, c + pad);
      PadInterior(image, cols, rows, pad, 0, r, c);
    }
    WindowSumCongruent(kernel, image, cols, i - pad, j - pad, padded, paddedWidth, i, j, |kernel|);
  }

  /** With the vertical-edge kernel and 8-bit pixels, every output lies in [-765, 765]. */
  lemma ValidAtBounded(image: seq<int>, rows: nat, cols: nat, i: int, j: int)
    requires |image| == rows * cols
    requires forall k :: 0 <= k < |image| ==> 0 <= image[k] <= 255
    ensures IsKernel(EdgeKernel)
    ensures -765 <= ValidAt(image, rows, cols, EdgeKernel, i, j) <= 765
  {
    assert EdgeKernel == SerialQ1.Kernel;
    SerialQ1.KernelMass();
    if InteriorPixel(i, j, rows, cols, 1) {
      WindowSumBounds(EdgeKernel, image, cols, i - 1, j - 1, 3, 255);
    }
  }
}
