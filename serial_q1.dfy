/**
 * The scalar reference program: apply_Conv, a zero-padded "same" convolution
 * (one output per input pixel, samples outside the image read as 0), and the
 * batch loop that convolves every readable .png/.jpg image of the chosen
 * resolution bucket, skipping unreadable files.
 */
module SerialQ1 {
  import opened Grid
  import opened Padding
  import opened Stencil
  import Cli
  import opened Files

  /** The vertical-edge kernel of the scalar programs. */
  const Kernel: seq<seq<int>> := [[1, 0, -1], [1, 0, -1], [1, 0, -1]]

  /**
   * Output (i, j) of apply_Conv: the kernel applied to the window of the
   * zero-padded image whose top-left padded cell is (i, j), i.e. the window
   * centred on image pixel (i, j).
   */
  function SameAt(image: seq<int>, rows: nat, cols: nat, kernel: seq<seq<int>>, i: int, j: int): int
    requires |image| == rows * cols && IsKernel(kernel)
  {
    var pad := |kernel| / 2;
    Window(kernel, Pad(image, cols, rows, pad, 0), cols + 2 * pad, i, j)
  }

  /** The first `done` cells of `out`, in row-major order, hold the apply_Conv result. */
  ghost predicate SameUpTo(out: seq<int>, image: seq<int>, rows: nat, cols: nat, kernel: seq<seq<int>>, done: int)
    requires |image| == rows * cols && IsKernel(kernel)
  {
    forall p :: 0 <= p < done && p < |out| && 0 < cols ==>
      out[p] == SameAt(image, rows, cols, kernel, p / cols, p % cols)
  }

  lemma SameUpToStep(out: seq<int>, image: seq<int>, rows: nat, cols: nat, kernel: seq<seq<int>>,
                     i: int, j: int, v: int)
    requires |image| == rows * cols && IsKernel(kernel)
    requires |out| == rows * cols && 0 <= i < rows && 0 <= j < cols
    requires SameUpTo(out, image, rows, cols, kernel, Idx(i, j, cols))
    requires v == SameAt(image, rows, cols, kernel, i, j)
    ensures 0 <= Idx(i, j, cols) < |out|
    ensures SameUpTo(out[Idx(i, j, cols) := v], image, rows, cols, kernel, Idx(i, j, cols) + 1)
  {
    IdxBounds(i, j, cols, rows);
    IdxDivMod(i, j, cols);
  }

  lemma SameUpToAll(out: seq<int>, image: seq<int>, rows: nat, cols: nat, kernel: seq<seq<int>>)
    requires |image| == rows * cols && IsKernel(kernel)
    requires |out| == rows * cols
    requires SameUpTo(out, image, rows, cols, kernel, rows * cols)
    ensures forall i, j :: 0 <= i < rows && 0 <= j < cols ==> At(out, cols, i, j) == SameAt(image, rows, cols, kernel, i, j)
  {
    forall i, j | 0 <= i < rows && 0 <= j < cols
      ensures At(out, cols, i, j) == SameAt(image, rows, cols, kernel, i, j)
    {
      IdxBounds(i, j, cols, rows);
      IdxDivMod(i, j, cols);
    }
  }

  /**
   * apply_Conv: pad the image with a zero border `pad` wide, then for every
   * pixel accumulate the kernel-weighted sum over its window and store it.
   * The border is built by the same Pad that models padImage.  Output pixel
   * (i, j) is read with At, the row-major accessor.
   */
  method ApplyConv(image: seq<int>, rows: nat, cols: nat, kernel: seq<seq<int>>) returns (output: seq<int>)
    requires |image| == rows * cols
    requires IsKernel(kernel)
    ensures |output| == rows * cols
    ensures forall i, j :: 0 <= i < rows && 0 <= j < cols ==>
              At(output, cols, i, j) == SameAt(image, rows, cols, kernel, i, j)
  {
    var kSize := |kernel|;
    var pad := kSize / 2;
    var paddedWidth := cols + 2 * pad;
    var paddedHeight := rows + 2 * pad;
    var padded := Pad(image, cols, rows, pad, 0);
    var out := new int[rows * cols](_ => 0);
    var i := 0;
    while i < rows
      invariant 0 <= i <= rows
      invariant SameUpTo(out[..], image, rows, cols, kernel, Idx(i, 0, cols))
    {
      var j := 0;
      while j < cols
        invariant 0 <= j <= cols
        invariant SameUpTo(out[..], image, rows, cols, kernel, Idx(i, j, cols))
      {
        var sum := KernelSum(kernel, padded, paddedWidth, paddedHeight, i, j);
        SameUpToStep(out[..], image, rows, cols, kernel, i, j, sum);
        out[Idx(i, j, cols)] := sum;
        j := j + 1;
      }
      assert Idx(i, cols, cols) == Idx(i + 1, 0, cols);
      i := i + 1;
    }
    output := out[..];
    SameUpToAll(output, image, rows, cols, kernel);
  }

  /** Every sample apply_Conv reads lies inside the (rows + 2*pad) x (cols + 2*pad) padded image. */
  lemma SameReadsInBounds(rows: nat, cols: nat, kSize: nat, i: int, j: int, ki: int, kj: int)
    requires kSize % 2 == 1
    requires 0 <= i < rows && 0 <= j < cols
    requires -(kSize / 2) <= ki <= kSize / 2 && -(kSize / 2) <= kj <= kSize / 2
    ensures 0 <= i + ki + kSize / 2 < rows + 2 * (kSize / 2)
    ensures 0 <= j + kj + kSize / 2 < cols + 2 * (kSize / 2)
    ensures 0 <= Idx(i + ki + kSize / 2, j + kj + kSize / 2, cols + 2 * (kSize / 2))
              < (cols + 2 * (kSize / 2)) * (rows + 2 * (kSize / 2))
  {
    var pad := kSize / 2;
    IdxBounds(i + ki + pad, j + kj + pad, cols + 2 * pad, rows + 2 * pad);
  }

  /** An all-zero image has an all-zero response, whatever the kernel. */
  lemma SameAtZeroImage(image: seq<int>, rows: nat, cols: nat, kernel: seq<seq<int>>, i: int, j: int)
    requires |image| == rows * cols && IsKernel(kernel)
    requires forall k :: 0 <= k < |image| ==> image[k] == 0
    ensures SameAt(image, rows, cols, kernel, i, j) == 0
  {
    var pad := |kernel| / 2;
    var padded := Pad(image, cols, rows, pad, 0);
    PadValues(image, cols, rows, pad, 0);
    WindowSumOfZeros(kernel, padded, cols + 2 * pad, i, j, |kernel|);
  }

  /** With pixels in [0, hi] the response lies between -NegativeMass*hi and PositiveMass*hi. */
  lemma SameAtRange(image: seq<int>, rows: nat, cols: nat, kernel: seq<seq<int>>, hi: nat, i: int, j: int)
    requires |image| == rows * cols && IsKernel(kernel)
    requires SamplesIn(image, hi)
    ensures SameAt(image, rows, cols, kernel, i, j) + NegativeMass(kernel, |kernel|) * hi >= 0
    ensures SameAt(image, rows, cols, kernel, i, j) <= PositiveMass(kernel, |kernel|) * hi
  {
    var pad := |kernel| / 2;
    var padded := Pad(image, cols, rows, pad, 0);
    PadValues(image, cols, rows, pad, 0);
    WindowSumBounds(kernel, padded, cols + 2 * pad, i, j, |kernel|, hi);
  }

  /** The vertical-edge kernel: three +1 weights, three -1 weights. */
  lemma KernelMass()
    ensures IsKernel(Kernel) && |Kernel| == 3
    ensures PositiveMass(Kernel, 3) == 3 && NegativeMass(Kernel, 3) == 3
  {
  }

  /** With the vertical-edge kernel and 8-bit pixels, every output lies in [-765, 765]. */
  lemma SameAtBounded(image: seq<int>, rows: nat, cols: nat, i: int, j: int)
    requires |image| == rows * cols
    requires forall k :: 0 <= k < |image| ==> 0 <= image[k] <= 255
    ensures IsKernel(Kernel)
    ensures -765 <= SameAt(image, rows, cols, Kernel, i, j) <= 765
  {
    KernelMass();
    SameAtRange(image, rows, cols, Kernel, 255, i, j);
  }

  /** 1 when x is a valid index below n, else 0. */
  function Inside(x: int, n: int): int {
    if 0 <= x < n then 1 else 0
  }

  /** A padded sample of a constant image: the constant inside the image, 0 on the border. */
  lemma ConstantSample(image: seq<int>, rows: nat, cols: nat, c: int, r: int, col: int)
    requires |image| == rows * cols
    requires forall k :: 0 <= k < |image| ==> image[k] == c
    requires 0 <= r < rows + 2 && 0 <= col < cols + 2
    ensures At(Pad(image, cols, rows, 1, 0), cols + 2, r, col) == if 1 <= r <= rows && 1 <= col <= cols then c else 0
  {
    var padded := Pad(image, cols, rows, 1, 0);
    PadCell(image, cols, rows, 1, 0, r, col);
    AtInside(padded, cols + 2, rows + 2, r, col);
    if 1 <= r <= rows && 1 <= col <= cols {
      IdxBounds(r - 1, col - 1, cols, rows);
      assert PadAt(image, cols, rows, 1, 0, r, col) == image[Idx(r - 1, col - 1, cols)];
    } else {
      assert PadAt(image, cols, rows, 1, 0, r, col) == 0;
    }
  }

  /** Column factor of the vertical-edge kernel on a constant image: -1 on the first column, +1 on the last, else 0. */
  function EdgeFactor(j: int, cols: int): int {
    Inside(j - 1, cols) - Inside(j + 1, cols)
  }

  /** Number of image rows the 3-row window centred on row i covers. */
  function RowsCovered(i: int, rows: int): int {
    Inside(i - 1, rows) + Inside(i, rows) + Inside(i + 1, rows)
  }

  /** One kernel row [1, 0, -1] over a constant image. */
  lemma ConstantRow(image: seq<int>, rows: nat, cols: nat, c: int, r: int, j: int)
    requires |image| == rows * cols
    requires forall k :: 0 <= k < |image| ==> image[k] == c
    requires 0 <= r < rows + 2 && 0 <= j < cols
    ensures RowSum([1, 0, -1], Pad(image, cols, rows, 1, 0), cols + 2, r, j, 3)
         == if 1 <= r <= rows then c * EdgeFactor(j, cols) else 0
  {
    var padded := Pad(image, cols, rows, 1, 0);
    var row: seq<int> := [1, 0, -1];
    ConstantSample(image, rows, cols, c, r, j);
    ConstantSample(image, rows, cols, c, r, j + 1);
    ConstantSample(image, rows, cols, c, r, j + 2);
    assert RowSum(row, padded, cols + 2, r, j, 1) == At(padded, cols + 2, r, j);
    assert RowSum(row, padded, cols + 2, r, j, 2) == At(padded, cols + 2, r, j);
    assert RowSum(row, padded, cols + 2, r, j, 3) == At(padded, cols + 2, r, j) - At(padded, cols + 2, r, j + 2);
    var b, d := Inside(j - 1, cols), Inside(j + 1, cols);
    if 1 <= r <= rows {
      assert c * (b - d) == c * b - c * d;
    }
  }

  /**
   * For a constant image the vertical-edge kernel measures only the image
   * border: c times the number of image rows the window covers, times -1 on
   * the first column, +1 on the last column and 0 on every column in between
   * (a one-column image has both edges and gives 0).
   */
  lemma ConstantImageResponse(image: seq<int>, rows: nat, cols: nat, c: int, i: int, j: int)
    requires |image| == rows * cols
    requires forall k :: 0 <= k < |image| ==> image[k] == c
    requires 0 <= i < rows && 0 <= j < cols
    ensures IsKernel(Kernel)
    ensures SameAt(image, rows, cols, Kernel, i, j) == c * EdgeFactor(j, cols) * RowsCovered(i, rows)
  {
    KernelMass();
    var padded := Pad(image, cols, rows, 1, 0);
    assert Kernel[0] == [1, 0, -1] && Kernel[1] == [1, 0, -1] && Kernel[2] == [1, 0, -1];
    var x := c * EdgeFactor(j, cols);
    var u, v, w := Inside(i - 1, rows), Inside(i, rows), Inside(i + 1, rows);
    var r0 := RowSum(Kernel[0], padded, cols + 2, i, j, 3);
    var r1 := RowSum(Kernel[1], padded, cols + 2, i + 1, j, 3);
    var r2 := RowSum(Kernel[2], padded, cols + 2, i + 2, j, 3);
    ConstantRow(image, rows, cols, c, i, j);
    ConstantRow(image, rows, cols, c, i + 1, j);
    ConstantRow(image, rows, cols, c, i + 2, j);
    ScaleByIndicator(x, u);
    ScaleByIndicator(x, v);
    ScaleByIndicator(x, w);
    assert r0 == x * u && r1 == x * v && r2 == x * w;
    assert WindowSum(Kernel, padded, cols + 2, i, j, 1) == r0;
    assert WindowSum(Kernel, padded, cols + 2, i, j, 2) == r0 + r1;
    assert WindowSum(Kernel, padded, cols + 2, i, j, 3) == r0 + r1 + r2;
    SumOfScaled(x, u, v, w);
    assert SameAt(image, rows, cols, Kernel, i, j) == WindowSum(Kernel, padded, cols + 2, i, j, 3);
  }

  lemma ScaleByIndicator(x: int, u: int)
    requires u == 0 || u == 1
    ensures x * u == if u == 1 then x else 0
  {
  }

  lemma SumOfScaled(x: int, u: int, v: int, w: int)
    ensures x * u + x * v + x * w == x * (u + v + w)
  {
  }

  /** For a constant image the response is 0 on every column with a neighbour on both sides. */
  lemma ConstantImageInteriorColumns(image: seq<int>, rows: nat, cols: nat, c: int, i: int, j: int)
    requires |image| == rows * cols
    requires forall k :: 0 <= k < |image| ==> image[k] == c
    requires 0 <= i < rows && 0 < j < cols - 1
    ensures IsKernel(Kernel)
    ensures SameAt(image, rows, cols, Kernel, i, j) == 0
  {
    ConstantImageResponse(image, rows, cols, c, i, j);
  }

  // ---------------------------------------------------------------------
  // The batch loop of main

  predicate IsImageFile(e: Entry) {
    e.extension == ".png" || e.extension == ".jpg"
  }

  /** An entry the loop convolves and counts: an image file that decoded. */
  predicate Counted(e: Entry) {
    IsImageFile(e) && !e.decoded.Empty()
  }

  /** The images the loop convolves, in directory order. */
  function Accepted(entries: seq<Entry>): (images: seq<Mat>)
    ensures |images| <= |entries|
    ensures forall k :: 0 <= k < |images| ==> !images[k].Empty()
  {
    if |entries| == 0 then []
    else if Counted(entries[|entries| - 1]) then Accepted(entries[..|entries| - 1]) + [entries[|entries| - 1].decoded]
    else Accepted(entries[..|entries| - 1])
  }

  /** Processing two listings one after the other accepts the images of both, in order. */
  lemma {:induction false} AcceptedConcat(a: seq<Entry>, b: seq<Entry>)
    ensures Accepted(a + b) == Accepted(a) + Accepted(b)
  {
    if |b| > 0 {
      var b' := b[..|b| - 1];
      assert (a + b)[..|a + b| - 1] == a + b';
      AcceptedConcat(a, b');
    } else {
      assert a + b == a;
    }
  }

  /** An entry that is not an image file, or that does not decode, is skipped without ending the batch. */
  lemma AcceptedSkips(a: seq<Entry>, e: Entry, b: seq<Entry>)
    requires !Counted(e)
    ensures Accepted(a + [e] + b) == Accepted(a) + Accepted(b)
  {
    AcceptedConcat(a + [e], b);
    assert (a + [e])[..|a + [e]| - 1] == a;
  }

  /** Every entry is accepted exactly when every entry is a decodable image file. */
  lemma {:induction false} AcceptedAll(entries: seq<Entry>)
    ensures |Accepted(entries)| == |entries| <==> forall k :: 0 <= k < |entries| ==> Counted(entries[k])
  {
    if |entries| > 0 {
      var init := entries[..|entries| - 1];
      AcceptedAll(init);
      if forall k :: 0 <= k < |entries| ==> Counted(entries[k]) {
        assert forall k :: 0 <= k < |init| ==> Counted(init[k]);
      }
    }
  }

  /** Every accepted image comes from an entry that is a decodable image file. */
  lemma {:induction false} AcceptedFromCounted(entries: seq<Entry>, k: nat)
    requires k < |Accepted(entries)|
    ensures exists n :: 0 <= n < |entries| && Counted(entries[n]) && entries[n].decoded == Accepted(entries)[k]
  {
    var init := entries[..|entries| - 1];
    if k < |Accepted(init)| {
      AcceptedFromCounted(init, k);
      var n :| 0 <= n < |init| && Counted(init[n]) && init[n].decoded == Accepted(init)[k];
      assert entries[n] == init[n];
    } else {
      assert Counted(entries[|entries| - 1]);
    }
  }

  /** `output` is what apply_Conv produces for `image` with the vertical-edge kernel. */
  ghost predicate ConvolvedBy(image: Mat, output: seq<int>)
    requires image.WellFormed()
  {
    KernelMass();
    && |output| == image.rows * image.cols
    && forall i, j :: 0 <= i < image.rows && 0 <= j < image.cols ==>
         At(output, image.cols, i, j) == SameAt(image.pixels, image.rows, image.cols, Kernel, i, j)
  }

  /**
   * main: validate the command line (exit status 1 on failure), then walk the
   * chosen folder, convolve every .png/.jpg entry that decodes, skip the
   * others, and count the images convolved.  results[k] is the convolution
   * of the k-th accepted image; writing it out is not modelled.
   */
  method RunBatch(argv: seq<string>, ds: Dataset) returns (status: int, fileCount: nat, results: seq<seq<int>>)
    requires ds.Decodable()
    ensures Cli.ParseResolution(argv).Err? ==> status == 1 && fileCount == 0 && results == []
    ensures Cli.ParseResolution(argv).Ok? ==> status == 0
    ensures Cli.ParseResolution(argv).Ok? ==>
              var images := Accepted(Folder(ds, Cli.ParseResolution(argv).value));
              && fileCount == |images| == |results|
              && forall k :: 0 <= k < |images| ==> images[k].WellFormed() && ConvolvedBy(images[k], results[k])
  {
    var parsed := Cli.ParseResolution(argv);
    if parsed.Err? {
      return 1, 0, [];
    }
    var entries := Folder(ds, parsed.value);
    KernelMass();
    fileCount, results := 0, [];
    for n := 0 to |entries|
      invariant fileCount == |Accepted(entries[..n])| == |results|
      invariant forall k :: 0 <= k < fileCount ==>
                  Accepted(entries[..n])[k].WellFormed() && ConvolvedBy(Accepted(entries[..n])[k], results[k])
    {
      var entry := entries[n];
      assert entries[..n + 1][..n] == entries[..n];
      if IsImageFile(entry) {
        if entry.decoded.Empty() {
          continue;
        }
        var image := entry.decoded;
        var result := ApplyConv(image.pixels, image.rows, image.cols, Kernel);
        results := results + [result];
        fileCount := fileCount + 1;
      }
    }
    assert entries[..|entries|] == entries;
    status := 0;
  }
}
