/**
 * The padding stage: a width x height image is copied into the interior of a
 * (width + 2*halfK) x (height + 2*halfK) buffer whose halo is zero, so that
 * every stencil read near the border stays inside the buffer.
 *
 * The element type is generic because the stage only moves values; the value
 * written into the halo is passed in as `zero`.
 */
module Padding {
  import opened Grid

  /** Half the kernel side, the width of the halo. */
  function HalfK(kernelSize: nat): nat {
    kernelSize / 2
  }

  /** Extent of the padded buffer along one axis. */
  function PaddedExtent(extent: nat, kernelSize: nat): nat {
    extent + 2 * HalfK(kernelSize)
  }

  predicate InInterior(py: int, px: int, width: nat, height: nat, halfK: nat) {
    halfK <= py < halfK + height && halfK <= px < halfK + width
  }

  /** Cell (py, px) of the padded buffer: the source pixel in the interior, `zero` on the halo. */
  function PadAt<T>(src: seq<T>, width: nat, height: nat, halfK: nat, zero: T, py: int, px: int): T
    requires |src| == width * height
  {
    if InInterior(py, px, width, height, halfK) then
      IdxBounds(py - halfK, px - halfK, width, height);
      src[Idx(py - halfK, px - halfK, width)]
    else
      zero
  }

  /** The padded buffer, row-major, as a function of the source alone. */
  function Pad<T>(src: seq<T>, width: nat, height: nat, halfK: nat, zero: T): (padded: seq<T>)
    requires |src| == width * height
    ensures |padded| == (width + 2 * halfK) * (height + 2 * halfK)
  {
    var paddedWidth := width + 2 * halfK;
    seq((width + 2 * halfK) * (height + 2 * halfK),
        q requires 0 <= q < paddedWidth * (height + 2 * halfK) =>
          PadAt(src, width, height, halfK, zero, q / paddedWidth, q % paddedWidth))
  }

  /** Reading the padded buffer at cell (py, px) gives PadAt. */
  lemma PadCell<T>(src: seq<T>, width: nat, height: nat, halfK: nat, zero: T, py: int, px: int)
    requires |src| == width * height
    requires 0 <= py < height + 2 * halfK && 0 <= px < width + 2 * halfK
    ensures 0 <= Idx(py, px, width + 2 * halfK) < |Pad(src, width, height, halfK, zero)|
    ensures Pad(src, width, height, halfK, zero)[Idx(py, px, width + 2 * halfK)]
         == PadAt(src, width, height, halfK, zero, py, px)
  {
    IdxBounds(py, px, width + 2 * halfK, height + 2 * halfK);
    IdxDivMod(py, px, width + 2 * halfK);
  }

  /** Every halo cell of the padded buffer holds `zero`. */
  lemma PadHalo<T>(src: seq<T>, width: nat, height: nat, halfK: nat, zero: T, py: int, px: int)
    requires |src| == width * height
    requires 0 <= py < height + 2 * halfK && 0 <= px < width + 2 * halfK
    requires py < halfK || py >= halfK + height || px < halfK || px >= halfK + width
    ensures 0 <= Idx(py, px, width + 2 * halfK) < |Pad(src, width, height, halfK, zero)|
    ensures Pad(src, width, height, halfK, zero)[Idx(py, px, width + 2 * halfK)] == zero
  {
    PadCell(src, width, height, halfK, zero, py, px);
  }

  /** The interior of the padded buffer is a verbatim copy of the source. */
  lemma PadInterior<T>(src: seq<T>, width: nat, height: nat, halfK: nat, zero: T, y: int, x: int)
    requires |src| == width * height
    requires 0 <= y < height && 0 <= x < width
    ensures 0 <= Idx(y, x, width) < |src|
    ensures 0 <= Idx(y + halfK, x + halfK, width + 2 * halfK) < |Pad(src, width, height, halfK, zero)|
    ensures Pad(src, width, height, halfK, zero)[Idx(y + halfK, x + halfK, width + 2 * halfK)]
         == src[Idx(y, x, width)]
  {
    IdxBounds(y, x, width, height);
    PadCell(src, width, height, halfK, zero, y + halfK, x + halfK);
  }

  /** Every cell of the padded buffer is `zero` or a value of the source. */
  lemma PadValues<T>(src: seq<T>, width: nat, height: nat, halfK: nat, zero: T)
    requires |src| == width * height
    ensures forall q :: 0 <= q < |Pad(src, width, height, halfK, zero)| ==>
              Pad(src, width, height, halfK, zero)[q] == zero || Pad(src, width, height, halfK, zero)[q] in src
  {
    var padded := Pad(src, width, height, halfK, zero);
    var paddedWidth, paddedHeight := width + 2 * halfK, height + 2 * halfK;
    if paddedWidth == 0 {
      assert |padded| == 0;
    }
    forall q | 0 <= q < |padded|
      ensures padded[q] == zero || padded[q] in src
    {
      var py, px := q / paddedWidth, q % paddedWidth;
      assert padded[q] == PadAt(src, width, height, halfK, zero, py, px);
      if InInterior(py, px, width, height, halfK) {
        IdxBounds(py - halfK, px - halfK, width, height);
      }
    }
  }

  /** The offset padImage writes source pixel (x, y) to lies inside the padded allocation. */
  lemma PadWriteInBounds(y: int, x: int, width: nat, height: nat, kernelSize: nat)
    requires 0 <= y < height && 0 <= x < width
    ensures 0 <= Idx(y + HalfK(kernelSize), x + HalfK(kernelSize), PaddedExtent(width, kernelSize))
              < PaddedExtent(width, kernelSize) * PaddedExtent(height, kernelSize)
  {
    IdxBounds(y + HalfK(kernelSize), x + HalfK(kernelSize),
              PaddedExtent(width, kernelSize), PaddedExtent(height, kernelSize));
  }

  /** Distinct source pixels are written to distinct offsets, so no interior write overwrites another. */
  lemma PadWritesDistinct(y1: int, x1: int, y2: int, x2: int, width: nat, kernelSize: nat)
    requires 0 <= x1 < width && 0 <= x2 < width
    requires (y1, x1) != (y2, x2)
    ensures Idx(y1 + HalfK(kernelSize), x1 + HalfK(kernelSize), PaddedExtent(width, kernelSize))
         != Idx(y2 + HalfK(kernelSize), x2 + HalfK(kernelSize), PaddedExtent(width, kernelSize))
  {
    var h, pw := HalfK(kernelSize), PaddedExtent(width, kernelSize);
    if Idx(y1 + h, x1 + h, pw) == Idx(y2 + h, x2 + h, pw) {
      IdxInjective(y1 + h, x1 + h, y2 + h, x2 + h, pw);
    }
  }

  /** Cells already produced after copying rows [0, y) and the first x pixels of row y. */
  predicate Copied(py: int, px: int, width: nat, halfK: nat, y: int, x: int) {
    && halfK <= px < halfK + width
    && (halfK <= py < halfK + y || (py == halfK + y && px < halfK + x))
  }

  /** The padded buffer part-way through the copy loops: copied cells hold the source, all others `zero`. */
  function Staged<T>(src: seq<T>, width: nat, height: nat, halfK: nat, zero: T, y: int, x: int): (s: seq<T>)
    requires |src| == width * height
    ensures |s| == (width + 2 * halfK) * (height + 2 * halfK)
  {
    var paddedWidth := width + 2 * halfK;
    seq((width + 2 * halfK) * (height + 2 * halfK),
        q requires 0 <= q < paddedWidth * (height + 2 * halfK) =>
          if Copied(q / paddedWidth, q % paddedWidth, width, halfK, y, x)
          then PadAt(src, width, height, halfK, zero, q / paddedWidth, q % paddedWidth)
          else zero)
  }

  lemma StagedStart<T>(src: seq<T>, width: nat, height: nat, halfK: nat, zero: T)
    requires |src| == width * height
    ensures forall q :: 0 <= q < |Staged(src, width, height, halfK, zero, 0, 0)| ==>
              Staged(src, width, height, halfK, zero, 0, 0)[q] == zero
  {
  }

  /** Copying pixel (x, y) advances the stage by exactly one cell. */
  lemma StagedStep<T>(src: seq<T>, width: nat, height: nat, halfK: nat, zero: T, y: int, x: int)
    requires |src| == width * height
    requires 0 <= y < height && 0 <= x < width
    ensures 0 <= Idx(y, x, width) < |src|
    ensures 0 <= Idx(y + halfK, x + halfK, width + 2 * halfK) < |Staged(src, width, height, halfK, zero, y, x)|
    ensures Staged(src, width, height, halfK, zero, y, x + 1)
         == Staged(src, width, height, halfK, zero, y, x)[Idx(y + halfK, x + halfK, width + 2 * halfK) := src[Idx(y, x, width)]]
  {
    var paddedWidth := width + 2 * halfK;
    var q0 := Idx(y + halfK, x + halfK, paddedWidth);
    IdxBounds(y, x, width, height);
    IdxBounds(y + halfK, x + halfK, paddedWidth, height + 2 * halfK);
    IdxDivMod(y + halfK, x + halfK, paddedWidth);
    var before := Staged(src, width, height, halfK, zero, y, x);
    var after := Staged(src, width, height, halfK, zero, y, x + 1);
    forall q | 0 <= q < |after|
      ensures after[q] == before[q0 := src[Idx(y, x, width)]][q]
    {
      if q != q0 {
        IdxOfDivMod(q, paddedWidth);
      }
    }
  }

  lemma StagedRowDone<T>(src: seq<T>, width: nat, height: nat, halfK: nat, zero: T, y: int)
    requires |src| == width * height
    ensures Staged(src, width, height, halfK, zero, y, width) == Staged(src, width, height, halfK, zero, y + 1, 0)
  {
  }

  lemma StagedDone<T>(src: seq<T>, width: nat, height: nat, halfK: nat, zero: T)
    requires |src| == width * height
    ensures Staged(src, width, height, halfK, zero, height, 0) == Pad(src, width, height, halfK, zero)
  {
  }

  /** memset: the first n cells of `buffer` become `zero`, the rest is untouched. */
  method Memset<T>(buffer: array<T>, n: nat, zero: T)
    requires n <= buffer.Length
    modifies buffer
    ensures forall p :: 0 <= p < n ==> buffer[p] == zero
    ensures forall p :: n <= p < buffer.Length ==> buffer[p] == old(buffer[p])
  {
    for q := 0 to n
      invariant forall p :: 0 <= p < q ==> buffer[p] == zero
      invariant forall p :: n <= p < buffer.Length ==> buffer[p] == old(buffer[p])
    {
      buffer[q] := zero;
    }
  }

  /**
   * padImage: clear the first paddedWidth*paddedHeight cells of `padded`, then
   * copy every source pixel (x, y) to cell (y + halfK, x + halfK).  The result
   * depends on the source alone, not on what `padded` held before, so padding
   * the same image twice yields the same buffer.
   */
  method PadImage<T>(input: array<T>, padded: array<T>, width: nat, height: nat, kernelSize: nat, zero: T)
    requires input.Length >= width * height
    requires padded.Length >= PaddedExtent(width, kernelSize) * PaddedExtent(height, kernelSize)
    requires input != padded
    modifies padded
    ensures unchanged(input)
    ensures padded[..PaddedExtent(width, kernelSize) * PaddedExtent(height, kernelSize)]
         == Pad(input[..width * height], width, height, HalfK(kernelSize), zero)
    ensures padded[PaddedExtent(width, kernelSize) * PaddedExtent(height, kernelSize)..]
         == old(padded[PaddedExtent(width, kernelSize) * PaddedExtent(height, kernelSize)..])
  {
    var halfK := kernelSize / 2;
    var paddedWidth := width + 2 * halfK;
    var paddedHeight := height + 2 * halfK;
    var n := paddedWidth * paddedHeight;
    ghost var src := input[..width * height];
    Memset(padded, n, zero);
    StagedStart(src, width, height, halfK, zero);
    assert padded[..n] == Staged(src, width, height, halfK, zero, 0, 0);
    for y := 0 to height
      invariant padded[..n] == Staged(src, width, height, halfK, zero, y, 0)
      invariant padded[n..] == old(padded[n..])
    {
      for x := 0 to width
        invariant padded[..n] == Staged(src, width, height, halfK, zero, y, x)
        invariant padded[n..] == old(padded[n..])
      {
        StagedStep(src, width, height, halfK, zero, y, x);
        padded[Idx(y + halfK, x + halfK, paddedWidth)] := input[Idx(y, x, width)];
      }
      StagedRowDone(src, width, height, halfK, zero, y);
    }
    StagedDone(src, width, height, halfK, zero);
  }
}
