/**
 * The stencil evaluator: the weighted sum of a kernel over a square window of
 * a row-major sample buffer, accumulated in the order of the source loops
 * (kernel rows outer, kernel columns inner).  Pixels and weights are integers,
 * so the sum is exact and the order does not change its value.
 */
module Stencil {
  import opened Grid

  /**
   * A kernel the nested ki/kj loops can walk: an odd number of rows (so that
   * -pad..pad covers indices 0..size-1) each at least that long.
   */
  predicate IsKernel(kernel: seq<seq<int>>) {
    && |kernel| % 2 == 1
    && forall a :: 0 <= a < |kernel| ==> |kernel[a]| >= |kernel|
  }

  /** Sample (r, c) of a row-major buffer `width` wide; 0 for an offset outside the buffer. */
  function At(s: seq<int>, width: int, r: int, c: int): int {
    var k := Idx(r, c, width);
    if 0 <= k < |s| then s[k] else 0
  }

  /** sum over b in [0, n) of row[b] * sample(r, c0 + b). */
  function RowSum(row: seq<int>, s: seq<int>, width: int, r: int, c0: int, n: nat): int
    requires n <= |row|
  {
    if n == 0 then 0
    else RowSum(row, s, width, r, c0, n - 1) + row[n - 1] * At(s, width, r, c0 + n - 1)
  }

  /** sum over a in [0, m), b in [0, size) of kernel[a][b] * sample(r0 + a, c0 + b). */
  function WindowSum(kernel: seq<seq<int>>, s: seq<int>, width: int, r0: int, c0: int, m: nat): int
    requires IsKernel(kernel) && m <= |kernel|
  {
    if m == 0 then 0
    else WindowSum(kernel, s, width, r0, c0, m - 1) + RowSum(kernel[m - 1], s, width, r0 + m - 1, c0, |kernel|)
  }

  /** The stencil response of the window whose top-left sample is (r0, c0). */
  function Window(kernel: seq<seq<int>>, s: seq<int>, width: int, r0: int, c0: int): int
    requires IsKernel(kernel)
  {
    WindowSum(kernel, s, width, r0, c0, |kernel|)
  }

  /** Reading inside the buffer, At is the buffer's own cell. */
  lemma AtInside(s: seq<int>, width: int, height: int, r: int, c: int)
    requires |s| == width * height
    requires 0 <= r < height && 0 <= c < width
    ensures 0 <= Idx(r, c, width) < |s|
    ensures At(s, width, r, c) == s[Idx(r, c, width)]
  {
    IdxBounds(r, c, width, height);
  }

  /** A row sum depends only on the samples it reads. */
  lemma {:induction false} RowSumCongruent(row: seq<int>, s1: seq<int>, w1: int, r1: int, c1: int,
                                           s2: seq<int>, w2: int, r2: int, c2: int, n: nat)
    requires n <= |row|
    requires forall c :: c1 <= c < c1 + n ==> At(s1, w1, r1, c) == At(s2, w2, r2, c - c1 + c2)
    ensures RowSum(row, s1, w1, r1, c1, n) == RowSum(row, s2, w2, r2, c2, n)
  {
    if n > 0 {
      RowSumCongruent(row, s1, w1, r1, c1, s2, w2, r2, c2, n - 1);
      assert At(s1, w1, r1, c1 + n - 1) == At(s2, w2, r2, c2 + n - 1);
    }
  }

  /** Two windows reading the same samples have the same response. */
  lemma {:induction false} WindowSumCongruent(kernel: seq<seq<int>>, s1: seq<int>, w1: int, r1: int, c1: int,
                                              s2: seq<int>, w2: int, r2: int, c2: int, m: nat)
    requires IsKernel(kernel) && m <= |kernel|
    requires forall r, c :: r1 <= r < r1 + m && c1 <= c < c1 + |kernel| ==>
               At(s1, w1, r, c) == At(s2, w2, r - r1 + r2, c - c1 + c2)
    ensures WindowSum(kernel, s1, w1, r1, c1, m) == WindowSum(kernel, s2, w2, r2, c2, m)
  {
    if m > 0 {
      WindowSumCongruent(kernel, s1, w1, r1, c1, s2, w2, r2, c2, m - 1);
      var r := r1 + m - 1;
      forall c | c1 <= c < c1 + |kernel|
        ensures At(s1, w1, r, c) == At(s2, w2, r2 + m - 1, c - c1 + c2)
      {
      }
      RowSumCongruent(kernel[m - 1], s1, w1, r, c1, s2, w2, r2 + m - 1, c2, |kernel|);
    }
  }

  /** Over an all-zero buffer every row sum is zero. */
  lemma {:induction false} RowSumOfZeros(row: seq<int>, s: seq<int>, width: int, r: int, c0: int, n: nat)
    requires n <= |row|
    requires forall k :: 0 <= k < |s| ==> s[k] == 0
    ensures RowSum(row, s, width, r, c0, n) == 0
  {
    if n > 0 {
      RowSumOfZeros(row, s, width, r, c0, n - 1);
    }
  }

  /** Over an all-zero buffer every window response is zero, whatever the kernel. */
  lemma {:induction false} WindowSumOfZeros(kernel: seq<seq<int>>, s: seq<int>, width: int, r0: int, c0: int, m: nat)
    requires IsKernel(kernel) && m <= |kernel|
    requires forall k :: 0 <= k < |s| ==> s[k] == 0
    ensures WindowSum(kernel, s, width, r0, c0, m) == 0
  {
    if m > 0 {
      WindowSumOfZeros(kernel, s, width, r0, c0, m - 1);
      RowSumOfZeros(kernel[m - 1], s, width, r0 + m - 1, c0, |kernel|);
    }
  }

  /** Sum of the positive weights of row[..n]. */
  function RowPositive(row: seq<int>, n: nat): nat
    requires n <= |row|
  {
    if n == 0 then 0 else RowPositive(row, n - 1) + (if row[n - 1] > 0 then row[n - 1] else 0)
  }

  /** Sum of the magnitudes of the negative weights of row[..n]. */
  function RowNegative(row: seq<int>, n: nat): nat
    requires n <= |row|
  {
    if n == 0 then 0 else RowNegative(row, n - 1) + (if row[n - 1] < 0 then -row[n - 1] else 0)
  }

  /** Sum of the positive weights of the first m kernel rows. */
  function PositiveMass(kernel: seq<seq<int>>, m: nat): nat
    requires IsKernel(kernel) && m <= |kernel|
  {
    if m == 0 then 0 else PositiveMass(kernel, m - 1) + RowPositive(kernel[m - 1], |kernel|)
  }

  /** Sum of the magnitudes of the negative weights of the first m kernel rows. */
  function NegativeMass(kernel: seq<seq<int>>, m: nat): nat
    requires IsKernel(kernel) && m <= |kernel|
  {
    if m == 0 then 0 else NegativeMass(kernel, m - 1) + RowNegative(kernel[m - 1], |kernel|)
  }

  predicate SamplesIn(s: seq<int>, hi: nat) {
    forall k :: 0 <= k < |s| ==> 0 <= s[k] <= hi
  }

  lemma WeightTimesSample(weight: int, sample: int, hi: nat)
    requires 0 <= sample <= hi
    ensures weight >= 0 ==> 0 <= weight * sample <= weight * hi
    ensures weight < 0 ==> weight * hi <= weight * sample <= 0
  {
    if weight >= 0 {
      assert weight * (hi - sample) >= 0;
    } else {
      assert (-weight) * (hi - sample) >= 0;
      assert (-weight) * sample >= 0;
    }
  }

  lemma Distribute(a: int, b: int, hi: int)
    ensures (a + b) * hi == a * hi + b * hi
  {
  }

  /** With samples in [0, hi], a row sum lies in [-RowNegative*hi, RowPositive*hi]. */
  lemma {:induction false} RowSumBounds(row: seq<int>, s: seq<int>, width: int, r: int, c0: int, n: nat, hi: nat)
    requires n <= |row|
    requires SamplesIn(s, hi)
    ensures RowSum(row, s, width, r, c0, n) + RowNegative(row, n) * hi >= 0
    ensures RowSum(row, s, width, r, c0, n) <= RowPositive(row, n) * hi
  {
    if n > 0 {
      RowSumBounds(row, s, width, r, c0, n - 1, hi);
      var w, sample := row[n - 1], At(s, width, r, c0 + n - 1);
      WeightTimesSample(w, sample, hi);
      var pos, neg := RowPositive(row, n - 1), RowNegative(row, n - 1);
      var term := w * sample;
      assert RowSum(row, s, width, r, c0, n) == RowSum(row, s, width, r, c0, n - 1) + term;
      if w > 0 {
        Distribute(pos, w, hi);
        assert RowPositive(row, n) == pos + w;
        assert RowNegative(row, n) == neg;
      } else {
        Distribute(neg, -w, hi);
        assert RowPositive(row, n) == pos;
        assert RowNegative(row, n) == neg + (-w);
      }
    }
  }

  /** With samples in [0, hi], a window response lies in [-NegativeMass*hi, PositiveMass*hi]. */
  lemma {:induction false} WindowSumBounds(kernel: seq<seq<int>>, s: seq<int>, width: int, r0: int, c0: int, m: nat, hi: nat)
    requires IsKernel(kernel) && m <= |kernel|
    requires SamplesIn(s, hi)
    ensures WindowSum(kernel, s, width, r0, c0, m) + NegativeMass(kernel, m) * hi >= 0
    ensures WindowSum(kernel, s, width, r0, c0, m) <= PositiveMass(kernel, m) * hi
  {
    if m > 0 {
      WindowSumBounds(kernel, s, width, r0, c0, m - 1, hi);
      RowSumBounds(kernel[m - 1], s, width, r0 + m - 1, c0, |kernel|, hi);
      Distribute(PositiveMass(kernel, m - 1), RowPositive(kernel[m - 1], |kernel|), hi);
      Distribute(NegativeMass(kernel, m - 1), RowNegative(kernel[m - 1], |kernel|), hi);
    }
  }

  /**
   * The ki/kj loops shared by apply_Conv and applyConvolution: for ki and kj
   * in [-pad, pad], add kernel[ki + pad][kj + pad] times the sample at
   * (r0 + ki + pad, c0 + kj + pad).  Every read is inside the
   * width x height buffer, and the sum is the window response.
   */
  method KernelSum(kernel: seq<seq<int>>, s: seq<int>, width: nat, height: nat, r0: int, c0: int)
    returns (sum: int)
    requires IsKernel(kernel)
    requires |s| == width * height
    requires 0 <= r0 && r0 + |kernel| <= height && 0 <= c0 && c0 + |kernel| <= width
    ensures sum == Window(kernel, s, width, r0, c0)
  {
    var pad := |kernel| / 2;
    sum := 0;
    var ki := -pad;
    while ki <= pad
      invariant -pad <= ki <= pad + 1
      invariant sum == WindowSum(kernel, s, width, r0, c0, ki + pad)
    {
      var kj := -pad;
      while kj <= pad
        invariant -pad <= kj <= pad + 1
        invariant sum == WindowSum(kernel, s, width, r0, c0, ki + pad)
                       + RowSum(kernel[ki + pad], s, width, r0 + ki + pad, c0, kj + pad)
      {
        AtInside(s, width, height, r0 + ki + pad, c0 + kj + pad);
        sum := sum + kernel[ki + pad][kj + pad] * s[Idx(r0 + ki + pad, c0 + kj + pad, width)];
        kj := kj + 1;
      }
      ki := ki + 1;
    }
  }
}
