/**
 * The first OpenCL host: for every file of the 512 folder, load it at
 * whatever size it decodes to, recompute the padded sides from that size,
 * allocate a padded buffer of exactly that many cells, pad the image into
 * it and hand it to the device.
 */
module HostGlobal {
  import opened Grid
  import opened Padding
  import opened Files
  import HostGlobalQ1

  /** Cells of the host input buffer allocated for every file, whatever its size. */
  const InputCells: nat := 512 * 512

  /** Side of the convolution kernel. */
  const KernelSize: nat := 3

  /**
   * loadPNG: fail on an undecodable image; otherwise report its size and
   * copy its pixels row by row into the front of the buffer.
   */
  method LoadPng(image: Mat, buffer: array<int>) returns (ok: bool, width: nat, height: nat)
    requires image.WellFormed()
    requires buffer.Length >= image.rows * image.cols
    modifies buffer
    ensures ok <==> !image.Empty()
    ensures ok ==> width == image.cols && height == image.rows && buffer[..width * height] == image.pixels
    ensures !ok ==> buffer[..] == old(buffer[..])
    ensures buffer[image.rows * image.cols..] == old(buffer[image.rows * image.cols..])
  {
    if image.Empty() {
      return false, 0, 0;
    }
    width, height := image.cols, image.rows;
    HostGlobalQ1.CopyPixels(image, buffer);
    ok := true;
  }

  /**
   * The per-file work of main: load, then pad into a freshly allocated
   * buffer of paddedWidth * paddedHeight cells computed from the decoded
   * size.  A file that does not decode ends the program with status 1.
   * `sent` holds the padded buffer handed to the device for each file.
   */
  method RunHost(ds: Dataset) returns (status: int, sent: seq<seq<int>>)
    requires ds.Decodable()
    requires forall k :: 0 <= k < |ds.bucket512| && (forall m :: 0 <= m < k ==> !ds.bucket512[m].decoded.Empty()) ==>
               ds.bucket512[k].decoded.rows * ds.bucket512[k].decoded.cols <= InputCells
    ensures |sent| <= |ds.bucket512|
    ensures status == 0 <==> |sent| == |ds.bucket512|
    ensures status != 0 ==> status == 1 && ds.bucket512[|sent|].decoded.Empty()
    ensures forall k :: 0 <= k < |sent| ==>
              var image := ds.bucket512[k].decoded;
              && !image.Empty()
              && |sent[k]| == PaddedExtent(image.cols, KernelSize) * PaddedExtent(image.rows, KernelSize)
              && sent[k] == Pad(image.pixels, image.cols, image.rows, HalfK(KernelSize), 0)
  {
    var entries := ds.bucket512;
    sent := [];
    for n := 0 to |entries|
      invariant |sent| == n
      invariant forall k :: 0 <= k < n ==>
                  var image := entries[k].decoded;
                  && !image.Empty()
                  && |sent[k]| == PaddedExtent(image.cols, KernelSize) * PaddedExtent(image.rows, KernelSize)
                  && sent[k] == Pad(image.pixels, image.cols, image.rows, HalfK(KernelSize), 0)
    {
      var inputImage := new int[InputCells];
      var ok, width, height := LoadPng(entries[n].decoded, inputImage);
      if !ok {
        return 1, sent;
      }
      var halfK := KernelSize / 2;
      var paddedWidth := width + 2 * halfK;
      var paddedHeight := height + 2 * halfK;
      var paddedImage := new int[paddedWidth * paddedHeight];
      PadImage(inputImage, paddedImage, width, height, KernelSize, 0);
      assert paddedImage[..] == paddedImage[..paddedWidth * paddedHeight];
      sent := sent + [paddedImage[..]];
    }
    status := 0;
  }
}
