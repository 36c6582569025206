/**
 * The OpenCL host of the global-memory strategy: command-line check, fixed
 * host buffers sized from the resolution bucket, and for every file of the
 * bucket a load, a pad and a launch over a width x height grid of 16 x 16
 * work-groups.  The device side (the apply_conv kernel) is not part of this
 * model; what the host hands to it is.
 */
module HostGlobalQ1 {
  import opened Grid
  import opened Padding
  import Cli
  import opened Files
  import SerialQ1

  /** Side of a work-group. */
  const BlockSize: nat := 16

  /** Side of the convolution kernel. */
  const KernelSize: nat := 3

  /** The 3x3 kernel the host uploads, row-major. */
  const HostKernel: seq<int> := [1, 1, 1, 0, 0, 0, -1, -1, -1]

  /** The host kernel is the transpose of the vertical-edge kernel of the scalar programs. */
  lemma HostKernelIsTranspose()
    ensures |HostKernel| == KernelSize * KernelSize
    ensures forall a, b :: 0 <= a < 3 && 0 <= b < 3 ==> HostKernel[Idx(a, b, 3)] == SerialQ1.Kernel[b][a]
  {
  }

  /** Why loadImage fails; either ends the program with EXIT_FAILURE. */
  datatype LoadStatus =
    | Loaded
    | NotLoaded          // imread returned an empty image
    | DimensionMismatch  // the image is not expectedWidth x expectedHeight

  /**
   * The nested loops of loadImage: pixel (i, j) goes to offset i * cols + j
   * of the host buffer, so the first rows * cols cells become the image in
   * row-major order and the rest of the buffer is untouched.
   */
  method CopyPixels(image: Mat, buffer: array<int>)
    requires image.WellFormed()
    requires buffer.Length >= image.rows * image.cols
    modifies buffer
    ensures buffer[..image.rows * image.cols] == image.pixels
    ensures buffer[image.rows * image.cols..] == old(buffer[image.rows * image.cols..])
  {
    var width, height := image.cols, image.rows;
    var n := width * height;
    for i := 0 to height
      invariant 0 <= Idx(i, 0, width) <= n
      invariant forall p :: 0 <= p < Idx(i, 0, width) ==> buffer[p] == image.pixels[p]
      invariant buffer[n..] == old(buffer[n..])
    {
      RowStart(i + 1, width, height);
      for j := 0 to width
        invariant Idx(i, j, width) <= Idx(i + 1, 0, width) <= n
        invariant forall p :: 0 <= p < Idx(i, j, width) ==> buffer[p] == image.pixels[p]
        invariant buffer[n..] == old(buffer[n..])
      {
        IdxBounds(i, j, width, height);
        buffer[Idx(i, j, width)] := image.pixels[Idx(i, j, width)];
      }
      assert Idx(i, width, width) == Idx(i + 1, 0, width);
    }
    assert Idx(height, 0, width) == n;
  }

  /**
   * loadImage: reject an undecodable image and one whose size differs from
   * the expected one; otherwise copy its pixels row by row into the first
   * expectedWidth * expectedHeight cells of the host buffer.
   */
  method LoadImage(image: Mat, buffer: array<int>, expectedWidth: nat, expectedHeight: nat) returns (status: LoadStatus)
    requires image.WellFormed()
    requires buffer.Length >= expectedWidth * expectedHeight
    modifies buffer
    ensures status == NotLoaded <==> image.Empty()
    ensures status == DimensionMismatch <==>
              !image.Empty() && (image.cols != expectedWidth || image.rows != expectedHeight)
    ensures status == Loaded ==> buffer[..expectedWidth * expectedHeight] == image.pixels
    ensures status != Loaded ==> buffer[..] == old(buffer[..])
    ensures buffer[expectedWidth * expectedHeight..] == old(buffer[expectedWidth * expectedHeight..])
  {
    if image.Empty() {
      return NotLoaded;
    }
    if image.cols != expectedWidth || image.rows != expectedHeight {
      return DimensionMismatch;
    }
    CopyPixels(image, buffer);
    return Loaded;
  }

  /** Number of work-groups along an axis of `extent` work-items: the extent rounded up to whole tiles. */
  function GroupsAlong(extent: nat, tile: nat): (groups: nat)
    requires tile > 0
    ensures groups * tile >= extent
    ensures groups == 0 || (groups - 1) * tile < extent
  {
    (extent + tile - 1) / tile
  }

  /**
   * Both accepted resolutions are multiples of BLOCKSIZE, so the launch of
   * {width, height} work-items in 16 x 16 groups has exactly
   * (width/16) * (height/16) groups and no work-item outside the image.
   */
  lemma LaunchTilesImage(resolution: nat)
    requires resolution in Cli.Resolutions
    ensures resolution % BlockSize == 0
    ensures GroupsAlong(resolution, BlockSize) == resolution / BlockSize
    ensures GroupsAlong(resolution, BlockSize) * GroupsAlong(resolution, BlockSize) * (BlockSize * BlockSize)
         == resolution * resolution
  {
  }

  /**
   * Global id group * 16 + local id of every work-item of the launch names a
   * pixel of the image, and every pixel is named by exactly the work-item
   * (pixel / 16, pixel % 16).
   */
  lemma LaunchCoversPixels(resolution: nat, group: int, local: int, pixel: int)
    requires resolution in Cli.Resolutions
    ensures 0 <= group < resolution / BlockSize && 0 <= local < BlockSize ==>
              0 <= Idx(group, local, BlockSize) < resolution
    ensures 0 <= pixel < resolution ==>
              pixel / BlockSize < resolution / BlockSize && pixel == Idx(pixel / BlockSize, pixel % BlockSize, BlockSize)
  {
  }

  /** An image the host can load for the bucket: decodable and exactly width x height. */
  predicate Loads(image: Mat, width: nat, height: nat) {
    !image.Empty() && image.cols == width && image.rows == height
  }

  /**
   * main: validate the command line, size the host buffers from the bucket
   * (width = height = resolution, padded sides width + 2 * halfK), then for
   * every file of the bucket load it, pad it and hand the padded buffer to
   * the device.  A file that does not load ends the program with status 1.
   * `sent` holds the padded buffer written to the device for each file.
   */
  method RunHost(argv: seq<string>, ds: Dataset) returns (status: int, fileCount: nat, sent: seq<seq<int>>)
    requires ds.Decodable()
    ensures Cli.ParseResolution(argv).Err? ==> status == 1 && fileCount == 0 && sent == []
    ensures Cli.ParseResolution(argv).Ok? ==>
              var resolution := Cli.ParseResolution(argv).value;
              var entries := Folder(ds, resolution);
              && fileCount == |sent| <= |entries|
              && (status == 0 <==> fileCount == |entries|)
              && (status != 0 ==> status == 1 && !Loads(entries[fileCount].decoded, resolution, resolution))
              && forall k :: 0 <= k < fileCount ==>
                   && Loads(entries[k].decoded, resolution, resolution)
                   && sent[k] == Pad(entries[k].decoded.pixels, resolution, resolution, HalfK(KernelSize), 0)
  {
    var parsed := Cli.ParseResolution(argv);
    if parsed.Err? {
      return 1, 0, [];
    }
    var entries := Folder(ds, parsed.value);
    var width := parsed.value;
    var height := width;
    var halfK := KernelSize / 2;
    var paddedWidth := width + 2 * halfK;
    var paddedHeight := height + 2 * halfK;
    var inputImage := new int[width * height];
    var paddedImage := new int[paddedWidth * paddedHeight];
    fileCount, sent := 0, [];
    while fileCount < |entries|
      invariant fileCount == |sent| <= |entries|
      invariant forall k :: 0 <= k < fileCount ==>
                  && Loads(entries[k].decoded, width, height)
                  && sent[k] == Pad(entries[k].decoded.pixels, width, height, halfK, 0)
    {
      var image := entries[fileCount].decoded;
      var loaded := LoadImage(image, inputImage, width, height);
      if loaded != Loaded {
        return 1, fileCount, sent;
      }
      PadImage(inputImage, paddedImage, width, height, KernelSize, 0);
      assert paddedImage[..] == paddedImage[..paddedWidth * paddedHeight];
      sent := sent + [paddedImage[..]];
      fileCount := fileCount + 1;
    }
    status := 0;
  }
}
