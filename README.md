# Stencil convolution engine

This is a Dafny model of the stencil convolution engine of the
OpenCL-Convolution-Performance-Analysis programs. Four C++ programs convolve 8-bit
grayscale images with a 3×3 edge kernel. The two scalar programs apply a
vertical-edge kernel. The two OpenCL hosts upload its transpose, which read
row-major is the horizontal-edge kernel:

- Two OpenCL hosts load each image into a row-major host buffer. `padImage` copies
  it into the interior of a buffer with a zero halo, and the result is handed to a
  device kernel launched over a grid of 16×16 work-groups.
- The scalar reference `apply_Conv` computes the zero-padded "same" convolution:
  one output per input pixel, with samples outside the image read as 0.
- The first scalar program's `applyConvolution` computes the "valid" convolution. It
  reads the unpadded image, computes only the pixels whose whole window lies inside
  the image, and leaves a `pad`-wide zero border.
- The two Q1 programs, Scalar/Q1/22i0977_Q1_serial.cpp and
  OpenCL/22i0977_Q1_host_global.cpp, accept only the resolution buckets `512` and
  `1024` on the command line. They walk the bucket's folder and count the images
  they process. host_global.cpp and serial.cpp take no argument, read only the
  folder `dataset/grayscale/512`, and host_global.cpp keeps no count.

Modules:

| module | file | what it holds |
|---|---|---|
| `Grid` | `grid.dfy` | Row-major offsets `Idx(row, col, width)` and the decoded image `Mat`. |
| `Padding` | `padding.dfy` | `padImage` (generic in the element type): the specification function `Pad`, its lemmas and the in-place method `PadImage`. |
| `Stencil` | `stencil.dfy` | The kernel-weighted window sum in the source's loop order, its lemmas, and the shared ki/kj loops `KernelSum`. |
| `Cli` | `cli.dfy` | The `argc`/resolution check. |
| `Files` | `files.dfy` | The data set: folder listings and what `imread` decodes. |
| `SerialQ1` | `serial_q1.dfy` | `apply_Conv`, its properties, and the skip-and-count batch loop. |
| `Serial` | `serial.dfy` | `applyConvolution` and its agreement with `apply_Conv` on interior pixels. |
| `HostGlobalQ1` | `host_global_q1.dfy` | `loadImage`, the launch grid, and the host loop of the global-memory host. |
| `HostGlobal` | `host_global.dfy` | `loadPNG` and the per-image pad loop of the first host. |

Pixels and kernel weights are `int`. The sources accumulate in `float`. With the programs' own kernels, whose weights are 1, 0 and −1, the sum is an integer of magnitude at most 765, so it is exact. For an arbitrary integer kernel a `float` sum stays exact only while every partial sum has magnitude at most 2^24; the model's `int` sum does not model that limit. Kernels are parameters: an odd number of rows, each at least that long. Each program's kernel is a constant:

- `SerialQ1.Kernel` and `Serial.EdgeKernel` are `{1, 0, -1}` repeated over three rows.
- `HostGlobalQ1.HostKernel` is `{1,1,1,0,0,0,-1,-1,-1}`, which is its transpose.

Every convolution output is specified pointwise: output pixel (i, j) is read through `Stencil.At`, the row-major accessor.

For a constant image `c`, the vertical-edge kernel gives `c × EdgeFactor(j) × RowsCovered(i)`:

- `EdgeFactor(j)` is −1 on the first column, +1 on the last column and 0 in between.
- `RowsCovered(i)` is the number of image rows the window covers: 3 on interior rows, 2 on the first and last rows of an image with at least two rows, and 1 on the only row of a one-row image.
- So, for an image with at least three rows and two columns, the edge columns read ±3c except in the corner pixels, where they read ±2c.
- On a one-row image the edge pixels read ±c. On a one-column image the first column is also the last, `EdgeFactor` is 0 there, and the whole output is 0.

## Model

| member | source | states |
|---|---|---|
| `Padding.Pad` | OpenCL/22i0977_Q1_host_global.cpp:39-41 | The padded buffer has (width + 2·halfK) × (height + 2·halfK) cells. |
| `Padding.PadCell` | OpenCL/22i0977_Q1_host_global.cpp:42-47 | Cell (py, px) of the padded buffer is in range. It is the source pixel (py − halfK, px − halfK) in the interior and the zero value on the halo. |
| `Padding.PadHalo` | OpenCL/22i0977_Q1_host_global.cpp:42-47 | Every halo cell (row < halfK, row ≥ halfK + height, col < halfK or col ≥ halfK + width) is zero. |
| `Padding.PadInterior` | OpenCL/22i0977_Q1_host_global.cpp:43-47 | `padded[(y+halfK)*paddedWidth + (x+halfK)] == input[y*width + x]` for every source pixel. Both offsets are in range. |
| `Padding.PadValues` | host_global.cpp:37-42 | Every padded cell is zero or a value of the source. |
| `Padding.PadWriteInBounds` | OpenCL/22i0977_Q1_host_global.cpp:45 | Every offset the copy loop writes is below paddedWidth·paddedHeight, which is the size allocated for the padded buffer. |
| `Padding.PadWritesDistinct` | host_global.cpp:40 | Distinct source pixels are written to distinct offsets, so no write overwrites another. |
| `Padding.StagedStep` | OpenCL/22i0977_Q1_host_global.cpp:45 | Copying pixel (x, y) changes exactly one padded cell, the one at (y + halfK, x + halfK). |
| `Padding.Memset` | OpenCL/22i0977_Q1_host_global.cpp:42 | The first n cells become zero and the rest of the buffer is untouched. |
| `Padding.PadImage` | OpenCL/22i0977_Q1_host_global.cpp:38-48 | Afterwards the first paddedWidth·paddedHeight cells equal `Pad` of the input, and the input and the rest of the buffer are unchanged. The result does not depend on the buffer's previous contents, so padding twice gives the same buffer. The same function appears again at host_global.cpp:33-43. |
| `Stencil.KernelSum` | Scalar/Q1/22i0977_Q1_serial.cpp:35-41 | The ki/kj loops return the kernel-weighted sum over the window, and every read is inside the buffer. |
| `Stencil.AtInside` | Scalar/Q1/22i0977_Q1_serial.cpp:39 | Inside the buffer, the accessor reads the buffer cell at row·width + col. |
| `Stencil.WindowSumCongruent` | serial.cpp:32-36 | Two windows that read the same samples have the same response. |
| `Stencil.WindowSumOfZeros` | Scalar/Q1/22i0977_Q1_serial.cpp:35-41 | Over an all-zero buffer, every window response is zero. |
| `Stencil.WindowSumBounds` | Scalar/Q1/22i0977_Q1_serial.cpp:37-41 | With samples in [0, hi], the response lies between −(negative weight mass)·hi and (positive weight mass)·hi. |
| `Cli.BucketValues` | OpenCL/22i0977_Q1_host_global.cpp:112 | `stoi` reads "512" and "1024" as 512 and 1024. |
| `Cli.ParseResolution` | OpenCL/22i0977_Q1_host_global.cpp:67-76 | Proceeds exactly when argc == 2 and the argument is "512" or "1024". The usage error is reported exactly when argc != 2. On success the value is the bucket the argument names. |
| `Files.Folder` | Scalar/Q1/22i0977_Q1_serial.cpp:61 | The listing of the folder named by the bucket holds every directory entry, images or not, and every entry's decoded `Mat` is well formed (an entry that does not decode has an empty `Mat`). |
| `SerialQ1.SameUpToStep` | Scalar/Q1/22i0977_Q1_serial.cpp:42 | Storing pixel (i, j)'s sum extends the finished row-major prefix by exactly that cell. |
| `SerialQ1.SameUpToAll` | Scalar/Q1/22i0977_Q1_serial.cpp:33-44 | Once the prefix covers rows·cols cells, every output pixel (i, j) holds its response. |
| `SerialQ1.ApplyConv` | Scalar/Q1/22i0977_Q1_serial.cpp:22-47 | The output has the image's rows × cols. Output (i, j) is the kernel-weighted sum of the window centred on (i, j) of the image with a pad-wide zero border. |
| `SerialQ1.SameReadsInBounds` | Scalar/Q1/22i0977_Q1_serial.cpp:37-39 | Every read (i+ki+pad, j+kj+pad) lies in [0, rows+2·pad) × [0, cols+2·pad), and so does its offset. |
| `SerialQ1.SameAtZeroImage` | Scalar/Q1/22i0977_Q1_serial.cpp:35-42 | An all-zero image gives an all-zero output, for any kernel. |
| `SerialQ1.SameAtRange` | Scalar/Q1/22i0977_Q1_serial.cpp:39 | With pixels in [0, hi], each output lies within the kernel's weight masses times hi. |
| `SerialQ1.KernelMass` | Scalar/Q1/22i0977_Q1_serial.cpp:15-19 | The scalar kernel is well shaped and has three +1 weights and three −1 weights. |
| `SerialQ1.SameAtBounded` | Scalar/Q1/22i0977_Q1_serial.cpp:15-19 | With that kernel and pixels in 0..255, every output lies in [−765, 765]. |
| `SerialQ1.ConstantSample` | Scalar/Q1/22i0977_Q1_serial.cpp:28 | A padded sample of a constant image is the constant inside the image and 0 on the border. |
| `SerialQ1.ConstantRow` | Scalar/Q1/22i0977_Q1_serial.cpp:38-39 | One kernel row over a constant image gives c·EdgeFactor(j) on image rows and 0 on border rows. |
| `SerialQ1.ConstantImageResponse` | Scalar/Q1/22i0977_Q1_serial.cpp:37-41 | For a constant image c, output (i, j) is c·EdgeFactor(j)·RowsCovered(i). |
| `SerialQ1.ConstantImageInteriorColumns` | Scalar/Q1/22i0977_Q1_serial.cpp:37-41 | For a constant image, the output is 0 at every column 0 < j < cols − 1. |
| `SerialQ1.Accepted` | Scalar/Q1/22i0977_Q1_serial.cpp:75-80 | The images the loop convolves are at most one per entry, and none of them is empty. |
| `SerialQ1.AcceptedConcat` | Scalar/Q1/22i0977_Q1_serial.cpp:72-97 | Walking two listings in sequence accepts the images of the first, then those of the second. |
| `SerialQ1.AcceptedSkips` | Scalar/Q1/22i0977_Q1_serial.cpp:77-80 | An entry that is not a .png/.jpg, or that does not decode, is skipped and the rest of the batch is processed as if it were absent. |
| `SerialQ1.AcceptedAll` | Scalar/Q1/22i0977_Q1_serial.cpp:75-96 | Every entry is counted if and only if every entry is a .png/.jpg that decodes. |
| `SerialQ1.AcceptedFromCounted` | Scalar/Q1/22i0977_Q1_serial.cpp:75-96 | Every convolved image comes from a .png/.jpg entry that decoded. |
| `SerialQ1.RunBatch` | Scalar/Q1/22i0977_Q1_serial.cpp:50-97 | A bad command line gives status 1 with nothing processed. Otherwise the status is 0 and `fileCount` is exactly the number of .png/.jpg entries that decoded. Result k is `apply_Conv` of the k-th such image. |
| `Serial.ValidUpToStep` | serial.cpp:38 | Storing pixel (i, j)'s sum makes exactly cell (i, j) final. |
| `Serial.ApplyConvolution` | serial.cpp:22-47 | The output has the image's size. For pad ≤ i < rows − pad and pad ≤ j < cols − pad, output (i, j) is the sum of K[ki+pad][kj+pad]·image(i+ki, j+kj). Every other pixel stays 0. |
| `Serial.ValidReadsInBounds` | serial.cpp:28-34 | Every read (i+ki, j+kj) of an interior pixel lies in [0, rows) × [0, cols), and so does its offset. |
| `Serial.SmallImageAllZero` | serial.cpp:25-29 | If rows ≤ 2·pad or cols ≤ 2·pad, the whole output is zero. |
| `Serial.ValidAgreesWithSame` | serial.cpp:28-38 | On interior pixels the result equals the zero-padded `apply_Conv` result for the same kernel. |
| `Serial.ValidAtBounded` | serial.cpp:15-19 | With `edgeKernel` and pixels in 0..255, every output lies in [−765, 765]. |
| `HostGlobalQ1.HostKernelIsTranspose` | OpenCL/22i0977_Q1_host_global.cpp:89 | The uploaded 3×3 kernel, read row-major, is the transpose of the scalar programs' kernel. |
| `HostGlobalQ1.CopyPixels` | OpenCL/22i0977_Q1_host_global.cpp:31-35 | The nested loops write all rows·cols leading cells in row-major order and nothing beyond them. |
| `HostGlobalQ1.LoadImage` | OpenCL/22i0977_Q1_host_global.cpp:21-36 | Fails exactly when the image is empty, or when its cols/rows differ from the expected width/height. On success the first width·height cells are the image. On failure the buffer is unchanged. |
| `HostGlobalQ1.GroupsAlong` | OpenCL/22i0977_Q1_host_global.cpp:142-143 | The number of work-groups along an axis is the extent rounded up to whole 16-wide tiles. |
| `HostGlobalQ1.LaunchTilesImage` | OpenCL/22i0977_Q1_host_global.cpp:142-143 | Every accepted resolution is a multiple of BLOCKSIZE, so the {width, height} launch has exactly (width/16)·(height/16) groups of 16×16 with no spare work-item. |
| `HostGlobalQ1.LaunchCoversPixels` | OpenCL/22i0977_Q1_host_global.cpp:142-143 | Every global id group·16 + local id is a pixel index. Every pixel is the global id of group pixel/16 and local id pixel%16. |
| `HostGlobalQ1.RunHost` | OpenCL/22i0977_Q1_host_global.cpp:145-175 | A bad command line gives status 1. Otherwise width = height = the bucket. The files are processed in order until one fails to load; that failure gives status 1. Each processed file's padded buffer, as handed to the device, is `Pad` of its pixels. |
| `HostGlobal.LoadPng` | host_global.cpp:18-31 | Fails exactly when the image is empty. Otherwise it reports the decoded size and the leading cells of the buffer hold the image. The buffer beyond rows·cols keeps its old contents. |
| `HostGlobal.RunHost` | host_global.cpp:99-110 | Padded sides are recomputed from each decoded size, and the padded buffer is allocated with exactly paddedWidth·paddedHeight cells. Each file's buffer is `Pad` of its pixels. The first undecodable file ends the run with status 1. |

## Left out

- OpenCL host plumbing is not modelled. This covers platform, device, context, queue, program and buffer creation, `clSetKernelArg`, `clEnqueue*`, the `CHECK_ERROR` exits and `loadKernelSource`. These are foreign calls with no logic to check, and the model stops at the padded buffer handed to the device.
- The device kernels `apply_conv` and `apply_conv_shared` are not modelled. `conv.cl` is not part of this model, so neither kernel, nor the shared-memory tile loader and its barrier, is compared with the scalar reference. Which orientation of the host kernel the device applies is not stated either.
- Floating-point normalisation and re-encoding are not modelled: `/ 255.0f` on load, `outputMat *= 255.0`, and the saturating `convertTo(CV_8U)` before saving.
- HostGlobalQ1.LoadImage: stores the 8-bit intensity itself rather than intensity / 255.0f. The copy loop, its order and its error cases are modelled.
- HostGlobal.RunHost: requires every image it reaches, that is every entry up to and including the first undecodable one, to fit in 512·512 cells, because host_global.cpp:101 allocates a fixed 512·512 buffer for every file and a larger image would overflow it. Images after the first undecodable entry are unconstrained, since the program exits before loading them.
- HostGlobal.LoadPng: requires the decoded image to fit the buffer. host_global.cpp:101 allocates 512·512 cells whatever the image size, and a larger image would overflow it.
- OpenCV's `copyMakeBorder` is stood for by the model's own `Padding.Pad` with zero fill. The library call itself is not modelled.
- Timing, directory walking and image I/O are not modelled (`chrono`, `directory_iterator`, `create_directory`, `imread`, `imwrite`). Folder listings and decoded images are inputs (`Files.Dataset`). `Dataset.Decodable` is what `imread` guarantees: one sample in 0..255 per pixel.
- SerialQ1.RunBatch: returns the responses rather than the saturated 8-bit images it writes. The printed summary is not modelled.
- The integer width of the index arithmetic is not modelled. `int` offsets such as `(y + halfK) * paddedWidth` are unbounded here; for the 512 and 1024 buckets they stay far below 2^31.
- host_shared.cpp and OpenCL/22i0977_Q1_host_shared.cpp are not modelled: apart from the command-line check they are plumbing.
- The OpenMP/Q2 programs are not modelled: floating-point trigonometry, drawing and parallel loops.
- OpenCL/check_results.py is not modelled: floating-point error measurement through external libraries.
- HostGlobalQ1.RunHost: the one-time allocation of the host buffers and their reuse for every file are in the body, not the contract. No `ensures` states that the same two arrays serve every file.
- The `main` loop of serial.cpp is not modelled. It differs from the loop modelled by `SerialQ1.RunBatch` in three ways. It accepts only `.png` entries (serial.cpp:66), where Scalar/Q1 also accepts `.jpg` (Scalar/Q1/22i0977_Q1_serial.cpp:75). It has no argc/resolution check and reads the fixed folder `dataset/grayscale/512` (serial.cpp:11). It writes the float result as it is (serial.cpp:88), where Scalar/Q1 first converts it to `CV_8U` (Scalar/Q1/22i0977_Q1_serial.cpp:93).
- Console output is not modelled. This covers the skip warning at Scalar/Q1/22i0977_Q1_serial.cpp:78, the load errors at OpenCL/22i0977_Q1_host_global.cpp:24,28, the progress prints at host_global.cpp:84-128, and the usage and summary messages.
